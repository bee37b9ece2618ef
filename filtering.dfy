/** `filter_tiles`: the tiles whose mean pixel value lies strictly between two
    thresholds, in traversal order. The mean is an exact ratio sum / count of an
    abstract per-tile statistic. */
module Filtering {
  import opened Grid

  /** What the filter reads of a tile: the sum of its pixel values and their number. */
  datatype PixelStat = PixelStat(sum: int, count: nat)

  /** lower < mean < upper. A tile without pixels has no mean (NaN in floating
      point, for which both comparisons are false), so it is never inside. */
  predicate InBand(st: PixelStat, lower: real, upper: real)
  {
    st.count > 0 && lower < st.sum as real / st.count as real < upper
  }

  /** The band test without division: lower * count < sum < upper * count. */
  lemma InBandExact(st: PixelStat, lower: real, upper: real)
    ensures InBand(st, lower, upper)
        <==> st.count > 0 && lower * st.count as real < st.sum as real < upper * st.count as real
  {
    if st.count > 0 {
      var n, s := st.count as real, st.sum as real;
      var m := s / n;
      assert m * n == s;
      assert lower < m <==> lower * n < m * n;
      assert m < upper <==> m * n < upper * n;
    }
  }

  /** Both thresholds are excluded: a tile whose mean equals either one is dropped,
      and at the defaults (0, 255) an all-black or all-white tile is dropped. */
  lemma ThresholdsExcluded(st: PixelStat, lower: real, upper: real)
    requires st.count > 0
    requires st.sum as real == lower * st.count as real || st.sum as real == upper * st.count as real
    ensures !InBand(st, lower, upper)
  {
    InBandExact(st, lower, upper);
  }

  /** The crop of each rectangle, in order. */
  function Crops(src: Image, rects: seq<Rect>, crop: (Image, Rect) -> Image): (images: seq<Image>)
    ensures |images| == |rects|
    ensures forall i :: 0 <= i < |rects| ==> images[i] == crop(src, rects[i])
  {
    seq(|rects|, i requires 0 <= i < |rects| => crop(src, rects[i]))
  }

  /** One more rectangle adds its crop at the end. */
  lemma CropsSnoc(src: Image, rects: seq<Rect>, r: Rect, crop: (Image, Rect) -> Image)
    ensures Crops(src, rects + [r], crop) == Crops(src, rects, crop) + [crop(src, r)]
  {
    assert forall i :: 0 <= i < |rects| ==> (rects + [r])[i] == rects[i];
  }

  /** The traversal's rectangles zipped with its crops. */
  function TilePairs(rects: seq<Rect>, images: seq<Image>): (pairs: seq<(Rect, Image)>)
    requires |rects| == |images|
    ensures |pairs| == |rects|
    ensures forall i :: 0 <= i < |pairs| ==> pairs[i] == (rects[i], images[i])
  {
    seq(|rects|, i requires 0 <= i < |rects| => (rects[i], images[i]))
  }

  /** The selected pairs, in their original order. */
  function Kept(pairs: seq<(Rect, Image)>, lower: real, upper: real, stat: Image -> PixelStat): seq<(Rect, Image)>
  {
    if pairs == [] then []
    else
      var last := pairs[|pairs| - 1];
      Kept(pairs[..|pairs| - 1], lower, upper, stat) + (if InBand(stat(last.1), lower, upper) then [last] else [])
  }

  /** xs is obtained from ys by deleting elements, keeping the order of the rest. */
  predicate IsSubsequence<T(==)>(xs: seq<T>, ys: seq<T>)
    decreases |ys|
  {
    if xs == [] then true
    else if ys == [] then false
    else if xs[|xs| - 1] == ys[|ys| - 1] then IsSubsequence(xs[..|xs| - 1], ys[..|ys| - 1])
    else IsSubsequence(xs, ys[..|ys| - 1])
  }

  /** A pair is selected exactly when it is a tile of the input whose mean is inside the band. */
  lemma {:induction false} KeptMembership(pairs: seq<(Rect, Image)>, lower: real, upper: real, stat: Image -> PixelStat, p: (Rect, Image))
    ensures p in Kept(pairs, lower, upper, stat) <==> p in pairs && InBand(stat(p.1), lower, upper)
    decreases |pairs|
  {
    if pairs != [] {
      var init := pairs[..|pairs| - 1];
      KeptMembership(init, lower, upper, stat, p);
      assert pairs == init + [pairs[|pairs| - 1]];
    }
  }

  /** The selection keeps the traversal order. */
  lemma {:induction false} KeptInOrder(pairs: seq<(Rect, Image)>, lower: real, upper: real, stat: Image -> PixelStat)
    ensures IsSubsequence(Kept(pairs, lower, upper, stat), pairs)
    decreases |pairs|
  {
    if pairs != [] {
      var init := pairs[..|pairs| - 1];
      var last := pairs[|pairs| - 1];
      var k := Kept(init, lower, upper, stat);
      KeptInOrder(init, lower, upper, stat);
      if InBand(stat(last.1), lower, upper) {
        assert (k + [last])[..|k|] == k;
      } else {
        assert k + [] == k;
        DropLast(k, pairs);
      }
    }
  }

  /** A subsequence of the shorter sequence is one of the longer. */
  lemma {:induction false} DropLast<T>(xs: seq<T>, ys: seq<T>)
    requires ys != [] && IsSubsequence(xs, ys[..|ys| - 1])
    ensures IsSubsequence(xs, ys)
    decreases |ys|, 0
  {
    if xs != [] && xs[|xs| - 1] == ys[|ys| - 1] {
      SubsequenceDropLast(xs, ys[..|ys| - 1]);
    }
  }

  /** Removing the last element keeps a subsequence a subsequence. */
  lemma {:induction false} SubsequenceDropLast<T>(xs: seq<T>, ys: seq<T>)
    requires xs != [] && IsSubsequence(xs, ys)
    ensures IsSubsequence(xs[..|xs| - 1], ys)
    decreases |ys|, 1
  {
    var init := xs[..|xs| - 1];
    if init != [] {
      if xs[|xs| - 1] == ys[|ys| - 1] {
        DropLast(init, ys);
      } else {
        SubsequenceDropLast(xs, ys[..|ys| - 1]);
        DropLast(init, ys);
      }
    }
  }

  /** When every tile is inside the band, nothing is dropped. */
  lemma {:induction false} KeptAll(pairs: seq<(Rect, Image)>, lower: real, upper: real, stat: Image -> PixelStat)
    requires forall i :: 0 <= i < |pairs| ==> InBand(stat(pairs[i].1), lower, upper)
    ensures Kept(pairs, lower, upper, stat) == pairs
    decreases |pairs|
  {
    if pairs != [] {
      var init := pairs[..|pairs| - 1];
      assert forall i :: 0 <= i < |init| ==> init[i] == pairs[i];
      KeptAll(init, lower, upper, stat);
      assert init + [pairs[|pairs| - 1]] == pairs;
    }
  }
}
