/** The grid engine: tile rectangles, the stride default, the grid shape and the
    row-major traversal of an image by square tiles. */
module Grid {
  import opened Wrappers

  /** A tile rectangle (left, top, right, bottom) in pixel coordinates. */
  datatype Rect = Rect(left: int, top: int, right: int, bottom: int)

  /** An image as the model sees it: its pixel size and an opaque token standing
      for its pixel content, which the model never inspects. */
  datatype Image = Image(width: nat, height: nat, content: nat)

  /** The stride a session keeps: the given one when it is at least 1, otherwise the tile size. */
  function EffectiveStride(size: int, stride: Option<int>): int
  {
    if stride.None? || stride.value < 1 then size else stride.value
  }

  /** The traversal can only advance when the kept stride is positive, and it is
      exactly when an explicit stride of at least 1 was given or the size is at least 1. */
  lemma StrideAtLeastOne(size: int, stride: Option<int>)
    ensures EffectiveStride(size, stride) >= 1 <==> (stride.Some? && stride.value >= 1) || size >= 1
    ensures EffectiveStride(size, stride) == 0 <==> size == 0 && (stride.None? || stride.value < 1)
  {
  }

  /** Python's `//`: division rounding towards negative infinity. */
  function FloorDiv(a: int, b: int): (q: int)
    requires b != 0
    ensures b > 0 ==> b * q <= a < b * q + b
    ensures b < 0 ==> b * q + b < a <= b * q
  {
    if b > 0 then a / b else (-a) / (-b)
  }

  /** The (rows, columns) pair `apply` derives from the image size. */
  function Shape(w: int, h: int, size: int, stride: int): (int, int)
    requires stride != 0
  {
    (FloorDiv(h - size, stride) + 1, FloorDiv(w - size, stride) + 1)
  }

  lemma MulLeft(a: int, b: int, s: int)
    requires a <= b && s >= 0
    ensures a * s <= b * s
  {
  }

  /** For a positive stride, the column count of the shape counts the tile
      columns that lie wholly inside the width: column k (k >= 0) fits iff k < cols. */
  lemma ShapeCountsWholeTiles(w: int, size: int, stride: int, k: int)
    requires stride >= 1 && k >= 0
    ensures k < FloorDiv(w - size, stride) + 1 <==> k * stride + size <= w
  {
    var q := FloorDiv(w - size, stride);
    if k <= q {
      MulLeft(k, q, stride);
    } else {
      MulLeft(q + 1, k, stride);
    }
  }

  /** ceil(n / s) for a positive s, and 0 for n <= 0. */
  function CeilDiv(n: int, s: int): int
    requires s >= 1
  {
    if n <= 0 then 0 else (n + s - 1) / s
  }

  /** Index k (k >= 0) is below ceil(n / s) exactly when k * s < n. */
  lemma CeilDivBound(n: int, s: int, k: int)
    requires s >= 1 && k >= 0
    ensures k < CeilDiv(n, s) <==> k * s < n
  {
    if n > 0 {
      var q := (n + s - 1) / s;
      assert s * q <= n + s - 1 < s * q + s;
      if k < q {
        MulLeft(k + 1, q, s);
      } else {
        MulLeft(q, k, s);
      }
    }
  }

  /** The tile in column `col` and row `row` of the grid. */
  function TileAt(col: int, row: int, size: int, stride: int): Rect
  {
    Rect(col * stride, row * stride, col * stride + size, row * stride + size)
  }

  /** The inner loop of the traversal: the rectangles of one row, from `left` on,
      while `left` is below the width. */
  function Row(left: int, top: int, w: int, size: int, stride: int): seq<Rect>
    requires stride >= 1
    decreases w - left
  {
    if left < w then [Rect(left, top, left + size, top + size)] + Row(left + stride, top, w, size, stride)
    else []
  }

  /** The outer loop of the traversal: the rows from `top` on, while `top` is below the height. */
  function RowsFrom(top: int, w: int, h: int, size: int, stride: int): seq<Rect>
    requires stride >= 1
    decreases h - top
  {
    if top < h then Row(0, top, w, size, stride) + RowsFrom(top + stride, w, h, size, stride)
    else []
  }

  /** Every rectangle the traversal of a w x h image yields, in order. With a
      height of 0 the outer loop never runs, whatever the stride. */
  function Rects(w: nat, h: nat, size: int, stride: int): seq<Rect>
    requires h > 0 ==> stride >= 1
  {
    if h == 0 then [] else RowsFrom(0, w, h, size, stride)
  }

  /** One round of the inner loop: the row from `left` starts with the rectangle at `left`. */
  lemma RowStep(done: seq<Rect>, left: int, top: int, w: int, size: int, stride: int, tail: seq<Rect>)
    requires stride >= 1 && left < w
    ensures done + Row(left, top, w, size, stride) + tail
         == (done + [Rect(left, top, left + size, top + size)]) + Row(left + stride, top, w, size, stride) + tail
  {
  }

  /** The inner loop is over once `left` reaches the width. */
  lemma RowDone(done: seq<Rect>, left: int, top: int, w: int, size: int, stride: int, tail: seq<Rect>)
    requires stride >= 1 && left >= w
    ensures done + Row(left, top, w, size, stride) + tail == done + tail
  {
  }

  /** One round of the outer loop: the rows from `top` start with the row at `top`. */
  lemma RowsStep(done: seq<Rect>, top: int, w: int, h: int, size: int, stride: int)
    requires stride >= 1 && top < h
    ensures done + RowsFrom(top, w, h, size, stride)
         == done + Row(0, top, w, size, stride) + RowsFrom(top + stride, w, h, size, stride)
  {
  }

  lemma {:induction false} RowLength(left: int, top: int, w: int, size: int, stride: int, k: int)
    requires stride >= 1 && k >= 0
    ensures k < |Row(left, top, w, size, stride)| <==> left + k * stride < w
    decreases w - left
  {
    if left < w && k > 0 {
      RowLength(left + stride, top, w, size, stride, k - 1);
      assert left + stride + (k - 1) * stride == left + k * stride;
    } else if left >= w {
      MulLeft(0, k, stride);
    }
  }

  lemma {:induction false} RowAt(left: int, top: int, w: int, size: int, stride: int, k: int)
    requires stride >= 1 && 0 <= k < |Row(left, top, w, size, stride)|
    ensures Row(left, top, w, size, stride)[k]
         == Rect(left + k * stride, top, left + k * stride + size, top + size)
    decreases w - left
  {
    if k > 0 {
      RowAt(left + stride, top, w, size, stride, k - 1);
      assert left + stride + (k - 1) * stride == left + k * stride;
    }
  }

  /** Every row from column 0 holds ceil(w / stride) rectangles. */
  lemma RowCount(top: int, w: int, size: int, stride: int)
    requires stride >= 1
    ensures |Row(0, top, w, size, stride)| == CeilDiv(w, stride)
  {
    var n := |Row(0, top, w, size, stride)|;
    var c := CeilDiv(w, stride);
    RowLength(0, top, w, size, stride, n);
    CeilDivBound(w, stride, n);
    if n > 0 {
      RowLength(0, top, w, size, stride, n - 1);
      CeilDivBound(w, stride, n - 1);
    }
    if c > 0 {
      RowLength(0, top, w, size, stride, c - 1);
      CeilDivBound(w, stride, c - 1);
    }
  }

  lemma CeilDivStep(n: int, s: int)
    requires s >= 1 && n > 0
    ensures CeilDiv(n, s) == 1 + CeilDiv(n - s, s)
  {
    var c := CeilDiv(n, s);
    var d := CeilDiv(n - s, s);
    CeilDivBound(n, s, 0);
    assert c >= 1;
    assert d >= 0;
    // d <= c - 1
    CeilDivBound(n - s, s, c - 1);
    CeilDivBound(n, s, c);
    assert (c - 1) * s == c * s - s;
    // c - 1 <= d
    CeilDivBound(n - s, s, d);
    CeilDivBound(n, s, d + 1);
    assert (d + 1) * s == d * s + s;
  }

  lemma {:induction false} RowsFromLength(top: int, w: int, h: int, size: int, stride: int)
    requires stride >= 1
    ensures |RowsFrom(top, w, h, size, stride)| == CeilDiv(w, stride) * CeilDiv(h - top, stride)
    decreases h - top
  {
    if top < h {
      RowCount(top, w, size, stride);
      RowsFromLength(top + stride, w, h, size, stride);
      CeilDivStep(h - top, stride);
      var c := CeilDiv(w, stride);
      var r := CeilDiv(h - top - stride, stride);
      assert c * (1 + r) == c + c * r;
    }
  }

  /** The traversal yields ceil(w / stride) * ceil(h / stride) rectangles. */
  lemma RectsLength(w: nat, h: nat, size: int, stride: int)
    requires h > 0 ==> stride >= 1
    ensures h > 0 ==> |Rects(w, h, size, stride)| == CeilDiv(w, stride) * CeilDiv(h, stride)
    ensures h == 0 ==> Rects(w, h, size, stride) == []
  {
    if h > 0 {
      RowsFromLength(0, w, h, size, stride);
    }
  }

  lemma {:induction false} RowsFromAt(top: int, w: int, h: int, size: int, stride: int, j: int, k: int)
    requires stride >= 1 && j >= 0 && 0 <= k < CeilDiv(w, stride) && top + j * stride < h
    ensures j * CeilDiv(w, stride) + k < |RowsFrom(top, w, h, size, stride)|
    ensures RowsFrom(top, w, h, size, stride)[j * CeilDiv(w, stride) + k]
         == Rect(k * stride, top + j * stride, k * stride + size, top + j * stride + size)
    decreases h - top
  {
    MulLeft(0, j, stride);
    if j == 0 {
      RowsFromAtFirstRow(top, w, h, size, stride, k);
    } else {
      assert top + stride + (j - 1) * stride == top + j * stride;
      RowsFromAt(top + stride, w, h, size, stride, j - 1, k);
      RowsFromAtLaterRow(top, w, h, size, stride, j, k);
    }
  }

  /** The first row of the rows from `top` is the row at `top`. */
  lemma RowsFromAtFirstRow(top: int, w: int, h: int, size: int, stride: int, k: int)
    requires stride >= 1 && 0 <= k < CeilDiv(w, stride) && top < h
    ensures k < |RowsFrom(top, w, h, size, stride)|
    ensures RowsFrom(top, w, h, size, stride)[k] == Rect(k * stride, top, k * stride + size, top + size)
  {
    RowCount(top, w, size, stride);
    RowAt(0, top, w, size, stride, k);
    assert RowsFrom(top, w, h, size, stride) == Row(0, top, w, size, stride) + RowsFrom(top + stride, w, h, size, stride);
  }

  /** Row j of the rows from `top` is row j - 1 of the rows after the first. */
  lemma RowsFromAtLaterRow(top: int, w: int, h: int, size: int, stride: int, j: int, k: int)
    requires stride >= 1 && j >= 1 && 0 <= k < CeilDiv(w, stride) && top < h
    requires var rest := RowsFrom(top + stride, w, h, size, stride);
      && (j - 1) * CeilDiv(w, stride) + k < |rest|
      && rest[(j - 1) * CeilDiv(w, stride) + k]
         == Rect(k * stride, top + stride + (j - 1) * stride, k * stride + size, top + stride + (j - 1) * stride + size)
    ensures j * CeilDiv(w, stride) + k < |RowsFrom(top, w, h, size, stride)|
    ensures RowsFrom(top, w, h, size, stride)[j * CeilDiv(w, stride) + k]
         == Rect(k * stride, top + j * stride, k * stride + size, top + j * stride + size)
  {
    var row := Row(0, top, w, size, stride);
    var rest := RowsFrom(top + stride, w, h, size, stride);
    assert RowsFrom(top, w, h, size, stride) == row + rest;
    RowCount(top, w, size, stride);
    ShiftIndex(row, rest, CeilDiv(w, stride), j, k);
    assert top + stride + (j - 1) * stride == top + j * stride;
  }

  /** Index j * c + k of a c-long row followed by the rest is index (j - 1) * c + k of the rest. */
  lemma ShiftIndex(row: seq<Rect>, rest: seq<Rect>, c: int, j: int, k: int)
    requires |row| == c && j >= 1 && 0 <= (j - 1) * c + k < |rest|
    ensures 0 <= j * c + k < |row + rest| && (row + rest)[j * c + k] == rest[(j - 1) * c + k]
  {
    assert j * c + k == c + ((j - 1) * c + k);
  }

  /** Column k and row j of the grid lie at index j * cols + k of the traversal
      whenever k * stride < w and j * stride < h. */
  lemma RectsAt(w: nat, h: nat, size: int, stride: int, j: int, k: int)
    requires stride >= 1 && j >= 0 && k >= 0 && j * stride < h && k * stride < w
    ensures j * CeilDiv(w, stride) + k < |Rects(w, h, size, stride)|
    ensures Rects(w, h, size, stride)[j * CeilDiv(w, stride) + k] == TileAt(k, j, size, stride)
  {
    CeilDivBound(w, stride, k);
    MulLeft(0, j, stride);
    RowsFromAt(0, w, h, size, stride, j, k);
  }

  /** The traversal has rows of ceil(w / stride) rectangles each, so it is
      empty unless that count is positive. */
  lemma RectsColumns(w: nat, h: nat, size: int, stride: int)
    requires h > 0 ==> stride >= 1
    requires |Rects(w, h, size, stride)| > 0
    ensures stride >= 1 && CeilDiv(w, stride) > 0
  {
    RectsLength(w, h, size, stride);
  }

  /** Index j * cols + k of the traversal is column k of row j. */
  lemma RectsSplitIndex(w: nat, h: nat, size: int, stride: int, i: int, j: int, k: int)
    requires stride >= 1 && CeilDiv(w, stride) > 0
    requires 0 <= i < |Rects(w, h, size, stride)|
    requires 0 <= j && 0 <= k < CeilDiv(w, stride) && i == j * CeilDiv(w, stride) + k
    ensures j * stride < h && k * stride < w
    ensures Rects(w, h, size, stride)[i] == TileAt(k, j, size, stride)
  {
    RectsLength(w, h, size, stride);
    var c := CeilDiv(w, stride);
    var r := CeilDiv(h, stride);
    if j >= r {
      MulLeft(r, j, c);
      assert false;
    }
    CeilDivBound(h, stride, j);
    CeilDivBound(w, stride, k);
    RectsAt(w, h, size, stride, j, k);
  }

  /** Index i of the traversal is column i % cols of row i / cols. */
  lemma RectsIndex(w: nat, h: nat, size: int, stride: int, i: int)
    requires h > 0 ==> stride >= 1
    requires 0 <= i < |Rects(w, h, size, stride)|
    ensures stride >= 1 && CeilDiv(w, stride) > 0
    ensures var c := CeilDiv(w, stride);
      && (i / c) * stride < h && (i % c) * stride < w
      && Rects(w, h, size, stride)[i] == TileAt(i % c, i / c, size, stride)
  {
    RectsColumns(w, h, size, stride);
    var c := CeilDiv(w, stride);
    RectsSplitIndex(w, h, size, stride, i, i / c, i % c);
  }

  /** Every yielded rectangle is a grid tile whose origin lies inside the image. */
  lemma RectsAreTiles(w: nat, h: nat, size: int, stride: int, r: Rect)
    requires h > 0 ==> stride >= 1
    requires r in Rects(w, h, size, stride)
    ensures exists j, k :: 0 <= j && 0 <= k && j * stride < h && k * stride < w && r == TileAt(k, j, size, stride)
  {
    var rs := Rects(w, h, size, stride);
    var i :| 0 <= i < |rs| && rs[i] == r;
    RectsIndex(w, h, size, stride, i);
    var c := CeilDiv(w, stride);
    var j, k := i / c, i % c;
    assert j * stride < h && k * stride < w && r == TileAt(k, j, size, stride);
  }

  /** Exactly the grid tiles whose origin lies inside the image are yielded:
      overhanging edge tiles included, any other rectangle excluded. */
  lemma RectsMembership(w: nat, h: nat, size: int, stride: int, r: Rect)
    requires stride >= 1
    ensures r in Rects(w, h, size, stride)
        <==> exists j, k :: 0 <= j && 0 <= k && j * stride < h && k * stride < w && r == TileAt(k, j, size, stride)
  {
    if r in Rects(w, h, size, stride) {
      RectsAreTiles(w, h, size, stride, r);
    }
    if exists j, k :: 0 <= j && 0 <= k && j * stride < h && k * stride < w && r == TileAt(k, j, size, stride) {
      var j, k :| 0 <= j && 0 <= k && j * stride < h && k * stride < w && r == TileAt(k, j, size, stride);
      RectsAt(w, h, size, stride, j, k);
    }
  }

  lemma DivModNext(i: int, c: int)
    requires i >= 0 && c > 0
    ensures i == (i / c) * c + i % c && 0 <= i % c < c
    ensures i % c + 1 < c ==> i + 1 == (i / c) * c + (i % c + 1)
    ensures i % c + 1 == c ==> i + 1 == (i / c + 1) * c + 0
  {
  }

  /** Row-major order: each rectangle after the first is either the next one to
      the right in the same row, or the first of the next row. */
  lemma RectsRowMajor(w: nat, h: nat, size: int, stride: int, i: int)
    requires h > 0 ==> stride >= 1
    requires 0 <= i && i + 1 < |Rects(w, h, size, stride)|
    ensures var rs := Rects(w, h, size, stride);
      || (rs[i + 1].top == rs[i].top && rs[i + 1].left == rs[i].left + stride)
      || (rs[i + 1].top == rs[i].top + stride && rs[i + 1].left == 0)
  {
    RectsIndex(w, h, size, stride, i);
    RectsIndex(w, h, size, stride, i + 1);
    TileAtSucc(i, CeilDiv(w, stride), size, stride);
  }

  /** The tiles at consecutive row-major indices of a grid with c columns. */
  lemma TileAtSucc(i: int, c: int, size: int, stride: int)
    requires i >= 0 && c > 0
    ensures var a, b := TileAt(i % c, i / c, size, stride), TileAt((i + 1) % c, (i + 1) / c, size, stride);
      || (b.top == a.top && b.left == a.left + stride)
      || (b.top == a.top + stride && b.left == 0)
  {
    var j, k := i / c, i % c;
    DivModSucc(i, c);
    if k + 1 < c {
      assert (k + 1) * stride == k * stride + stride;
    } else {
      assert (j + 1) * stride == j * stride + stride;
    }
  }

  /** Counting one further in base c: the last digit steps up, or wraps to 0 and carries. */
  lemma DivModSucc(i: int, c: int)
    requires i >= 0 && c > 0
    ensures i % c + 1 < c ==> (i + 1) / c == i / c && (i + 1) % c == i % c + 1
    ensures i % c + 1 >= c ==> (i + 1) / c == i / c + 1 && (i + 1) % c == 0
  {
    DivModNext(i, c);
    if i % c + 1 < c {
      DivModUnique(i + 1, c, i / c, i % c + 1);
    } else {
      DivModUnique(i + 1, c, i / c + 1, 0);
    }
  }

  /** Division with remainder has one answer. */
  lemma DivModUnique(n: int, c: int, q: int, r: int)
    requires c > 0 && 0 <= r < c && n == q * c + r
    ensures n / c == q && n % c == r
  {
    var q', r' := n / c, n % c;
    assert n == q' * c + r';
    if q' < q {
      MulLeft(q' + 1, q, c);
    } else if q' > q {
      MulLeft(q + 1, q', c);
    }
    assert q' * c == q * c ==> r' == r;
  }

  /** Every yielded rectangle is a tile-sized square whose origin is inside the image. */
  lemma RectsInside(w: nat, h: nat, size: int, stride: int, i: int)
    requires h > 0 ==> stride >= 1
    requires 0 <= i < |Rects(w, h, size, stride)|
    ensures var r := Rects(w, h, size, stride)[i];
      && 0 <= r.left < w && 0 <= r.top < h
      && r.right == r.left + size && r.bottom == r.top + size
  {
    RectsIndex(w, h, size, stride, i);
    var c := CeilDiv(w, stride);
    MulLeft(0, i / c, stride);
    MulLeft(0, i % c, stride);
  }

  /** A 250 x 200 image with size = stride = 100: `apply` reports a 2 x 2 shape
      (4 tiles) while the traversal yields 6 rectangles, the third column overhanging. */
  lemma ShapeAndTraversalDiffer()
    ensures Shape(250, 200, 100, 100) == (2, 2)
    ensures Rects(250, 200, 100, 100) == [
      Rect(0, 0, 100, 100), Rect(100, 0, 200, 100), Rect(200, 0, 300, 100),
      Rect(0, 100, 100, 200), Rect(100, 100, 200, 200), Rect(200, 100, 300, 200)]
  {
    assert Row(0, 0, 250, 100, 100) == [Rect(0, 0, 100, 100), Rect(100, 0, 200, 100), Rect(200, 0, 300, 100)];
    assert Row(0, 100, 250, 100, 100) == [Rect(0, 100, 100, 200), Rect(100, 100, 200, 200), Rect(200, 100, 300, 200)];
    assert RowsFrom(200, 250, 200, 100, 100) == [];
  }

  /** A 50 x 50 image with size 300 and stride 100 holds no whole tile, yet
      `apply` reports the shape (-2, -2), whose product 4 is the tile count, and
      the traversal yields one overhanging rectangle. */
  lemma ShapeWithoutWholeTile()
    ensures Shape(50, 50, 300, 100) == (-2, -2)
    ensures var sh := Shape(50, 50, 300, 100); sh.0 * sh.1 == 4
    ensures Rects(50, 50, 300, 100) == [Rect(0, 0, 300, 300)]
  {
    assert Row(0, 0, 50, 300, 100) == [Rect(0, 0, 300, 300)];
    assert RowsFrom(100, 50, 50, 300, 100) == [];
  }

  /** Without a positive stride the traversal of an image with positive height
      never ends. After n rounds of either loop, `left` or `top` is n * stride.
      With a positive width the inner loop never ends: `left` stays below the
      width and the generator yields rectangles along row 0 forever. With width
      0 the outer loop never ends: `top` stays below the height and nothing is
      ever yielded. */
  lemma NoProgressWithoutStride(w: nat, h: nat, stride: int, n: nat)
    requires stride < 1 && h > 0
    ensures n * stride < h
    ensures w > 0 ==> n * stride < w
  {
    MulLeft(0, n, -stride);
  }

  /** The first n rectangles the traversal generator yields when the stride is
      below 1 and the image has a positive width and height: all on row 0, the
      k-th at left k * stride. */
  function EndlessRow(n: nat, size: int, stride: int): (rs: seq<Rect>)
    ensures |rs| == n
    ensures forall k :: 0 <= k < n ==> rs[k] == Rect(k * stride, 0, k * stride + size, size)
  {
    seq(n, k => Rect(k * stride, 0, k * stride + size, size))
  }

  /** One more pull adds the rectangle at left n * stride. */
  lemma EndlessRowSnoc(n: nat, size: int, stride: int)
    ensures EndlessRow(n + 1, size, stride) == EndlessRow(n, size, stride) + [Rect(n * stride, 0, n * stride + size, size)]
  {
    assert forall k :: 0 <= k < n ==> EndlessRow(n + 1, size, stride)[k] == EndlessRow(n, size, stride)[k];
  }

  /** The rectangles a lazy cursor over the traversal hands out when n are asked
      for. A traversal that ends hands out its rectangles and then runs dry. A
      traversal along row 0 that never ends hands out all n. A traversal of
      width 0 that never ends hands out none, because its first pull never returns. */
  function CursorRects(w: nat, h: nat, size: int, stride: int, n: nat): seq<Rect>
  {
    if h > 0 && stride < 1 then (if w > 0 then EndlessRow(n, size, stride) else [])
    else Rects(w, h, size, stride)
  }

  /** For a traversal that ends, the cursor hands out exactly its rectangles, however many are asked for. */
  lemma CursorIsTraversal(w: nat, h: nat, size: int, stride: int, n: nat)
    requires h > 0 ==> stride >= 1
    ensures CursorRects(w, h, size, stride, n) == Rects(w, h, size, stride)
  {
  }
}
