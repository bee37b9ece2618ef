/** The `Tiling` session: a tile size and stride fixed at construction, an image
    fixed by `apply`, and the operations that traverse that image by tiles,
    write the tiles, filter them and assemble tiles back into one canvas. */
module Tilings {
  import opened Wrappers
  import opened Grid
  import opened Names
  import opened Writing
  import opened Filtering
  import opened Assembly

  /** What `apply` is given: a file path (read with `decode`) or an image. */
  datatype Source = FromPath(path: string) | FromImage(image: Image)

  class Tiling {
    const size: int
    const stride: int
    /** The applied image; None before the first `apply`. */
    var source: Option<Image>
    /** The display name of the applied file ("" for an image); unset before `apply`. */
    var sourceName: Option<string>
    /** (rows, columns) of the whole tiles; unset until an `apply` gets that far. */
    var shape: Option<(int, int)>
    var nTiles: Option<int>

    /** The bookkeeping `apply` keeps: the image and its name are set together,
        and the tile count is the product of the shape. */
    predicate Valid()
      reads this
    {
      && (source.Some? <==> sourceName.Some?)
      && (shape.Some? <==> nTiles.Some?)
      && (shape.Some? ==> nTiles.value == shape.value.0 * shape.value.1)
    }

    /** The traversal of the applied image ends: an image of height 0 has no rows,
        and otherwise every step must advance by at least one pixel. */
    predicate Traversable()
      reads this
    {
      source.Some? && source.value.height > 0 ==> stride >= 1
    }

    /** `Tiling(size, stride)`: the stride falls back to the size when it is
        missing or below 1. */
    constructor(size: int, stride: Option<int> := None)
      ensures this.size == size && this.stride == EffectiveStride(size, stride)
      ensures source == None && sourceName == None && shape == None && nTiles == None
      ensures Valid()
    {
      this.size := size;
      this.stride := EffectiveStride(size, stride);
      source := None;
      sourceName := None;
      shape := None;
      nTiles := None;
    }

    /** `apply(source)`: the image and its name are replaced first; the shape and
        the tile count follow, unless the stride is 0, where the floor division
        fails and they keep their earlier values. */
    method Apply(src: Source, decode: string -> Image) returns (o: Outcome)
      requires Valid()
      modifies this
      ensures source == Some(if src.FromPath? then decode(src.path) else src.image)
      ensures sourceName == Some(if src.FromPath? then SourceName(src.path) else "")
      ensures stride == 0 ==> o == Fail(ZeroStride) && shape == old(shape) && nTiles == old(nTiles)
      ensures stride != 0 ==>
        var sh := Shape(source.value.width, source.value.height, size, stride);
        o == Pass && shape == Some(sh) && nTiles == Some(sh.0 * sh.1)
      ensures Valid()
    {
      match src {
        case FromPath(path) =>
          source := Some(decode(path));
          sourceName := Some(SourceName(path));
        case FromImage(image) =>
          source := Some(image);
          sourceName := Some("");
      }
      var w, h := source.value.width, source.value.height;
      if stride == 0 {
        return Fail(ZeroStride);
      }
      var sh := Shape(w, h, size, stride);
      shape := Some(sh);
      nTiles := Some(sh.0 * sh.1);
      o := Pass;
    }

    /** `get_tile_rects()`: every rectangle of the row-major traversal, or the
        error of a session without an image. */
    method TileRects() returns (r: Result<seq<Rect>>)
      requires Traversable()
      ensures source.None? ==> r == Err(NotApplied)
      ensures source.Some? ==> r == Ok(Rects(source.value.width, source.value.height, size, stride))
    {
      if source.None? {
        return Err(NotApplied);
      }
      var rects := Traverse(source.value.width, source.value.height, size, stride);
      return Ok(rects);
    }

    /** `get_tile_images()`: the crop of every rectangle of the traversal, in
        traversal order. */
    method TileImages(crop: (Image, Rect) -> Image) returns (r: Result<seq<Image>>)
      requires Traversable()
      ensures source.None? ==> r == Err(NotApplied)
      ensures source.Some? ==>
        r == Ok(Crops(source.value, Rects(source.value.width, source.value.height, size, stride), crop))
    {
      if source.None? {
        return Err(NotApplied);
      }
      var images := CropTraverse(source.value, size, stride, crop);
      return Ok(images);
    }

    /** `write_tiles(...)`: for every rectangle of the traversal, in order, the
        files of its tile, named after `filenamePrefix` or else the source name. */
    method WriteTiles(crop: (Image, Rect) -> Image, transpose: (Image, Transpose) -> Image,
                      targetDir: string := "tiles", rotate: bool := false, flip: bool := false,
                      filenamePrefix: Option<string> := None) returns (r: Result<seq<WrittenFile>>)
      requires Valid() && Traversable()
      ensures source.None? ==> r == Err(NotApplied)
      ensures source.Some? ==>
        var prefix := if filenamePrefix.Some? then filenamePrefix.value else sourceName.value;
        r == Ok(WrittenFiles(targetDir, prefix, source.value, Rects(source.value.width, source.value.height, size, stride),
                             rotate, flip, crop, transpose))
    {
      var tiles := TileRects();
      if tiles.Err? {
        return Err(tiles.error);
      }
      var s := source.value;
      var prefix := if filenamePrefix.Some? then filenamePrefix.value else sourceName.value;
      var files := WriteAll(targetDir, prefix, s, tiles.value, rotate, flip, crop, transpose);
      return Ok(files);
    }

    /** `filter_tiles(lower, upper)`: the (rectangle, crop) pairs of the traversal
        whose mean pixel value lies strictly between the thresholds, in order. */
    method FilterTiles(crop: (Image, Rect) -> Image, stat: Image -> PixelStat,
                       lower: real := 0.0, upper: real := 255.0) returns (r: Result<seq<(Rect, Image)>>)
      requires Traversable()
      ensures source.None? ==> r == Err(NotApplied)
      ensures source.Some? ==>
        var rects := Rects(source.value.width, source.value.height, size, stride);
        r == Ok(Kept(TilePairs(rects, Crops(source.value, rects, crop)), lower, upper, stat))
    {
      var rects := TileRects();
      var images := TileImages(crop);
      if rects.Err? {
        return Err(rects.error);
      }
      var pairs := TilePairs(rects.value, images.value);
      var kept: seq<(Rect, Image)> := [];
      for i := 0 to |pairs|
        invariant kept == Kept(pairs[..i], lower, upper, stat)
      {
        var (rect, image) := pairs[i];
        assert pairs[..i + 1][..i] == pairs[..i];
        if InBand(stat(image), lower, upper) {
          kept := kept + [(rect, image)];
        }
      }
      assert pairs[..|pairs|] == pairs;
      return Ok(kept);
    }

    /** `assemble(tiles, mode)`: a blank canvas of the source's size with every
        tile pasted where `Pastes` places it, or the first failure. The
        rectangles come from a lazy cursor over the traversal, pulled once per
        bare image. The call ends in every case except one: a traversal of width
        0 that never ends, reached by a bare image before any failure. */
    method Assemble(tiles: seq<TileInput>, open: string -> Image, mode: string := "RGB") returns (r: Result<Canvas>)
      requires source.Some? && source.value.height > 0 && stride < 1 && source.value.width == 0
               ==> Pastes(tiles, [], size, ParseIdentifier, open) != Err(RectsExhausted)
      ensures source.None? ==> r == Err(NotApplied)
      ensures source.Some? ==>
        var rects := CursorRects(source.value.width, source.value.height, size, stride, CountBare(tiles));
        var expected := Pastes(tiles, rects, size, ParseIdentifier, open);
        && (expected.Err? ==> r == Err(expected.error))
        && (expected.Ok? ==> r.Ok? && fresh(r.value) && r.value.pastes == expected.value
                             && r.value.mode == mode && r.value.width == source.value.width
                             && r.value.height == source.value.height)
    {
      if source.None? {
        return Err(NotApplied);
      }
      var s := source.value;
      var rects := PullCursor(s.width, s.height, size, stride, CountBare(tiles));
      var img := new Canvas(mode, s.width, s.height);
      var o := PasteTiles(img, tiles, rects, size, ParseIdentifier, open);
      if o.Fail? {
        return Err(o.error);
      }
      assert [] + img.pastes == img.pastes;
      return Ok(img);
    }
  }

  /** The rectangles `assemble` pulls from its cursor for n bare images: the whole
      traversal when it ends, the endless row 0 otherwise. */
  method PullCursor(w: nat, h: nat, size: int, stride: int, n: nat) returns (rects: seq<Rect>)
    ensures rects == CursorRects(w, h, size, stride, n)
  {
    if h > 0 && stride < 1 {
      rects := [];
      if w > 0 {
        rects := PullRow(w, size, stride, n);
      }
    } else {
      rects := Traverse(w, h, size, stride);
    }
  }

  /** n pulls of the traversal generator when the stride is below 1: the inner
      loop's guard `left < w` holds forever, so each pull yields the next
      rectangle of row 0. */
  method PullRow(w: nat, size: int, stride: int, n: nat) returns (rects: seq<Rect>)
    requires stride < 1 && w > 0
    ensures rects == EndlessRow(n, size, stride)
  {
    rects := [];
    var left, top := 0, 0;
    for k := 0 to n
      invariant left == k * stride && top == 0
      invariant rects == EndlessRow(k, size, stride)
    {
      NoProgressWithoutStride(w, 1, stride, k);
      assert left < w;
      EndlessRowSnoc(k, size, stride);
      rects := rects + [Rect(left, top, left + size, top + size)];
      left := left + stride;
    }
  }

  /** The nested loops of `get_tile_rects`: rows from the top while below the
      height, and in each row rectangles from the left while below the width. */
  method Traverse(w: nat, h: nat, size: int, stride: int) returns (rects: seq<Rect>)
    requires h > 0 ==> stride >= 1
    ensures rects == Rects(w, h, size, stride)
  {
    rects := [];
    ghost var all := Rects(w, h, size, stride);
    var left, top := 0, 0;
    while top < h
      invariant 0 <= top && left == 0
      invariant h == 0 ==> rects == []
      invariant h > 0 ==> rects + RowsFrom(top, w, h, size, stride) == all
      decreases h - top
    {
      RowsStep(rects, top, w, h, size, stride);
      ghost var tail := RowsFrom(top + stride, w, h, size, stride);
      while left < w
        invariant rects + Row(left, top, w, size, stride) + tail == all
        decreases w - left
      {
        RowStep(rects, left, top, w, size, stride, tail);
        rects := rects + [Rect(left, top, left + size, top + size)];
        left := left + stride;
      }
      RowDone(rects, left, top, w, size, stride, tail);
      left := 0;
      top := top + stride;
    }
    assert h > 0 ==> RowsFrom(top, w, h, size, stride) == [];
    assert rects + [] == rects;
  }

  /** The nested loops of `get_tile_images`: the same traversal, cropping each rectangle. */
  method CropTraverse(s: Image, size: int, stride: int, crop: (Image, Rect) -> Image) returns (images: seq<Image>)
    requires s.height > 0 ==> stride >= 1
    ensures images == Crops(s, Rects(s.width, s.height, size, stride), crop)
  {
    var w, h := s.width, s.height;
    images := [];
    ghost var rects: seq<Rect> := [];
    ghost var all := Rects(w, h, size, stride);
    var left, top := 0, 0;
    while top < h
      invariant 0 <= top && left == 0
      invariant images == Crops(s, rects, crop)
      invariant h == 0 ==> rects == []
      invariant h > 0 ==> rects + RowsFrom(top, w, h, size, stride) == all
      decreases h - top
    {
      RowsStep(rects, top, w, h, size, stride);
      ghost var tail := RowsFrom(top + stride, w, h, size, stride);
      while left < w
        invariant images == Crops(s, rects, crop)
        invariant rects + Row(left, top, w, size, stride) + tail == all
        decreases w - left
      {
        var tile := Rect(left, top, left + size, top + size);
        RowStep(rects, left, top, w, size, stride, tail);
        CropsSnoc(s, rects, tile, crop);
        images := images + [crop(s, tile)];
        rects := rects + [tile];
        left := left + stride;
      }
      RowDone(rects, left, top, w, size, stride, tail);
      left := 0;
      top := top + stride;
    }
    assert h > 0 ==> RowsFrom(top, w, h, size, stride) == [];
    assert rects + [] == rects;
  }

  /** The files of one tile, in the order the loop body of `write_tiles` saves them. */
  method WriteTileFiles(dir: string, tilename: string, c: Image, rotate: bool, flip: bool,
                        transpose: (Image, Transpose) -> Image) returns (files: seq<WrittenFile>)
    ensures files == TileFiles(dir, tilename, c, rotate, flip, transpose)
  {
    files := [WrittenFile(PngPath(dir, tilename), c)];
    if rotate {
      var rots := WriteRotations(dir, tilename, c, transpose);
      files := files + rots;
    }
    if flip {
      var flips := WriteFlips(dir, tilename, c, rotate, transpose);
      files := files + flips;
    }
  }

  /** The rotation loop of `write_tiles`: one rotated copy per angle. */
  method WriteRotations(dir: string, tilename: string, c: Image, transpose: (Image, Transpose) -> Image)
    returns (files: seq<WrittenFile>)
    ensures files == RotationFiles(dir, tilename, c, transpose, |RotationAngles|)
  {
    files := [];
    for k := 0 to |RotationAngles|
      invariant files == RotationFiles(dir, tilename, c, transpose, k)
    {
      var angle := RotationAngles[k];
      var copyname := RotatedName(tilename, angle);
      var copy := transpose(c, RotationOf(angle));
      files := files + [WrittenFile(PngPath(dir, copyname), copy)];
    }
  }

  /** The flip loop of `write_tiles`, followed, when rotating too, by the two
      rotations of the copy the loop leaves behind. */
  method WriteFlips(dir: string, tilename: string, c: Image, rotate: bool, transpose: (Image, Transpose) -> Image)
    returns (files: seq<WrittenFile>)
    ensures files == FlipFiles(dir, tilename, c, transpose, |FlipModes|)
                     + (if rotate then CombinedFiles(dir, tilename, c, transpose) else [])
  {
    files := [];
    var copyname, copy := tilename, c;
    for k := 0 to |FlipModes|
      invariant files == FlipFiles(dir, tilename, c, transpose, k)
      invariant k > 0 ==> copyname == FlippedName(tilename, FlipModes[k - 1]) && copy == transpose(c, FlipOf(FlipModes[k - 1]))
    {
      var mode := FlipModes[k];
      copyname := FlippedName(tilename, mode);
      copy := transpose(c, FlipOf(mode));
      files := files + [WrittenFile(PngPath(dir, copyname), copy)];
    }
    if rotate {
      var copy1 := transpose(copy, Rotate90);
      var extra := [WrittenFile(PngPath(dir, copyname + "_rot_90"), copy1)];
      copy1 := transpose(copy, Rotate270);
      extra := extra + [WrittenFile(PngPath(dir, copyname + "_rot_270"), copy1)];
      assert extra == CombinedFiles(dir, tilename, c, transpose);
      files := files + extra;
    } else {
      assert files + [] == files;
    }
  }

  /** The loop of `write_tiles` over the traversal: the files of each tile in turn. */
  method WriteAll(dir: string, prefix: string, s: Image, tiles: seq<Rect>, rotate: bool, flip: bool,
                  crop: (Image, Rect) -> Image, transpose: (Image, Transpose) -> Image) returns (files: seq<WrittenFile>)
    ensures files == WrittenFiles(dir, prefix, s, tiles, rotate, flip, crop, transpose)
  {
    files := [];
    for i := 0 to |tiles|
      invariant files == WrittenFiles(dir, prefix, s, tiles[..i], rotate, flip, crop, transpose)
    {
      var tile := tiles[i];
      TakeOneMore(tiles, i);
      WrittenFilesSnoc(dir, prefix, s, tiles[..i], tile, rotate, flip, crop, transpose);
      var tilename := TileName(prefix, tile.left, tile.top);
      var mine := WriteTileFiles(dir, tilename, crop(s, tile), rotate, flip, transpose);
      files := files + mine;
    }
    assert tiles[..|tiles|] == tiles;
  }

  /** The first i + 1 elements are the first i and then element i. */
  lemma TakeOneMore<T>(xs: seq<T>, i: int)
    requires 0 <= i < |xs|
    ensures xs[..i + 1] == xs[..i] + [xs[i]]
  {
  }
}
