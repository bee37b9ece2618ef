/** Writing tiles and assembling the written file names: every tile comes back
    at its own rectangle, and every derivative file is skipped. */
module RoundTrip {
  import opened Wrappers
  import opened Grid
  import opened Names
  import opened Writing
  import opened Assembly

  /** The written files handed to `assemble` by name. */
  function AsNames(files: seq<WrittenFile>): (tiles: seq<TileInput>)
    ensures |tiles| == |files|
    ensures forall i :: 0 <= i < |files| ==> tiles[i] == Name(files[i].path)
  {
    seq(|files|, i requires 0 <= i < |files| => Name(files[i].path))
  }

  lemma AsNamesAppend(a: seq<WrittenFile>, b: seq<WrittenFile>)
    ensures AsNames(a + b) == AsNames(a) + AsNames(b)
  {
    assert forall i :: 0 <= i < |a + b| ==> AsNames(a + b)[i] == (AsNames(a) + AsNames(b))[i];
  }

  /** Names never take a rectangle from the cursor. */
  lemma {:induction false} NamesTakeNoRect(tiles: seq<TileInput>)
    requires forall i :: 0 <= i < |tiles| ==> tiles[i].Name?
    ensures CountBare(tiles) == 0
    decreases |tiles|
  {
    if tiles != [] {
      assert forall i :: 0 <= i < |tiles[1..]| ==> tiles[1..][i] == tiles[i + 1];
      NamesTakeNoRect(tiles[1..]);
    }
  }

  /** An identifier reading that gives a tile's base file its position and skips
      the tile's derivative files. */
  predicate ReadsBack(identify: string -> Identifier, dir: string, prefix: string, r: Rect, rotate: bool, flip: bool)
  {
    var stems := TileStems(TileNameOf(prefix, r), rotate, flip);
    && identify(PngPath(dir, stems[0])) == Located(r.left, r.top)
    && forall i :: 1 <= i < |stems| ==> identify(PngPath(dir, stems[i])) == Derivative
  }

  /** The identifier parsing of `assemble` reads back every tile `write_tiles` names. */
  lemma NamesReadBack(dir: string, prefix: string, r: Rect, rotate: bool, flip: bool)
    requires PlainPrefix(prefix)
    ensures ReadsBack(ParseIdentifier, dir, prefix, r, rotate, flip)
  {
    var stems := TileStems(TileNameOf(prefix, r), rotate, flip);
    TileNameRoundTrip(dir, prefix, r.left, r.top);
    forall i | 1 <= i < |stems|
      ensures ParseIdentifier(PngPath(dir, stems[i])) == Derivative
    {
      DerivativesSkipped(dir, prefix, r.left, r.top, rotate, flip, i);
    }
  }

  /** The files of one tile, assembled by name, paste the tile's own crop file at
      the tile's square and nothing else. */
  lemma TileFilesAssemble(dir: string, prefix: string, r: Rect, c: Image, rotate: bool, flip: bool,
                          transpose: (Image, Transpose) -> Image, rects: seq<Rect>, size: int,
                          identify: string -> Identifier, open: string -> Image)
    requires ReadsBack(identify, dir, prefix, r, rotate, flip)
    ensures var files := TileFiles(dir, TileNameOf(prefix, r), c, rotate, flip, transpose);
      Pastes(AsNames(files), rects, size, identify, open)
        == Ok([Placement(open(PngPath(dir, TileNameOf(prefix, r))), Rect(r.left, r.top, r.left + size, r.top + size))])
  {
    var name := TileNameOf(prefix, r);
    var files := TileFiles(dir, name, c, rotate, flip, transpose);
    var stems := TileStems(name, rotate, flip);
    TileFilesNamed(dir, name, c, rotate, flip, transpose);
    var tiles := AsNames(files);
    assert forall i :: 0 <= i < |tiles| ==> tiles[i].path == PngPath(dir, stems[i]);
    LocatedThenSkipped(tiles, rects, size, identify, open);
  }

  /** What assembling the written names should paste: the base file of each
      rectangle at that rectangle, in order. */
  function Expected(dir: string, prefix: string, rects: seq<Rect>, open: string -> Image): (ps: seq<Placement>)
    ensures |ps| == |rects|
  {
    if rects == [] then []
    else
      var last := rects[|rects| - 1];
      Expected(dir, prefix, rects[..|rects| - 1], open) + [Placement(open(PngPath(dir, TileNameOf(prefix, last))), last)]
  }

  /** The i-th expected paste is the base file of the i-th rectangle at that rectangle. */
  lemma {:induction false} ExpectedAt(dir: string, prefix: string, rects: seq<Rect>, open: string -> Image, i: int)
    requires 0 <= i < |rects|
    ensures Expected(dir, prefix, rects, open)[i] == Placement(open(PngPath(dir, TileNameOf(prefix, rects[i]))), rects[i])
    decreases |rects|
  {
    var init := rects[..|rects| - 1];
    if i < |init| {
      ExpectedAt(dir, prefix, init, open, i);
    }
  }

  /** Assembling the names of every file written for `rects` pastes, in order,
      the base file of each rectangle exactly at that rectangle, whatever
      rectangles the cursor holds, for any reading that reads the names back. */
  lemma {:induction false} WrittenNamesAssemble(dir: string, prefix: string, src: Image, rects: seq<Rect>, rotate: bool, flip: bool,
                                                crop: (Image, Rect) -> Image, transpose: (Image, Transpose) -> Image,
                                                cursor: seq<Rect>, size: int, identify: string -> Identifier, open: string -> Image)
    requires forall i :: 0 <= i < |rects| ==> ReadsBack(identify, dir, prefix, rects[i], rotate, flip)
    requires forall i :: 0 <= i < |rects| ==> rects[i].right == rects[i].left + size && rects[i].bottom == rects[i].top + size
    ensures Pastes(AsNames(WrittenFiles(dir, prefix, src, rects, rotate, flip, crop, transpose)), cursor, size, identify, open)
         == Ok(Expected(dir, prefix, rects, open))
    decreases |rects|
  {
    if rects != [] {
      var init, last := rects[..|rects| - 1], rects[|rects| - 1];
      var before := WrittenFiles(dir, prefix, src, init, rotate, flip, crop, transpose);
      var mine := TileFiles(dir, TileNameOf(prefix, last), crop(src, last), rotate, flip, transpose);
      var a, b := AsNames(before), AsNames(mine);
      var p := Placement(open(PngPath(dir, TileNameOf(prefix, last))), last);
      assert Pastes(a, cursor, size, identify, open) == Ok(Expected(dir, prefix, init, open)) by {
        assert forall i :: 0 <= i < |init| ==> init[i] == rects[i];
        WrittenNamesAssemble(dir, prefix, src, init, rotate, flip, crop, transpose, cursor, size, identify, open);
      }
      assert AsNames(WrittenFiles(dir, prefix, src, rects, rotate, flip, crop, transpose)) == a + b by {
        AsNamesAppend(before, mine);
      }
      assert Pastes(a + b, cursor, size, identify, open) == Then(Expected(dir, prefix, init, open), Pastes(b, cursor, size, identify, open)) by {
        NamesTakeNoRect(a);
        PastesAppend(a, b, cursor, size, identify, open);
        assert cursor[0..] == cursor;
      }
      assert Pastes(b, cursor, size, identify, open) == Ok([p]) by {
        TileFilesAssemble(dir, prefix, last, crop(src, last), rotate, flip, transpose, cursor, size, identify, open);
        assert Rect(last.left, last.top, last.left + size, last.top + size) == last;
      }
    }
  }

  /** Name round trip over a session: assembling the names of every file written
      for the traversed rectangles pastes each tile's base file exactly at its
      rectangle, in traversal order, and skips every derivative file. */
  lemma SessionRoundTrip(dir: string, prefix: string, src: Image, size: int, stride: int, rotate: bool, flip: bool,
                         crop: (Image, Rect) -> Image, transpose: (Image, Transpose) -> Image, open: string -> Image)
    requires PlainPrefix(prefix)
    requires src.height > 0 ==> stride >= 1
    ensures var rects := Rects(src.width, src.height, size, stride);
      var r := Pastes(AsNames(WrittenFiles(dir, prefix, src, rects, rotate, flip, crop, transpose)), rects, size, ParseIdentifier, open);
      && r.Ok? && |r.value| == |rects|
      && forall i :: 0 <= i < |rects| ==> r.value[i] == Placement(open(PngPath(dir, TileNameOf(prefix, rects[i]))), rects[i])
  {
    var rects := Rects(src.width, src.height, size, stride);
    forall i | 0 <= i < |rects|
      ensures rects[i].right == rects[i].left + size && rects[i].bottom == rects[i].top + size
      ensures ReadsBack(ParseIdentifier, dir, prefix, rects[i], rotate, flip)
    {
      RectsInside(src.width, src.height, size, stride, i);
      NamesReadBack(dir, prefix, rects[i], rotate, flip);
    }
    WrittenNamesAssemble(dir, prefix, src, rects, rotate, flip, crop, transpose, rects, size, ParseIdentifier, open);
    forall i | 0 <= i < |rects|
      ensures Expected(dir, prefix, rects, open)[i] == Placement(open(PngPath(dir, TileNameOf(prefix, rects[i]))), rects[i])
    {
      ExpectedAt(dir, prefix, rects, open, i);
    }
  }
}
