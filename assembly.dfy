/** `assemble`: where each input tile lands on the canvas. Names are parsed for
    their coordinates, (rect, image) pairs carry their own rectangle, and every
    other image takes the next rectangle of the canonical traversal. */
module Assembly {
  import opened Wrappers
  import opened Grid
  import opened Names

  /** One element of the tiles argument. */
  datatype TileInput =
    | Name(path: string)                     // a file name carrying x_<left>_y_<top>
    | Positioned(box: Rect, image: Image)    // a (rect, image) pair
    | Bare(image: Image)                     // anything else: an image to place by the cursor

  /** One paste onto the canvas. */
  datatype Placement = Placement(image: Image, box: Rect)

  /** A known list of pastes followed by the outcome of the rest. */
  function Then(ps: seq<Placement>, rest: Result<seq<Placement>>): Result<seq<Placement>>
  {
    match rest
    case Ok(qs) => Ok(ps + qs)
    case Err(e) => Err(e)
  }

  /** The pastes `assemble` makes for `tiles`, in order, with `rects` the canonical
      rectangles not yet taken by the cursor; the first failure ends the assembly.
      `open` stands for reading an image file. */
  function Pastes(tiles: seq<TileInput>, rects: seq<Rect>, size: int, identify: string -> Identifier, open: string -> Image): Result<seq<Placement>>
  {
    if tiles == [] then Ok([])
    else
      match tiles[0]
      case Name(path) =>
        (match identify(path)
         case Derivative => Pastes(tiles[1..], rects, size, identify, open)
         case Malformed => Err(BadFilename)
         case Located(x, y) =>
           Then([Placement(open(path), Rect(x, y, x + size, y + size))], Pastes(tiles[1..], rects, size, identify, open)))
      case Positioned(box, image) => Then([Placement(image, box)], Pastes(tiles[1..], rects, size, identify, open))
      case Bare(image) =>
        if rects == [] then Err(RectsExhausted)
        else Then([Placement(image, rects[0])], Pastes(tiles[1..], rects[1..], size, identify, open))
  }

  /** How many tiles take a rectangle from the cursor. */
  function CountBare(tiles: seq<TileInput>): (n: nat)
    ensures n <= |tiles|
  {
    if tiles == [] then 0 else (if tiles[0].Bare? then 1 else 0) + CountBare(tiles[1..])
  }

  /** Does the tile end up on the canvas (if the assembly succeeds)? Skipped derivatives do not. */
  predicate Placed(t: TileInput, identify: string -> Identifier)
  {
    !(t.Name? && identify(t.path) == Derivative)
  }

  function CountPlaced(tiles: seq<TileInput>, identify: string -> Identifier): (n: nat)
    ensures n <= |tiles|
  {
    if tiles == [] then 0 else (if Placed(tiles[0], identify) then 1 else 0) + CountPlaced(tiles[1..], identify)
  }

  /** A name `assemble` cannot read. */
  predicate Unreadable(t: TileInput, identify: string -> Identifier)
  {
    t.Name? && identify(t.path) == Malformed
  }

  lemma {:induction false} CountsAppend(a: seq<TileInput>, b: seq<TileInput>, identify: string -> Identifier)
    ensures CountBare(a + b) == CountBare(a) + CountBare(b)
    ensures CountPlaced(a + b, identify) == CountPlaced(a, identify) + CountPlaced(b, identify)
    decreases |a|
  {
    if a == [] {
      assert a + b == b;
    } else {
      CountsAppend(a[1..], b, identify);
      assert (a + b)[0] == a[0] && (a + b)[1..] == a[1..] + b;
    }
  }

  lemma ThenAssoc(ps: seq<Placement>, qs: seq<Placement>, r: Result<seq<Placement>>)
    ensures Then(ps, Then(qs, r)) == Then(ps + qs, r)
  {
    if r.Ok? {
      assert ps + (qs + r.value) == (ps + qs) + r.value;
    }
  }

  /** Assembling a + b is assembling a, then b with the rectangles a left over:
      the cursor has moved past exactly one rectangle per bare image of a, and
      a contributed one paste per placed tile. */
  lemma {:induction false} PastesAppend(a: seq<TileInput>, b: seq<TileInput>, rects: seq<Rect>, size: int,
                                        identify: string -> Identifier, open: string -> Image)
    requires Pastes(a, rects, size, identify, open).Ok?
    ensures CountBare(a) <= |rects|
    ensures |Pastes(a, rects, size, identify, open).value| == CountPlaced(a, identify)
    ensures Pastes(a + b, rects, size, identify, open)
         == Then(Pastes(a, rects, size, identify, open).value, Pastes(b, rects[CountBare(a)..], size, identify, open))
    decreases |a|
  {
    if a == [] {
      assert a + b == b;
      assert rects[0..] == rects;
      var r := Pastes(b, rects, size, identify, open);
      if r.Ok? {
        assert [] + r.value == r.value;
      }
    } else {
      var t := a[0];
      assert (a + b)[0] == t && (a + b)[1..] == a[1..] + b;
      assert t.Bare? ==> rects != [];
      var rest := if t.Bare? then rects[1..] else rects;
      PastesAppend(a[1..], b, rest, size, identify, open);
      if t.Bare? {
        assert rest[CountBare(a[1..])..] == rects[CountBare(a)..];
      }
      var r := Pastes(b, rects[CountBare(a)..], size, identify, open);
      var qs := Pastes(a[1..], rest, size, identify, open).value;
      var ps := Pastes(a, rects, size, identify, open).value;
      if Placed(t, identify) {
        assert ps == [ps[0]] + qs;
        ThenAssoc([ps[0]], qs, r);
      } else {
        assert ps == qs;
      }
    }
  }

  /** The assembly succeeds exactly when every name is readable and there are no
      more bare images than canonical rectangles; it fails only by those two. */
  lemma {:induction false} PastesSucceed(tiles: seq<TileInput>, rects: seq<Rect>, size: int,
                                         identify: string -> Identifier, open: string -> Image)
    ensures Pastes(tiles, rects, size, identify, open).Ok?
        <==> (forall i :: 0 <= i < |tiles| ==> !Unreadable(tiles[i], identify)) && CountBare(tiles) <= |rects|
    ensures Pastes(tiles, rects, size, identify, open).Err?
        ==> (Pastes(tiles, rects, size, identify, open).error == BadFilename
             || Pastes(tiles, rects, size, identify, open).error == RectsExhausted)
    decreases |tiles|
  {
    if tiles != [] {
      var t := tiles[0];
      var rest := if t.Bare? && rects != [] then rects[1..] else rects;
      PastesSucceed(tiles[1..], rest, size, identify, open);
      assert forall i :: 1 <= i < |tiles| ==> tiles[i] == tiles[1..][i - 1];
      if !Unreadable(t, identify) && (forall i :: 1 <= i < |tiles| ==> !Unreadable(tiles[i], identify)) {
        assert forall i :: 0 <= i < |tiles| ==> !Unreadable(tiles[i], identify);
      }
    }
  }

  /** With every name readable, the only failure is the exhausted cursor, and it
      happens exactly when the bare images outnumber the canonical rectangles. */
  lemma {:induction false} CursorExhausted(tiles: seq<TileInput>, rects: seq<Rect>, size: int,
                                           identify: string -> Identifier, open: string -> Image)
    requires forall i :: 0 <= i < |tiles| ==> !Unreadable(tiles[i], identify)
    ensures Pastes(tiles, rects, size, identify, open).Err?
        ==> Pastes(tiles, rects, size, identify, open) == Err(RectsExhausted)
    ensures Pastes(tiles, rects, size, identify, open).Err? <==> CountBare(tiles) > |rects|
    decreases |tiles|
  {
    PastesSucceed(tiles, rects, size, identify, open);
    if tiles != [] {
      var t := tiles[0];
      assert !Unreadable(t, identify);
      assert forall i :: 0 <= i < |tiles[1..]| ==> tiles[1..][i] == tiles[i + 1];
      var rest := if t.Bare? && rects != [] then rects[1..] else rects;
      CursorExhausted(tiles[1..], rest, size, identify, open);
    }
  }

  /** Where the i-th tile lands: a readable name at its parsed position, a pair at
      its own rectangle, and a bare image at the canonical rectangle numbered by
      the bare images before it. */
  lemma PastesAt(tiles: seq<TileInput>, rects: seq<Rect>, size: int, identify: string -> Identifier, open: string -> Image, i: int)
    requires Pastes(tiles, rects, size, identify, open).Ok?
    requires 0 <= i < |tiles| && Placed(tiles[i], identify)
    ensures var ps := Pastes(tiles, rects, size, identify, open).value;
      var k := CountPlaced(tiles[..i], identify);
      var c := CountBare(tiles[..i]);
      && k < |ps| && c <= |rects|
      && (tiles[i].Bare? ==> c < |rects| && ps[k] == Placement(tiles[i].image, rects[c]))
      && (tiles[i].Positioned? ==> ps[k] == Placement(tiles[i].image, tiles[i].box))
      && (tiles[i].Name? ==>
            && identify(tiles[i].path).Located?
            && var id := identify(tiles[i].path);
               ps[k] == Placement(open(tiles[i].path), Rect(id.left, id.top, id.left + size, id.top + size)))
  {
    var a, b := tiles[..i], tiles[i..];
    assert tiles == a + b;
    assert b[0] == tiles[i];
    assert Pastes(a, rects, size, identify, open).Ok? by {
      PastesSucceed(tiles, rects, size, identify, open);
      PastesSucceed(a, rects, size, identify, open);
      CountsAppend(a, b, identify);
      assert forall j :: 0 <= j < |a| ==> a[j] == tiles[j];
    }
    PastesAppend(a, b, rects, size, identify, open);
    assert tiles[i].Bare? ==> CountBare(a) < |rects| by {
      PastesSucceed(tiles, rects, size, identify, open);
      CountsAppend(a, b, identify);
      CountsAppend([tiles[i]], b[1..], identify);
      assert b == [tiles[i]] + b[1..];
    }
  }

  /** Bare images alone take the canonical rectangles in order, from the first on. */
  lemma {:induction false} BareImagesTakeRectsInOrder(tiles: seq<TileInput>, rects: seq<Rect>, size: int,
                                                      identify: string -> Identifier, open: string -> Image)
    requires forall i :: 0 <= i < |tiles| ==> tiles[i].Bare?
    requires |tiles| <= |rects|
    ensures var r := Pastes(tiles, rects, size, identify, open);
      && r.Ok? && |r.value| == |tiles|
      && forall i :: 0 <= i < |tiles| ==> r.value[i] == Placement(tiles[i].image, rects[i])
    decreases |tiles|
  {
    if tiles != [] {
      assert forall i :: 0 <= i < |tiles[1..]| ==> tiles[1..][i] == tiles[i + 1];
      BareImagesTakeRectsInOrder(tiles[1..], rects[1..], size, identify, open);
      var ps := Pastes(tiles[1..], rects[1..], size, identify, open).value;
      var all := [Placement(tiles[0].image, rects[0])] + ps;
      assert forall i :: 1 <= i < |tiles| ==> all[i] == ps[i - 1];
    }
  }

  /** Names that are all skipped add nothing to the canvas. */
  lemma {:induction false} SkippedAddNothing(tiles: seq<TileInput>, rects: seq<Rect>, size: int,
                                             identify: string -> Identifier, open: string -> Image)
    requires forall i :: 0 <= i < |tiles| ==> tiles[i].Name? && identify(tiles[i].path) == Derivative
    ensures Pastes(tiles, rects, size, identify, open) == Ok([])
    decreases |tiles|
  {
    if tiles != [] {
      assert forall i :: 0 <= i < |tiles[1..]| ==> tiles[1..][i] == tiles[i + 1];
      SkippedAddNothing(tiles[1..], rects, size, identify, open);
    }
  }

  /** A located name followed by skipped names pastes that one file at its position. */
  lemma LocatedThenSkipped(tiles: seq<TileInput>, rects: seq<Rect>, size: int,
                           identify: string -> Identifier, open: string -> Image)
    requires |tiles| >= 1 && tiles[0].Name? && identify(tiles[0].path).Located?
    requires forall i :: 1 <= i < |tiles| ==> tiles[i].Name? && identify(tiles[i].path) == Derivative
    ensures var id := identify(tiles[0].path);
      Pastes(tiles, rects, size, identify, open)
        == Ok([Placement(open(tiles[0].path), Rect(id.left, id.top, id.left + size, id.top + size))])
  {
    assert forall i :: 0 <= i < |tiles[1..]| ==> tiles[1..][i] == tiles[i + 1];
    SkippedAddNothing(tiles[1..], rects, size, identify, open);
    var id := identify(tiles[0].path);
    var p := Placement(open(tiles[0].path), Rect(id.left, id.top, id.left + size, id.top + size));
    assert [p] + [] == [p];
  }

  /** A cursor that never ends along row 0 never runs dry: the assembly then
      succeeds exactly when every name is readable, and the c-th bare image lands
      at left c * stride on row 0. */
  lemma EndlessCursorNeverRunsDry(tiles: seq<TileInput>, w: nat, h: nat, size: int, stride: int,
                                  identify: string -> Identifier, open: string -> Image)
    requires h > 0 && stride < 1 && w > 0
    ensures var rects := CursorRects(w, h, size, stride, CountBare(tiles));
      && |rects| == CountBare(tiles)
      && (Pastes(tiles, rects, size, identify, open).Ok? <==> forall i :: 0 <= i < |tiles| ==> !Unreadable(tiles[i], identify))
      && forall c :: 0 <= c < |rects| ==> rects[c] == Rect(c * stride, 0, c * stride + size, size)
  {
    PastesSucceed(tiles, CursorRects(w, h, size, stride, CountBare(tiles)), size, identify, open);
  }

  /** A cursor whose first pull never returns: the assembly ends only when no bare
      image is reached, and then it is the assembly without rectangles. */
  lemma StalledCursorNeedsNoRect(tiles: seq<TileInput>, h: nat, size: int, stride: int,
                                 identify: string -> Identifier, open: string -> Image)
    requires h > 0 && stride < 1
    ensures CursorRects(0, h, size, stride, CountBare(tiles)) == []
    ensures Pastes(tiles, [], size, identify, open).Ok? ==> CountBare(tiles) == 0
  {
    PastesSucceed(tiles, [], size, identify, open);
  }

  /** The paste loop of `assemble`: every tile in turn onto the canvas, with
      `rects` the rectangles left to the cursor and `identify` the reading of
      file names; the first failure ends the loop. */
  method PasteTiles(img: Canvas, tiles: seq<TileInput>, rects: seq<Rect>, size: int,
                    identify: string -> Identifier, open: string -> Image) returns (o: Outcome)
    modifies img
    ensures var expected := Pastes(tiles, rects, size, identify, open);
      && (expected.Err? ==> o == Fail(expected.error))
      && (expected.Ok? ==> o == Pass && img.pastes == old(img.pastes) + expected.value)
  {
    ghost var start := img.pastes;
    ghost var expected := Pastes(tiles, rects, size, identify, open);
    var cursor := 0;
    for i := 0 to |tiles|
      invariant cursor <= |rects|
      invariant Then(start, expected) == Then(img.pastes, Pastes(tiles[i..], rects[cursor..], size, identify, open))
    {
      var rest := Pastes(tiles[i + 1..], rects[cursor..], size, identify, open);
      assert tiles[i..][0] == tiles[i] && tiles[i..][1..] == tiles[i + 1..];
      match tiles[i]
      case Name(path) =>
        var id := identify(path);
        if id.Derivative? {
          continue;
        }
        if id.Malformed? {
          ThenFails(start, expected);
          return Fail(BadFilename);
        }
        var tileImg := open(path);
        var box := Rect(id.left, id.top, id.left + size, id.top + size);
        ThenAssoc(img.pastes, [Placement(tileImg, box)], rest);
        img.Paste(tileImg, box);
      case Positioned(box, image) =>
        ThenAssoc(img.pastes, [Placement(image, box)], rest);
        img.Paste(image, box);
      case Bare(image) =>
        if cursor == |rects| {
          ThenFails(start, expected);
          return Fail(RectsExhausted);
        }
        var box := rects[cursor];
        assert rects[cursor..][1..] == rects[cursor + 1..];
        ThenAssoc(img.pastes, [Placement(image, box)], Pastes(tiles[i + 1..], rects[cursor + 1..], size, identify, open));
        img.Paste(image, box);
        cursor := cursor + 1;
    }
    assert tiles[|tiles|..] == [];
    assert img.pastes + [] == img.pastes;
    ThenFails(start, expected);
    o := Pass;
  }

  /** Known pastes in front neither cause nor hide a failure. */
  lemma ThenFails(ps: seq<Placement>, r: Result<seq<Placement>>)
    ensures Then(ps, r).Err? <==> r.Err?
    ensures r.Err? ==> Then(ps, r).error == r.error
    ensures r.Ok? ==> Then(ps, r).value == ps + r.value
  {
  }

  /** A canvas of a given mode and size and the pastes made onto it so far. */
  class Canvas {
    const mode: string
    const width: nat
    const height: nat
    var pastes: seq<Placement>

    /** `Image.new(mode, size)`: a blank canvas. */
    constructor(mode: string, width: nat, height: nat)
      ensures this.mode == mode && this.width == width && this.height == height
      ensures pastes == []
    {
      this.mode := mode;
      this.width := width;
      this.height := height;
      pastes := [];
    }

    /** `img.paste(image, box)`: one more paste, on top of the earlier ones. */
    method Paste(image: Image, box: Rect)
      modifies this
      ensures pastes == old(pastes) + [Placement(image, box)]
    {
      pastes := pastes + [Placement(image, box)];
    }
  }
}
