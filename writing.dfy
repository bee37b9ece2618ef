/** The files `write_tiles` writes: for every tile its own crop, and on request
    its rotations, its flips and the rotations of its last flip. Pixel content
    is opaque; the transpositions are a parameter. */
module Writing {
  import opened Grid
  import opened Names

  /** The PIL transpositions the tool applies to a crop. */
  datatype Transpose = Rotate90 | Rotate180 | Rotate270 | FlipLeftRight | FlipTopBottom

  /** The table from rotation angle to transposition. */
  function RotationOf(angle: int): Transpose
  {
    if angle == 90 then Rotate90 else if angle == 180 then Rotate180 else Rotate270
  }

  /** The table from flip mode to transposition: 'hor' mirrors left to right, 'vert' top to bottom. */
  function FlipOf(mode: string): Transpose
  {
    if mode == "hor" then FlipLeftRight else FlipTopBottom
  }

  /** A file as `write_tiles` saves it: its path and the image saved there. */
  datatype WrittenFile = WrittenFile(path: string, image: Image)

  /** The `.png` file for a stem in the target directory. */
  function PngPath(dir: string, stem: string): string
  {
    Join(dir, stem + ".png")
  }

  /** The name of a tile from its rectangle. */
  function TileNameOf(prefix: string, r: Rect): string
  {
    TileName(prefix, r.left, r.top)
  }

  function RotationFile(dir: string, tilename: string, crop: Image, transpose: (Image, Transpose) -> Image, k: int): WrittenFile
    requires 0 <= k < |RotationAngles|
  {
    WrittenFile(PngPath(dir, RotatedName(tilename, RotationAngles[k])), transpose(crop, RotationOf(RotationAngles[k])))
  }

  /** The files written by the first n rounds of the rotation loop. */
  function RotationFiles(dir: string, tilename: string, crop: Image, transpose: (Image, Transpose) -> Image, n: int): seq<WrittenFile>
    requires 0 <= n <= |RotationAngles|
  {
    if n == 0 then [] else RotationFiles(dir, tilename, crop, transpose, n - 1) + [RotationFile(dir, tilename, crop, transpose, n - 1)]
  }

  function FlipFile(dir: string, tilename: string, crop: Image, transpose: (Image, Transpose) -> Image, k: int): WrittenFile
    requires 0 <= k < |FlipModes|
  {
    WrittenFile(PngPath(dir, FlippedName(tilename, FlipModes[k])), transpose(crop, FlipOf(FlipModes[k])))
  }

  /** The files written by the first n rounds of the flip loop. */
  function FlipFiles(dir: string, tilename: string, crop: Image, transpose: (Image, Transpose) -> Image, n: int): seq<WrittenFile>
    requires 0 <= n <= |FlipModes|
  {
    if n == 0 then [] else FlipFiles(dir, tilename, crop, transpose, n - 1) + [FlipFile(dir, tilename, crop, transpose, n - 1)]
  }

  /** The two files written after the flip loop when rotating too: the name and
      the image the loop left behind (those of its last round) rotated by 90 and 270. */
  function CombinedFiles(dir: string, tilename: string, crop: Image, transpose: (Image, Transpose) -> Image): seq<WrittenFile>
  {
    var k := |FlipModes| - 1;
    var copyname := FlippedName(tilename, FlipModes[k]);
    var copy := transpose(crop, FlipOf(FlipModes[k]));
    [WrittenFile(PngPath(dir, copyname + "_rot_90"), transpose(copy, Rotate90)),
     WrittenFile(PngPath(dir, copyname + "_rot_270"), transpose(copy, Rotate270))]
  }

  /** Every file written for one tile, in write order. */
  function TileFiles(dir: string, tilename: string, crop: Image, rotate: bool, flip: bool, transpose: (Image, Transpose) -> Image): seq<WrittenFile>
  {
    [WrittenFile(PngPath(dir, tilename), crop)]
    + (if rotate then RotationFiles(dir, tilename, crop, transpose, |RotationAngles|) else [])
    + (if flip then FlipFiles(dir, tilename, crop, transpose, |FlipModes|)
                    + (if rotate then CombinedFiles(dir, tilename, crop, transpose) else [])
       else [])
  }

  /** Every file written for the tiles of `rects`, tile after tile. */
  function WrittenFiles(dir: string, prefix: string, src: Image, rects: seq<Rect>, rotate: bool, flip: bool,
                        crop: (Image, Rect) -> Image, transpose: (Image, Transpose) -> Image): seq<WrittenFile>
  {
    if rects == [] then []
    else
      var r := rects[|rects| - 1];
      WrittenFiles(dir, prefix, src, rects[..|rects| - 1], rotate, flip, crop, transpose)
      + TileFiles(dir, TileNameOf(prefix, r), crop(src, r), rotate, flip, transpose)
  }

  /** One more rectangle adds its tile's files at the end. */
  lemma WrittenFilesSnoc(dir: string, prefix: string, src: Image, rects: seq<Rect>, r: Rect, rotate: bool, flip: bool,
                         crop: (Image, Rect) -> Image, transpose: (Image, Transpose) -> Image)
    ensures WrittenFiles(dir, prefix, src, rects + [r], rotate, flip, crop, transpose)
         == WrittenFiles(dir, prefix, src, rects, rotate, flip, crop, transpose)
            + TileFiles(dir, TileNameOf(prefix, r), crop(src, r), rotate, flip, transpose)
  {
    assert (rects + [r])[..|rects|] == rects;
  }

  /** How many files one tile produces. */
  function FilesPerTile(rotate: bool, flip: bool): nat
  {
    1 + (if rotate then 3 else 0) + (if flip then 2 else 0) + (if rotate && flip then 2 else 0)
  }

  /** The files carry, in order, the paths of the stems. */
  predicate NamedAs(dir: string, files: seq<WrittenFile>, stems: seq<string>)
  {
    |files| == |stems| && forall i :: 0 <= i < |files| ==> files[i].path == PngPath(dir, stems[i])
  }

  lemma NamedAsConcat(dir: string, f1: seq<WrittenFile>, s1: seq<string>, f2: seq<WrittenFile>, s2: seq<string>)
    requires NamedAs(dir, f1, s1) && NamedAs(dir, f2, s2)
    ensures NamedAs(dir, f1 + f2, s1 + s2)
  {
    forall i | 0 <= i < |f1 + f2|
      ensures (f1 + f2)[i].path == PngPath(dir, (s1 + s2)[i])
    {
      if i >= |f1| {
        assert (f1 + f2)[i] == f2[i - |f1|] && (s1 + s2)[i] == s2[i - |s1|];
      }
    }
  }

  /** The rotation loop writes the three rotation names in order. */
  lemma RotationFilesNamed(dir: string, tilename: string, crop: Image, transpose: (Image, Transpose) -> Image)
    ensures NamedAs(dir, RotationFiles(dir, tilename, crop, transpose, 3),
                    seq(|RotationAngles|, k requires 0 <= k < |RotationAngles| => RotatedName(tilename, RotationAngles[k])))
  {
    assert RotationFiles(dir, tilename, crop, transpose, 1) == [RotationFile(dir, tilename, crop, transpose, 0)];
    assert RotationFiles(dir, tilename, crop, transpose, 2)
        == [RotationFile(dir, tilename, crop, transpose, 0), RotationFile(dir, tilename, crop, transpose, 1)];
  }

  /** The flip loop writes the two flip names in order. */
  lemma FlipFilesNamed(dir: string, tilename: string, crop: Image, transpose: (Image, Transpose) -> Image)
    ensures NamedAs(dir, FlipFiles(dir, tilename, crop, transpose, 2),
                    seq(|FlipModes|, k requires 0 <= k < |FlipModes| => FlippedName(tilename, FlipModes[k])))
  {
    assert FlipFiles(dir, tilename, crop, transpose, 1) == [FlipFile(dir, tilename, crop, transpose, 0)];
  }

  /** The files of one tile carry, in order, the names of the tile's stems, and
      the first of them is the crop itself. */
  lemma TileFilesNamed(dir: string, tilename: string, crop: Image, rotate: bool, flip: bool, transpose: (Image, Transpose) -> Image)
    ensures var files := TileFiles(dir, tilename, crop, rotate, flip, transpose);
      var stems := TileStems(tilename, rotate, flip);
      && |files| == |stems| == FilesPerTile(rotate, flip)
      && files[0] == WrittenFile(PngPath(dir, tilename), crop)
      && forall i :: 0 <= i < |files| ==> files[i].path == PngPath(dir, stems[i])
  {
    var lastFlip := FlippedName(tilename, FlipModes[|FlipModes| - 1]);
    var rotNames := seq(|RotationAngles|, k requires 0 <= k < |RotationAngles| => RotatedName(tilename, RotationAngles[k]));
    var flipNames := seq(|FlipModes|, k requires 0 <= k < |FlipModes| => FlippedName(tilename, FlipModes[k]));
    var rots := if rotate then RotationFiles(dir, tilename, crop, transpose, 3) else [];
    var rotStems := if rotate then rotNames else [];
    var combined := if rotate then CombinedFiles(dir, tilename, crop, transpose) else [];
    var combinedStems := if rotate then [lastFlip + "_rot_90", lastFlip + "_rot_270"] else [];
    var flips := if flip then FlipFiles(dir, tilename, crop, transpose, 2) + combined else [];
    var flipStems := if flip then flipNames + combinedStems else [];
    var base := [WrittenFile(PngPath(dir, tilename), crop)];
    assert NamedAs(dir, base, [tilename]);
    assert NamedAs(dir, rots, rotStems) by {
      if rotate {
        RotationFilesNamed(dir, tilename, crop, transpose);
      }
    }
    assert NamedAs(dir, flips, flipStems) by {
      if flip {
        FlipFilesNamed(dir, tilename, crop, transpose);
        NamedAsConcat(dir, FlipFiles(dir, tilename, crop, transpose, 2), flipNames, combined, combinedStems);
      }
    }
    NamedAsConcat(dir, base, [tilename], rots, rotStems);
    NamedAsConcat(dir, base + rots, [tilename] + rotStems, flips, flipStems);
    assert TileFiles(dir, tilename, crop, rotate, flip, transpose) == base + rots + flips;
    assert TileStems(tilename, rotate, flip) == [tilename] + rotStems + flipStems;
  }

  /** The files of a tile's rotate-and-flip pass are the horizontal flip rotated
      by 90 and by 270 degrees: the vertical flip is never rotated. */
  lemma CombinedFilesRotateLastFlip(dir: string, tilename: string, crop: Image, transpose: (Image, Transpose) -> Image)
    ensures var files := TileFiles(dir, tilename, crop, true, true, transpose);
      && |files| == 8
      && files[6] == WrittenFile(PngPath(dir, tilename + "_flip_hor_rot_90"), transpose(transpose(crop, FlipLeftRight), Rotate90))
      && files[7] == WrittenFile(PngPath(dir, tilename + "_flip_hor_rot_270"), transpose(transpose(crop, FlipLeftRight), Rotate270))
  {
    TileFilesNamed(dir, tilename, crop, true, true, transpose);
    var files := TileFiles(dir, tilename, crop, true, true, transpose);
    var combined := CombinedFiles(dir, tilename, crop, transpose);
    assert files[6..] == combined;
    var lastFlip := FlippedName(tilename, FlipModes[|FlipModes| - 1]);
    assert lastFlip + "_rot_90" == tilename + "_flip_hor_rot_90";
    assert lastFlip + "_rot_270" == tilename + "_flip_hor_rot_270";
  }

  /** Each tile of the rectangles contributes its files, so the total is the
      number of rectangles times the files per tile. */
  lemma {:induction false} WrittenFilesCount(dir: string, prefix: string, src: Image, rects: seq<Rect>, rotate: bool, flip: bool,
                                             crop: (Image, Rect) -> Image, transpose: (Image, Transpose) -> Image)
    ensures |WrittenFiles(dir, prefix, src, rects, rotate, flip, crop, transpose)| == |rects| * FilesPerTile(rotate, flip)
    decreases |rects|
  {
    if rects != [] {
      var r := rects[|rects| - 1];
      WrittenFilesCount(dir, prefix, src, rects[..|rects| - 1], rotate, flip, crop, transpose);
      TileFilesNamed(dir, TileNameOf(prefix, r), crop(src, r), rotate, flip, transpose);
      var n, k := |rects| - 1, FilesPerTile(rotate, flip);
      assert n * k + k == (n + 1) * k;
    }
  }
}
