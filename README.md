# Tiling: a verified model of the `Tiling` tool

`Tiling` cuts an image into square tiles of a fixed `size`.
- The tiles are laid out on a grid with a step of `stride` pixels. The stride defaults to `size`.
- It can write the tiles (and rotated or flipped copies) as `.png` files.
- It can keep only the tiles whose mean pixel value lies between two thresholds.
- It can put tiles back together on one canvas. The tiles can be given as file names carrying `x_<left>_y_<top>`, as `(rect, image)` pairs, or as plain images in traversal order.

The model follows `tiling/tiling.py` class by class and loop by loop:

- `Tilings.Tiling` is the session object.
  - The constructor fixes `size` and the effective `stride`.
  - `Apply` sets the image, its display name, the `(rows, columns)` shape and the tile count.
  - The generator methods `TileRects`, `TileImages`, `FilterTiles`, and also `WriteTiles` and `Assemble`, read that state.
  - Their loops are module-level methods: `Traverse`, `CropTraverse`, `WriteAll`, `WriteTileFiles`, `WriteRotations`, `WriteFlips` and `Assembly.PasteTiles`.
  - Each loop is proved equal to a specification function: `Grid.Rects`, `Filtering.Crops`, `Writing.WrittenFiles`, `Writing.TileFiles`, `Filtering.Kept` and `Assembly.Pastes`.
- `Grid` holds the traversal:
  - the row-major grid of rectangles `(left, top, left + size, top + size)`
  - the stride default
  - Python's floor division
  - the shape `apply` reports
- `Names` holds the string handling the tool relies on. It is written out over `seq<char>`:
  - `str.split`, `os.path.split`, `os.path.splitext` and `os.path.join` for POSIX paths
  - `str` of an integer, `zfill` and `int`
  - the tile and derivative file names
  - the identifier that `assemble` reads out of a file name
- `Writing` lists the files `write_tiles` saves, as (path, image) pairs in save order.
- `Filtering` is the band test of `filter_tiles` and the selection it makes.
- `Assembly` is where each input of `assemble` lands, and the canvas it pastes onto.
- `RoundTrip` connects writing to assembling, for a plain prefix: one without '/' and without an '_'-separated token equal to `x`, `y`, `rot` or `flip`. With such a prefix, assembling the names of every file `write_tiles` writes pastes each tile's own file exactly at its rectangle, in traversal order, and every rotated or flipped copy is skipped. The default prefix is the source's name, and it need not be plain: a source `map_x_1.png` gives names whose first `x` token is followed by `1`, and a source `rot.png` gives names that are all skipped.

Pixels are opaque: an `Image` is its width, its height and a token. The image operations are function parameters of the methods that use them:
- `decode`: `Image.open` in `apply`
- `crop`: `Image.crop`
- `transpose`: `Image.transpose`
- `stat`: the pixel sum and count behind `numpy.mean`
- `open`: `Image.open` in `assemble`

Every proved property therefore holds for every behaviour of those operations.

Some notes on where the model follows the code:
- **Edge tiles are yielded and are not whole.** The traversal yields every grid rectangle whose top-left corner is inside the image, including those that overhang the right or bottom edge. The `shape` that `apply` records is `((h - size) // stride + 1, (w - size) // stride + 1)`. Each component counts the whole tiles along its axis when it is not negative, and `n_tiles` is just the product of the two.
  - For a 250 x 200 image with size and stride 100, `shape` is (2, 2), but the traversal yields six rectangles.
  - For a 50 x 50 image with size 300 and stride 100, `shape` is (-2, -2) and `n_tiles` is 4 although no whole tile fits, while the traversal yields one rectangle.
  - The model follows the code. `Grid.ShapeAndTraversalDiffer` and `Grid.ShapeWithoutWholeTile` state these examples, `Grid.ShapeCountsWholeTiles` states the meaning of the shape, and `Grid.RectsMembership` states the meaning of the traversal.
- **The lazy cursor of `assemble`.** `assemble` pulls the next traversal rectangle only for a bare image. With a stride below 1 and a positive height the traversal never ends. With a positive width each pull still returns the next rectangle along row 0, so `assemble` finishes and its cursor never runs dry. With width 0 the first pull never returns. `Tilings.Tiling.Assemble` models both cases (`Grid.CursorRects`).
- **A zero stride.** `apply` with an effective stride of 0 (size 0 and no usable stride) sets the image and its name, then fails in the floor division. `Tilings.Tiling.Apply` reports `ZeroStride` and keeps the earlier shape.

## Model

| member | source | states |
|---|---|---|
| Tilings.Tiling.constructor | tiling/tiling.py:46-52 | the size is kept, the stride is the given one when it is at least 1 and the size otherwise, and no image is applied yet |
| Grid.StrideAtLeastOne | tiling/tiling.py:46-51 | the kept stride is at least 1 exactly when a stride of at least 1 was given or the size is positive, and 0 exactly when the size is 0 and no usable stride was given |
| Tilings.Tiling.Apply | tiling/tiling.py:67-76 | a path is decoded and named by its base name up to the first dot, an image gets the name ""; then the shape is the floor-division shape and the tile count its product, or with stride 0 the call fails and the old shape stays; the session invariant is kept |
| Names.SourceName | tiling/tiling.py:69 | the display name has no '.' and no '/', is a prefix of the last path component, and is followed there by '.' when shorter |
| Names.LastComponent | tiling/tiling.py:69 | the last path component has no '/', is a suffix of the path, and is preceded by '/' when shorter than the path |
| Grid.FloorDiv | tiling/tiling.py:74-75 | Python's `//`: the quotient rounds towards negative infinity for either sign of the divisor |
| Grid.ShapeCountsWholeTiles | tiling/tiling.py:74-75 | column k is below the shape's column count exactly when a whole tile at k * stride fits in the width |
| Tilings.Tiling.TileRects | tiling/tiling.py:91-99 | without an image the call fails; otherwise it yields the traversal `Rects` of the image |
| Tilings.Traverse | tiling/tiling.py:93-99 | the nested while loops yield exactly `Rects(w, h, size, stride)` |
| Grid.RectsLength | tiling/tiling.py:93-99 | the traversal has ceil(w / stride) * ceil(h / stride) rectangles, and none for height 0 |
| Grid.RectsAt | tiling/tiling.py:93-99 | the tile of column k and row j (origin inside the image) is at index j * ceil(w / stride) + k |
| Grid.RectsIndex | tiling/tiling.py:93-99 | index i of the traversal is the tile of column i mod cols and row i div cols, with its origin inside the image |
| Grid.RectsMembership | tiling/tiling.py:93-99 | a rectangle is yielded exactly when it is a grid tile whose origin lies inside the image |
| Grid.RectsAreTiles | tiling/tiling.py:93-99 | every yielded rectangle is a grid tile with its origin inside the image |
| Grid.RectsRowMajor | tiling/tiling.py:93-99 | each rectangle after the first is one stride to the right of the previous one, or starts the next row at left 0 one stride lower |
| Grid.RectsInside | tiling/tiling.py:93-99 | every yielded rectangle is a size x size square whose top-left corner is inside the image |
| Grid.RowLength | tiling/tiling.py:95-97 | the inner loop from `left` yields k or more rectangles exactly when left + k * stride is below the width |
| Grid.RowAt | tiling/tiling.py:95-97 | the k-th rectangle of the inner loop starts at left + k * stride |
| Grid.RowsFromLength | tiling/tiling.py:94-99 | the outer loop from `top` yields full rows of ceil(w / stride) rectangles, ceil((h - top) / stride) times |
| Grid.RowsFromAt | tiling/tiling.py:94-99 | the rectangle at row j and column k of the outer loop from `top` starts at (k * stride, top + j * stride) |
| Grid.ShapeAndTraversalDiffer | tiling/tiling.py:73-99 | for a 250 x 200 image with size = stride = 100, the shape is (2, 2) while the traversal yields six rectangles |
| Grid.ShapeWithoutWholeTile | tiling/tiling.py:73-99 | for a 50 x 50 image with size 300 and stride 100, the shape is (-2, -2) with product 4, while the traversal yields the single rectangle (0, 0, 300, 300) |
| Grid.NoProgressWithoutStride | tiling/tiling.py:94-99 | with a stride below 1 and a positive height, `top` never reaches the height, and with a positive width `left` never reaches the width either, so the inner loop yields along row 0 forever |
| Grid.CursorIsTraversal | tiling/tiling.py:231 | for a traversal that ends, the cursor of `assemble` hands out exactly the traversal's rectangles |
| Tilings.Tiling.TileImages | tiling/tiling.py:113-122 | without an image the call fails; otherwise it yields the crop of every rectangle of the traversal, in order |
| Tilings.CropTraverse | tiling/tiling.py:115-122 | the nested loops yield exactly the crops of `Rects` of the image |
| Filtering.Crops | tiling/tiling.py:118-119 | one crop per rectangle, the i-th being the crop of the i-th rectangle |
| Filtering.CropsSnoc | tiling/tiling.py:118-119 | one more rectangle adds its crop at the end |
| Tilings.Tiling.WriteTiles | tiling/tiling.py:148-175 | without an image the call fails; otherwise, with the prefix taken from the argument or else the source name, it saves exactly `WrittenFiles` for the traversal |
| Tilings.WriteAll | tiling/tiling.py:155-174 | the loop over the rectangles saves, tile after tile, each tile's files named from its rectangle |
| Tilings.WriteTileFiles | tiling/tiling.py:156-174 | the loop body saves exactly `TileFiles`: the crop, then on request the rotations, then the flips and their combination |
| Tilings.WriteRotations | tiling/tiling.py:160-164 | the rotation loop saves the copies rotated by 90, 180 and 270 degrees, in that order |
| Tilings.WriteFlips | tiling/tiling.py:165-174 | the flip loop saves the vertical then horizontal flip, and when rotating too the last flip's rotations by 90 and by 270 |
| Writing.WrittenFilesSnoc | tiling/tiling.py:155-174 | one more rectangle adds its tile's files at the end |
| Writing.WrittenFilesCount | tiling/tiling.py:155-174 | every tile contributes 1 + 3 (rotate) + 2 (flip) + 2 (both) files |
| Writing.TileFilesNamed | tiling/tiling.py:157-174 | the files of one tile are, in order, the paths of the tile's stems, with the crop itself first |
| Writing.CombinedFilesRotateLastFlip | tiling/tiling.py:165-174 | with rotate and flip, the last two files are the horizontal flip (the loop's last copy) rotated by 90 and by 270 |
| Names.TileStems | tiling/tiling.py:157-174 | one tile produces 1 + 3 + 2 + 2 stems as the options ask, the tile name first |
| Names.TileStemsAt | tiling/tiling.py:160-174 | the stem at each position: rotations first, then the 'vert' and 'hor' flips, then the 'hor' flip rotated by 90 and 270 |
| Names.CombinedNames | tiling/tiling.py:170-174 | the combined names are those of the 'hor' flip: `_flip_hor_rot_90` and `_flip_hor_rot_270` |
| Names.DigitsValueOfDigits | tiling/tiling.py:157 | `str` of a natural number reads back to that number |
| Names.ZFillChars | tiling/tiling.py:157 | a zero-padded coordinate has only digits and '-' |
| Names.ParseZFilled | tiling/tiling.py:157 | `int(str(n).zfill(w))` is n for every integer n, negative ones included |
| Names.TileNameTokens | tiling/tiling.py:157 | the '_' tokens of a tile name are the prefix's tokens, then 'x', the padded left, 'y', the padded top |
| Names.JoinLastComponent | tiling/tiling.py:159 | joining a name without '/' to a directory keeps it as the last path component |
| Names.SplitJoin | tiling/tiling.py:237 | `'_'.join(s.split('_')) == s` |
| Names.SplitPieces | tiling/tiling.py:237 | no piece of a split holds the separator |
| Names.SplitAppend | tiling/tiling.py:237 | splitting at a separator splits both sides independently |
| Names.SplitWhole | tiling/tiling.py:237 | a string without the separator is a single piece |
| Names.SplitExt | tiling/tiling.py:236 | stem and extension concatenate to the name; the extension is empty or a dot without another dot, and it is split off only when the stem is not all dots (so ".png" keeps no extension) |
| Names.SplitExtAppend | tiling/tiling.py:236 | a stem that is not all dots followed by '.png' splits into exactly that stem and '.png' |
| Names.FirstIndexOf | tiling/tiling.py:241-242 | `list.index`: a position of the token with no earlier occurrence |
| Names.LocatedFromTokens | tiling/tiling.py:238-244 | marker-free tokens followed by 'x', a, 'y', b read as the position (int(a), int(b)) |
| Names.ParseTokensLocated | tiling/tiling.py:238-246 | a name's tokens give the position (x, y) exactly when no token is 'rot' or 'flip', the first 'x' is followed by a token reading x and the first 'y' by one reading y, in either order |
| Names.ParseTokensSkipped | tiling/tiling.py:238-239 | a name is skipped exactly when one of its tokens is 'rot' or 'flip' |
| Names.WrittenFileTokens | tiling/tiling.py:235-237 | the tokens `assemble` reads from a written path are the tokens of the stem, whatever the directory |
| Names.TileNameRoundTrip | tiling/tiling.py:234-244 | the identifier `assemble` reads from a tile's base file is the tile's own (left, top), for a prefix without '/' and marker tokens |
| Names.DerivativesSkipped | tiling/tiling.py:238-239 | every rotated or flipped copy's file name carries a 'rot' or 'flip' token and is skipped |
| Names.MarkedStem | tiling/tiling.py:238-239 | any stem with a 'rot' or 'flip' token after its name is skipped |
| Names.DerivativeShape | tiling/tiling.py:160-174 | every derivative stem is the tile name, '_', 'rot' or 'flip', '_' and a rest without '/' |
| Tilings.Tiling.FilterTiles | tiling/tiling.py:193-198 | without an image the call fails; otherwise it yields exactly the (rectangle, crop) pairs of the traversal that `Kept` selects |
| Filtering.TilePairs | tiling/tiling.py:195 | `zip` of the rectangles and their crops: pair i is the i-th rectangle with the i-th crop |
| Filtering.InBandExact | tiling/tiling.py:196-197 | lower < sum / count < upper exactly when count > 0 and lower * count < sum < upper * count |
| Filtering.ThresholdsExcluded | tiling/tiling.py:177-197 | a tile whose mean equals either threshold is dropped |
| Filtering.KeptMembership | tiling/tiling.py:195-198 | a pair is kept exactly when it comes from the traversal and its mean lies strictly inside the band |
| Filtering.KeptInOrder | tiling/tiling.py:195-198 | the kept pairs are a subsequence of the traversal, in its order |
| Filtering.KeptAll | tiling/tiling.py:195-198 | nothing is dropped when every tile is inside the band |
| Tilings.Tiling.Assemble | tiling/tiling.py:231-258 | without an image the call fails; otherwise it is a new canvas of the given mode and the source's size carrying exactly the pastes `Pastes` makes with the rectangles the lazy cursor hands out, or the first failure; it is excluded only where the source never returns |
| Tilings.PullCursor | tiling/tiling.py:231-256 | the rectangles pulled for n bare images: the whole traversal when it ends, otherwise the first n of the endless row 0 for a positive width and none for width 0 |
| Tilings.PullRow | tiling/tiling.py:95-97 | with a stride below 1 and a positive width, n pulls of the generator's inner loop give the rectangles at left 0, stride, 2 * stride, … on row 0 |
| Assembly.EndlessCursorNeverRunsDry | tiling/tiling.py:250-257 | with a cursor that never ends, every bare image gets a rectangle (the c-th at left c * stride on row 0), and the assembly succeeds exactly when every name is readable |
| Assembly.StalledCursorNeedsNoRect | tiling/tiling.py:254-257 | with a traversal of width 0 that never ends, the cursor hands out nothing, and an assembly that ends reached no bare image |
| Assembly.PasteTiles | tiling/tiling.py:233-257 | the paste loop adds exactly the pastes of `Pastes` to the canvas, or stops with its failure |
| Assembly.Canvas.constructor | tiling/tiling.py:232 | `Image.new`: a blank canvas of the mode and size |
| Assembly.Canvas.Paste | tiling/tiling.py:249 | one more paste on top of the earlier ones |
| Assembly.PastesSucceed | tiling/tiling.py:240-256 | the assembly succeeds exactly when every name is readable and the canonical rectangles last for the bare images; otherwise it fails with a bad-name or exhausted-cursor error |
| Assembly.CursorExhausted | tiling/tiling.py:254-256 | with readable names, it fails exactly when there are more bare images than rectangles |
| Assembly.PastesAt | tiling/tiling.py:233-257 | the i-th placed tile lands at its parsed position (name), its own rectangle (pair), or the next canonical rectangle (bare image) |
| Assembly.PastesAppend | tiling/tiling.py:233-257 | assembling a + b is assembling a, then b with the rectangles a left over |
| Assembly.CountsAppend | tiling/tiling.py:233-257 | the numbers of bare and of placed tiles add up over concatenation |
| Assembly.ThenFails | tiling/tiling.py:233-257 | pastes already made neither cause nor hide a failure |
| Assembly.BareImagesTakeRectsInOrder | tiling/tiling.py:254-257 | bare images alone go to the canonical rectangles in order |
| Assembly.SkippedAddNothing | tiling/tiling.py:238-239 | names with 'rot' or 'flip' add nothing |
| Assembly.LocatedThenSkipped | tiling/tiling.py:238-249 | a located name followed by skipped names pastes just that file, at its position |
| RoundTrip.NamesReadBack | tiling/tiling.py:234-244 | the identifier parsing of `assemble` locates each tile's base file at the tile's origin and skips its derivatives |
| RoundTrip.TileFilesAssemble | tiling/tiling.py:233-249 | the files of one tile, assembled by name, paste only the base file, at the tile's square |
| RoundTrip.ExpectedAt | tiling/tiling.py:233-249 | the i-th expected paste is the i-th rectangle's base file at that rectangle |
| RoundTrip.WrittenNamesAssemble | tiling/tiling.py:233-249 | the names of every written file assemble into the base files of the rectangles, in order, whatever the cursor holds |
| RoundTrip.SessionRoundTrip | tiling/tiling.py:124-258 | for a plain prefix, writing the traversal and assembling the written names pastes every tile's base file exactly at its rectangle, in traversal order, and nothing else |

## Left out

- Pixel content is left out. Images are opaque tokens with a size, and `crop`, `transpose`, `Image.open` and `numpy.mean` are parameters, so no property depends on what they do to pixels. `img.paste` is recorded as a list of (image, box) pastes, and the picture it would give is not computed.
- File-system effects are left out: the `os.path.exists` / `os.mkdir` of the target directory and the bytes `save` writes. `WriteTiles` returns the list of (path, image) files it saves instead.
- `Image.open(tile, mode=mode)` in `assemble` is left out. PIL accepts only the mode 'r' there, so with the default 'RGB' the real call raises for every named tile. The model treats `open` as a plain reading of the file, because that check is inside PIL.
- Generator laziness is left out, except for the cursor of `assemble`. `get_tile_rects`, `get_tile_images` and `filter_tiles` yield one item at a time, and the model returns the whole sequence. The missing-image error (an `AttributeError`) comes at different points in Python, and the model returns it as the call's result in every case:
  - for the generators, when iteration starts;
  - for `write_tiles` without a prefix, from the unset `source_name`;
  - for `assemble`, from `Image.new(mode, self.source.size)`, before any pull.
- Error types are simplified. `AttributeError` before `apply`, `ZeroDivisionError` in `apply`, `ValueError` for unreadable names and `StopIteration` from an exhausted cursor become the four `Failure` values `NotApplied`, `ZeroStride`, `BadFilename` and `RectsExhausted`.
- Tilings.Tiling.TileRects: a stride below 1 with a positive image height makes the traversal endless (see `Grid.NoProgressWithoutStride`). This method, `TileImages`, `WriteTiles` and `FilterTiles` return whole sequences, so they require `Traversable()` to exclude that case. A consumer of the Python generators could still pull finitely many items, or `write_tiles` could write files forever; neither is modelled.
- Tilings.Tiling.Assemble: excludes only the one case in which the source never returns. That is a traversal of width 0 that never ends, with a bare image reached before any failure, which is exactly when the assembly on an empty cursor would report `RectsExhausted`.
- Filtering.InBand: the mean is the exact rational sum / count, not a float, so rounding is not modelled. A tile without pixels (NaN in numpy) is never inside the band.
- Names.ParseInt: covers an optional sign and ASCII decimal digits. Python's `int` also accepts surrounding white space, '_' between digits and non-ASCII digits; such tokens are read as malformed here.
- Tuples of other lengths are not modelled separately. In `assemble`, any input that is neither a string nor a 2-tuple goes to the cursor; the model has that case as `Bare`.
- Paths are not normalised. They are POSIX paths compared as strings.
- `setup.py` and the package metadata are not part of this model.
