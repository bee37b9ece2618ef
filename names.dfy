/** Tile file names: the string operations the tiling tool relies on (Python's
    `str.split`, `zfill`, `str`/`int` on decimal integers and the POSIX path
    helpers), the names `write_tiles` produces and the identifier parsing of
    `assemble`, with the round trip between the two. */
module Names {
  import opened Wrappers

  // ---------------------------------------------------------------------------
  // Splitting and joining

  /** The pieces of `s[i..]` between occurrences of `sep`, in order. */
  function Pieces(s: string, sep: char, i: nat): (parts: seq<string>)
    requires i <= |s|
    ensures |parts| >= 1
    decreases |s| - i
  {
    if i == |s| then [""]
    else
      var rest := Pieces(s, sep, i + 1);
      if s[i] == sep then [""] + rest
      else [[s[i]] + rest[0]] + rest[1..]
  }

  /** `s.split(sep)`: the pieces of `s` between occurrences of `sep`, in order. */
  function Split(s: string, sep: char): (parts: seq<string>)
    ensures |parts| >= 1
  {
    Pieces(s, sep, 0)
  }

  lemma {:induction false} PiecesSeparatorFree(s: string, sep: char, i: nat, k: int)
    requires i <= |s| && 0 <= k < |Pieces(s, sep, i)|
    ensures sep !in Pieces(s, sep, i)[k]
    decreases |s| - i
  {
    if i < |s| {
      if s[i] == sep {
        if k > 0 { PiecesSeparatorFree(s, sep, i + 1, k - 1); }
      } else if k == 0 {
        PiecesSeparatorFree(s, sep, i + 1, 0);
      } else {
        PiecesSeparatorFree(s, sep, i + 1, k);
      }
    }
  }

  /** No piece contains the separator. */
  lemma SplitPieces(s: string, sep: char, k: int)
    requires 0 <= k < |Split(s, sep)|
    ensures sep !in Split(s, sep)[k]
  {
    PiecesSeparatorFree(s, sep, 0, k);
  }

  /** The pieces glued back together with `sep` between neighbours. */
  function JoinWith(parts: seq<string>, sep: char): string
    requires |parts| >= 1
  {
    if |parts| == 1 then parts[0] else parts[0] + [sep] + JoinWith(parts[1..], sep)
  }

  lemma {:induction false} JoinPieces(s: string, sep: char, i: nat)
    requires i <= |s|
    ensures JoinWith(Pieces(s, sep, i), sep) == s[i..]
    decreases |s| - i
  {
    if i < |s| {
      JoinPieces(s, sep, i + 1);
      var rest := Pieces(s, sep, i + 1);
      assert s[i..] == [s[i]] + s[i + 1..];
      if s[i] != sep {
        var parts := [[s[i]] + rest[0]] + rest[1..];
        assert parts[1..] == rest[1..];
        if |rest| > 1 {
          assert JoinWith(rest, sep) == rest[0] + [sep] + JoinWith(rest[1..], sep);
          assert JoinWith(parts, sep) == ([s[i]] + rest[0]) + [sep] + JoinWith(rest[1..], sep);
        }
      }
    }
  }

  /** Joining the pieces with the separator gives back the split string. */
  lemma SplitJoin(s: string, sep: char)
    ensures JoinWith(Split(s, sep), sep) == s
  {
    JoinPieces(s, sep, 0);
    assert s[0..] == s;
  }

  /** The joined string starts with the first piece, followed by `sep` when more pieces follow. */
  lemma JoinWithHead(parts: seq<string>, sep: char)
    requires |parts| >= 1
    ensures var s := JoinWith(parts, sep);
      && |parts[0]| <= |s| && s[..|parts[0]|] == parts[0]
      && (|parts| == 1 ==> s == parts[0])
      && (|parts| > 1 ==> |parts[0]| < |s| && s[|parts[0]|] == sep)
  {
    if |parts| > 1 {
      var s := JoinWith(parts, sep);
      assert s == parts[0] + ([sep] + JoinWith(parts[1..], sep));
    }
  }

  /** The pieces of a suffix do not depend on what precedes it. */
  lemma {:induction false} PiecesShift(x: string, y: string, sep: char, j: nat)
    requires j <= |y|
    ensures Pieces(x + y, sep, |x| + j) == Pieces(y, sep, j)
    decreases |y| - j
  {
    if j < |y| {
      PiecesShift(x, y, sep, j + 1);
      assert (x + y)[|x| + j] == y[j];
    }
  }

  lemma {:induction false} PiecesAppend(a: string, b: string, sep: char, i: nat)
    requires i <= |a|
    ensures Pieces(a + [sep] + b, sep, i) == Pieces(a, sep, i) + Split(b, sep)
    decreases |a| - i
  {
    if i == |a| {
      PiecesAppendAtSep(a, b, sep);
    } else {
      PiecesAppend(a, b, sep, i + 1);
      PiecesAppendStep(a, b, sep, i);
    }
  }

  /** At the separator, the pieces are an empty one followed by those of b. */
  lemma PiecesAppendAtSep(a: string, b: string, sep: char)
    ensures Pieces(a + [sep] + b, sep, |a|) == Pieces(a, sep, |a|) + Split(b, sep)
  {
    var s := a + [sep] + b;
    assert Pieces(s, sep, |a| + 1) == Split(b, sep) by {
      assert s == (a + [sep]) + b;
      PiecesShift(a + [sep], b, sep, 0);
    }
    assert s[|a|] == sep;
  }

  /** A character of a extends the first piece or starts a new one, on both sides alike. */
  lemma PiecesAppendStep(a: string, b: string, sep: char, i: nat)
    requires i < |a|
    requires Pieces(a + [sep] + b, sep, i + 1) == Pieces(a, sep, i + 1) + Split(b, sep)
    ensures Pieces(a + [sep] + b, sep, i) == Pieces(a, sep, i) + Split(b, sep)
  {
    var s := a + [sep] + b;
    assert s[i] == a[i];
    ConsPiece(a[i], sep, Pieces(a, sep, i + 1), Split(b, sep));
  }

  /** Putting a character in front of the pieces commutes with appending more pieces. */
  lemma ConsPiece(c: char, sep: char, ra: seq<string>, sb: seq<string>)
    requires |ra| >= 1
    ensures (if c == sep then [""] + (ra + sb) else [[c] + (ra + sb)[0]] + (ra + sb)[1..])
         == (if c == sep then [""] + ra else [[c] + ra[0]] + ra[1..]) + sb
  {
    if c == sep {
      assert [""] + (ra + sb) == ([""] + ra) + sb;
    } else {
      assert (ra + sb)[0] == ra[0];
      assert (ra + sb)[1..] == ra[1..] + sb;
      assert [[c] + ra[0]] + (ra[1..] + sb) == ([[c] + ra[0]] + ra[1..]) + sb;
    }
  }

  /** Splitting at a separator splits the two sides independently. */
  lemma SplitAppend(a: string, b: string, sep: char)
    ensures Split(a + [sep] + b, sep) == Split(a, sep) + Split(b, sep)
  {
    PiecesAppend(a, b, sep, 0);
  }

  lemma {:induction false} PiecesWhole(s: string, sep: char, i: nat)
    requires i <= |s| && sep !in s[i..]
    ensures Pieces(s, sep, i) == [s[i..]]
    decreases |s| - i
  {
    if i < |s| {
      assert s[i..] == [s[i]] + s[i + 1..];
      assert s[i] != sep && sep !in s[i + 1..];
      PiecesWhole(s, sep, i + 1);
      var rest := Pieces(s, sep, i + 1);
      assert rest[0] == s[i + 1..] && rest[1..] == [];
      assert Pieces(s, sep, i) == [[s[i]] + rest[0]] + rest[1..];
    } else {
      assert s[i..] == [];
    }
  }

  /** A string without the separator is a single piece. */
  lemma SplitWhole(s: string, sep: char)
    requires sep !in s
    ensures Split(s, sep) == [s]
  {
    assert s[0..] == s;
    PiecesWhole(s, sep, 0);
  }

  // ---------------------------------------------------------------------------
  // POSIX paths

  /** `os.path.split(path)[-1]`: everything after the last '/'. */
  function LastComponent(path: string): (name: string)
    ensures '/' !in name
    ensures |name| <= |path| && path[|path| - |name|..] == name
    ensures |name| < |path| ==> path[|path| - |name| - 1] == '/'
  {
    if path == [] || path[|path| - 1] == '/' then []
    else
      var name := LastComponent(path[..|path| - 1]) + [path[|path| - 1]];
      assert path[|path| - |name|..] == path[..|path| - 1][|path| - |name|..] + [path[|path| - 1]];
      name
  }

  lemma {:induction false} LastComponentAfterSlash(front: string, name: string)
    requires '/' !in name
    requires front == [] || front[|front| - 1] == '/'
    ensures LastComponent(front + name) == name
    decreases |name|
  {
    if name == [] {
      assert front + name == front;
    } else {
      var init, c := name[..|name| - 1], name[|name| - 1];
      assert LastComponent(front + init) == init by {
        LastComponentAfterSlash(front, init);
      }
      assert init + [c] == name;
      LastComponentSnoc(front, init, c);
    }
  }

  /** A character other than '/' extends the last component. */
  lemma LastComponentSnoc(front: string, init: string, c: char)
    requires c != '/' && LastComponent(front + init) == init
    ensures LastComponent(front + (init + [c])) == init + [c]
  {
    var path := front + init;
    assert front + (init + [c]) == path + [c];
    LastComponentPush(path, c);
  }

  lemma LastComponentPush(path: string, c: char)
    requires c != '/'
    ensures LastComponent(path + [c]) == LastComponent(path) + [c]
  {
    assert (path + [c])[..|path|] == path;
  }

  /** `os.path.join(dir, name)` for POSIX paths. */
  function Join(dir: string, name: string): string
  {
    if |name| > 0 && name[0] == '/' then name
    else if dir == [] || dir[|dir| - 1] == '/' then dir + name
    else dir + "/" + name
  }

  /** Joining a name without '/' to a directory keeps that name as the last component. */
  lemma JoinLastComponent(dir: string, name: string)
    requires '/' !in name
    ensures LastComponent(Join(dir, name)) == name
  {
    if dir == [] || dir[|dir| - 1] == '/' {
      LastComponentAfterSlash(dir, name);
    } else {
      LastComponentAfterSlash(dir + "/", name);
      assert dir + "/" + name == (dir + "/") + name;
    }
  }

  /** The index of the last `c` in `s`, or -1. */
  function LastIndexOf(s: string, c: char): (i: int)
    ensures -1 <= i < |s|
    ensures i >= 0 ==> s[i] == c
    ensures forall j :: i < j < |s| ==> s[j] != c
  {
    if s == [] then -1
    else if s[|s| - 1] == c then |s| - 1
    else LastIndexOf(s[..|s| - 1], c)
  }

  predicate OnlyDots(s: string)
  {
    forall i :: 0 <= i < |s| ==> s[i] == '.'
  }

  /** `os.path.splitext` on a name without '/': the extension runs from the last
      '.' to the end, unless only dots precede that '.' (a hidden file's name). */
  function SplitExt(name: string): (r: (string, string))
    ensures r.0 + r.1 == name
    ensures r.1 == [] || (r.1[0] == '.' && '.' !in r.1[1..])
    ensures r.1 != [] ==> !OnlyDots(r.0)
  {
    var d := LastIndexOf(name, '.');
    if d < 0 || OnlyDots(name[..d]) then (name, "")
    else
      assert name[..d] + name[d..] == name;
      (name[..d], name[d..])
  }

  /** A stem that is not all dots keeps a one-dot extension off it. */
  lemma SplitExtAppend(stem: string, ext: string, k: int)
    requires 0 <= k < |stem| && stem[k] != '.'
    requires |ext| > 0 && ext[0] == '.' && '.' !in ext[1..]
    ensures SplitExt(stem + ext) == (stem, ext)
  {
    var s := stem + ext;
    var d := LastIndexOf(s, '.');
    assert s[|stem|] == '.';
    assert forall j :: |stem| < j < |s| ==> s[j] == ext[1..][j - |stem| - 1];
    assert d == |stem|;
    assert s[..d] == stem && s[d..] == ext;
    assert s[..d][k] == stem[k];
  }

  /** `os.path.split(path)[-1].split('.')[0]`: the display name of a source
      file, its last path component up to the first '.'. */
  function SourceName(path: string): (name: string)
    ensures '.' !in name && '/' !in name
    ensures var base := LastComponent(path);
      && |name| <= |base| && base[..|name|] == name
      && (|name| < |base| ==> base[|name|] == '.')
  {
    var base := LastComponent(path);
    var parts := Split(base, '.');
    SplitJoin(base, '.');
    SplitPieces(base, '.', 0);
    JoinWithHead(parts, '.');
    assert '/' !in parts[0] by {
      assert forall i :: 0 <= i < |parts[0]| ==> parts[0][i] == base[i];
    }
    parts[0]
  }

  // ---------------------------------------------------------------------------
  // Decimal integers

  predicate IsDigit(c: char)
  {
    '0' <= c <= '9'
  }

  predicate AllDigits(s: string)
  {
    forall i :: 0 <= i < |s| ==> IsDigit(s[i])
  }

  function DigitChar(d: int): (c: char)
    requires 0 <= d <= 9
    ensures IsDigit(c) && c as int - '0' as int == d
  {
    ('0' as int + d) as char
  }

  /** `str(n)` for n >= 0: its decimal digits, most significant first. */
  function Digits(n: nat): (s: string)
    ensures |s| >= 1 && AllDigits(s)
    ensures s[0] == '0' ==> n == 0
  {
    if n < 10 then [DigitChar(n)] else Digits(n / 10) + [DigitChar(n % 10)]
  }

  /** The value of a string of decimal digits, leading zeros allowed. */
  function DigitsValue(s: string): nat
    requires AllDigits(s)
  {
    if s == [] then 0 else DigitsValue(s[..|s| - 1]) * 10 + (s[|s| - 1] as int - '0' as int)
  }

  /** Reading back the digits of n gives n. */
  lemma {:induction false} DigitsValueOfDigits(n: nat)
    ensures DigitsValue(Digits(n)) == n
    decreases n
  {
    if n >= 10 {
      DigitsValueOfDigits(n / 10);
      var s := Digits(n);
      assert s[..|s| - 1] == Digits(n / 10);
    }
  }

  /** `str(n)` for any integer. */
  function Str(n: int): (s: string)
    ensures |s| >= 1
    ensures forall i :: 0 <= i < |s| ==> IsDigit(s[i]) || (i == 0 && s[i] == '-')
  {
    if n < 0 then "-" + Digits(-n) else Digits(n)
  }

  function Zeros(k: nat): (z: string)
    ensures |z| == k && AllDigits(z)
    ensures forall i :: 0 <= i < k ==> z[i] == '0'
  {
    seq(k, _ => '0')
  }

  lemma {:induction false} ZerosValue(k: nat, s: string)
    requires AllDigits(s)
    ensures AllDigits(Zeros(k) + s) && DigitsValue(Zeros(k) + s) == DigitsValue(s)
    decreases |s|
  {
    var t := Zeros(k) + s;
    if s == [] {
      assert t == Zeros(k);
      ZerosValueAlone(k);
    } else {
      ZerosValue(k, s[..|s| - 1]);
      assert t[..|t| - 1] == Zeros(k) + s[..|s| - 1];
    }
  }

  lemma {:induction false} ZerosValueAlone(k: nat)
    ensures DigitsValue(Zeros(k)) == 0
    decreases k
  {
    if k > 0 {
      ZerosValueAlone(k - 1);
      assert Zeros(k)[..k - 1] == Zeros(k - 1);
    }
  }

  /** `s.zfill(width)`: pad with '0' on the left to `width` characters, keeping
      a leading sign in front of the padding. */
  function ZFill(s: string, width: nat): (r: string)
    ensures |r| == if |s| >= width then |s| else width
  {
    if |s| >= width then s
    else if |s| > 0 && (s[0] == '+' || s[0] == '-') then [s[0]] + Zeros(width - |s|) + s[1..]
    else Zeros(width - |s|) + s
  }

  /** `int(t)` on a token made of ASCII characters without white space: an
      optional sign followed by at least one decimal digit; anything else fails. */
  function ParseInt(t: string): Option<int>
  {
    if |t| > 0 && (t[0] == '+' || t[0] == '-') then
      if |t| > 1 && AllDigits(t[1..]) then
        var v: int := DigitsValue(t[1..]);
        Some(if t[0] == '-' then -v else v)
      else None
    else if |t| > 0 && AllDigits(t) then Some(DigitsValue(t))
    else None
  }

  /** A zero-padded decimal reads back as the number it was made from, whatever its sign. */
  lemma ParseZFilled(n: int, width: nat)
    ensures ParseInt(ZFill(Str(n), width)) == Some(n)
  {
    if n >= 0 {
      ZFilledNatural(n, width);
    } else {
      ZFilledNegative(n, width);
    }
  }

  lemma ZFilledNatural(n: nat, width: nat)
    ensures ParseInt(ZFill(Str(n), width)) == Some(n)
  {
    var d := Digits(n);
    assert Str(n) == d;
    DigitsValueOfDigits(n);
    var t := ZFill(d, width);
    assert AllDigits(t) && DigitsValue(t) == n by {
      if |d| < width {
        ZerosValue(width - |d|, d);
      }
    }
    ReadUnsigned(t);
  }

  lemma ZFilledNegative(n: int, width: nat)
    requires n < 0
    ensures ParseInt(ZFill(Str(n), width)) == Some(n)
  {
    var d := Digits(-n);
    var s := Str(n);
    assert s[0] == '-' && s[1..] == d by {
      assert s == "-" + d;
    }
    var k := if |s| >= width then 0 else width - |s|;
    assert DigitsValue(d) == -n by {
      DigitsValueOfDigits(-n);
    }
    ZFillSign(s, width);
    ReadNegativeFilled(ZFill(s, width), k, d);
  }

  /** `int` of '-', zeros and a digit string is minus the digits' value. */
  lemma ReadNegativeFilled(t: string, k: nat, d: string)
    requires |d| > 0 && AllDigits(d)
    requires |t| > 1 && t[0] == '-' && t[1..] == Zeros(k) + d
    ensures ParseInt(t) == Some(-(DigitsValue(d) as int))
  {
    ZerosValue(k, d);
    ReadNegative(t);
  }

  /** Zero filling a negative number puts the zeros between the sign and the digits. */
  lemma ZFillSign(s: string, width: nat)
    requires |s| > 0 && s[0] == '-'
    ensures var t := ZFill(s, width);
      t[0] == '-' && t[1..] == Zeros(if |s| >= width then 0 else width - |s|) + s[1..]
  {
    if |s| >= width {
      assert Zeros(0) + s[1..] == s[1..];
    } else {
      assert ZFill(s, width) == [s[0]] + (Zeros(width - |s|) + s[1..]);
    }
  }

  /** `int` of a digit string is its value. */
  lemma ReadUnsigned(t: string)
    requires |t| > 0 && AllDigits(t)
    ensures ParseInt(t) == Some(DigitsValue(t))
  {
    assert IsDigit(t[0]);
  }

  /** `int` of '-' and a digit string is minus its value. */
  lemma ReadNegative(t: string)
    requires |t| > 1 && t[0] == '-' && AllDigits(t[1..])
    ensures ParseInt(t) == Some(-(DigitsValue(t[1..]) as int))
  {
  }

  /** A padded decimal uses only digits and a leading '-'. */
  lemma ZFillChars(n: int, width: nat)
    ensures var z := ZFill(Str(n), width);
      forall i :: 0 <= i < |z| ==> IsDigit(z[i]) || z[i] == '-'
  {
    var s := Str(n);
    var z := ZFill(s, width);
    if |s| < width && s[0] == '-' {
      assert forall i :: 0 <= i < |z| ==> z[i] == '-' || z[i] == '0' || z[i] == s[1..][i - 1 - (width - |s|)];
    }
  }

  // ---------------------------------------------------------------------------
  // The names `write_tiles` writes

  const RotationAngles: seq<int> := [90, 180, 270]
  const FlipModes: seq<string> := ["vert", "hor"]

  /** `prefix_x_<left>_y_<top>` with both coordinates zero-padded to five characters. */
  function TileName(prefix: string, left: int, top: int): string
  {
    prefix + "_x_" + ZFill(Str(left), 5) + "_y_" + ZFill(Str(top), 5)
  }

  function RotatedName(name: string, angle: int): string
  {
    name + "_rot_" + Str(angle)
  }

  function FlippedName(name: string, mode: string): string
  {
    name + "_flip_" + mode
  }

  /** The stems of the files written for one tile, in write order: the tile, its
      three rotations, its two flips, and the two rotations of the flip done last
      in the flip loop (the horizontal one). */
  function TileStems(tilename: string, rotate: bool, flip: bool): (stems: seq<string>)
    ensures |stems| == 1 + (if rotate then 3 else 0) + (if flip then 2 else 0) + (if rotate && flip then 2 else 0)
    ensures stems[0] == tilename
  {
    var lastFlip := FlippedName(tilename, FlipModes[|FlipModes| - 1]);
    var rotations := seq(|RotationAngles|, i requires 0 <= i < |RotationAngles| => RotatedName(tilename, RotationAngles[i]));
    var flips := seq(|FlipModes|, i requires 0 <= i < |FlipModes| => FlippedName(tilename, FlipModes[i]));
    [tilename]
    + (if rotate then rotations else [])
    + (if flip then flips + (if rotate then [lastFlip + "_rot_90", lastFlip + "_rot_270"] else []) else [])
  }

  /** The combined rotate-and-flip names are exactly the two rotations of the horizontal flip. */
  lemma CombinedNames(tilename: string)
    ensures TileStems(tilename, true, true)[6..]
         == [tilename + "_flip_hor_rot_90", tilename + "_flip_hor_rot_270"]
  {
    var lastFlip := FlippedName(tilename, FlipModes[|FlipModes| - 1]);
    assert lastFlip == tilename + "_flip_hor";
    assert lastFlip + "_rot_90" == tilename + "_flip_hor_rot_90";
    assert lastFlip + "_rot_270" == tilename + "_flip_hor_rot_270";
  }

  // ---------------------------------------------------------------------------
  // The identifiers `assemble` reads

  /** What `assemble` makes of a file name. */
  datatype Identifier =
    | Derivative                    // a 'rot' or 'flip' token: skipped
    | Malformed                     // no usable x/y tokens: ValueError
    | Located(left: int, top: int)  // pasted at (left, top)

  /** The '_'-separated tokens of the file name without directory and extension. */
  function Tokens(path: string): seq<string>
  {
    Split(SplitExt(LastComponent(path)).0, '_')
  }

  /** `ts.index(t)`: the first position of t. */
  function FirstIndexOf(ts: seq<string>, t: string): (i: nat)
    requires t in ts
    ensures i < |ts| && ts[i] == t && t !in ts[..i]
  {
    if ts[0] == t then 0
    else
      var i := 1 + FirstIndexOf(ts[1..], t);
      assert ts[..i] == [ts[0]] + ts[1..][..i - 1];
      i
  }

  /** The first position of t is the one with no earlier t. */
  lemma FirstIndexAt(ts: seq<string>, t: string, j: int)
    requires 0 <= j < |ts| && ts[j] == t && t !in ts[..j]
    ensures FirstIndexOf(ts, t) == j
  {
  }

  /** Reads the tile position out of a file name's tokens: the integers after the
      first 'x' token and after the first 'y' token, in whichever order they come. */
  function ParseTokens(ts: seq<string>): Identifier
  {
    if "rot" in ts || "flip" in ts then Derivative
    else if "x" !in ts || "y" !in ts then Malformed
    else
      var xi := FirstIndexOf(ts, "x");
      var yi := FirstIndexOf(ts, "y");
      if xi + 1 == |ts| || yi + 1 == |ts| then Malformed
      else match (ParseInt(ts[xi + 1]), ParseInt(ts[yi + 1]))
        case (Some(x), Some(y)) => Located(x, y)
        case _ => Malformed
  }

  /** What `assemble` makes of a file path. */
  function ParseIdentifier(path: string): Identifier
  {
    ParseTokens(Tokens(path))
  }

  /** Tokens that are marker-free, then 'x', a, 'y', b, locate the tile at the
      values of a and b. */
  lemma LocatedFromTokens(p: seq<string>, a: string, b: string, x: int, y: int)
    requires forall t :: t in p ==> t != "x" && t != "y" && t != "rot" && t != "flip"
    requires a != "x" && a != "y" && a != "rot" && a != "flip"
    requires b != "rot" && b != "flip"
    requires ParseInt(a) == Some(x) && ParseInt(b) == Some(y)
    ensures ParseTokens(p + ["x", a, "y", b]) == Located(x, y)
  {
    var ts := p + ["x", a, "y", b];
    assert "rot" !in ts && "flip" !in ts;
    assert ts[..|p|] == p;
    FirstIndexAt(ts, "x", |p|);
    assert ts[..|p| + 2] == p + ["x", a];
    FirstIndexAt(ts, "y", |p| + 2);
  }

  /** The token after the first `t` reads as v. */
  predicate FirstFollowedBy(ts: seq<string>, t: string, v: int)
  {
    exists i :: 0 <= i < |ts| - 1 && ts[i] == t && t !in ts[..i] && ParseInt(ts[i + 1]) == Some(v)
  }

  /** The tokens locate a tile at (x, y) exactly when they have no 'rot' or 'flip'
      token, the first 'x' is followed by a token reading x, and the first 'y' by
      one reading y, in whichever order the two come. */
  lemma ParseTokensLocated(ts: seq<string>, x: int, y: int)
    ensures ParseTokens(ts) == Located(x, y)
        <==> "rot" !in ts && "flip" !in ts && FirstFollowedBy(ts, "x", x) && FirstFollowedBy(ts, "y", y)
  {
    if ParseTokens(ts) == Located(x, y) {
      FollowedAtFirst(ts, "x", x);
      FollowedAtFirst(ts, "y", y);
    }
    if "rot" !in ts && "flip" !in ts && FirstFollowedBy(ts, "x", x) && FirstFollowedBy(ts, "y", y) {
      FirstFollowedAt(ts, "x", x);
      FirstFollowedAt(ts, "y", y);
    }
  }

  lemma FollowedAtFirst(ts: seq<string>, t: string, v: int)
    requires t in ts && FirstIndexOf(ts, t) + 1 < |ts| && ParseInt(ts[FirstIndexOf(ts, t) + 1]) == Some(v)
    ensures FirstFollowedBy(ts, t, v)
  {
    var i := FirstIndexOf(ts, t);
    assert 0 <= i < |ts| - 1 && ts[i] == t && t !in ts[..i] && ParseInt(ts[i + 1]) == Some(v);
  }

  lemma FirstFollowedAt(ts: seq<string>, t: string, v: int)
    requires FirstFollowedBy(ts, t, v)
    ensures t in ts && FirstIndexOf(ts, t) + 1 < |ts| && ParseInt(ts[FirstIndexOf(ts, t) + 1]) == Some(v)
  {
    var i :| 0 <= i < |ts| - 1 && ts[i] == t && t !in ts[..i] && ParseInt(ts[i + 1]) == Some(v);
    FirstIndexAt(ts, t, i);
  }

  /** Names with a 'rot' or 'flip' token, and only those, are skipped. */
  lemma ParseTokensSkipped(ts: seq<string>)
    ensures ParseTokens(ts) == Derivative <==> "rot" in ts || "flip" in ts
  {
    if "rot" !in ts && "flip" !in ts && "x" in ts && "y" in ts {
      var xi, yi := FirstIndexOf(ts, "x"), FirstIndexOf(ts, "y");
      if xi + 1 < |ts| && yi + 1 < |ts| {
        assert ParseTokens(ts) != Derivative;
      }
    }
  }

  /** A prefix that the identifier parsing cannot confuse: no '/', and no token
      that is 'x', 'y', 'rot' or 'flip'. */
  predicate PlainPrefix(prefix: string)
  {
    && '/' !in prefix
    && forall t :: t in Split(prefix, '_') ==> t != "x" && t != "y" && t != "rot" && t != "flip"
  }

  /** The padded coordinate is one token, and never one of the marker tokens. */
  lemma CoordinateToken(n: int)
    ensures var z := ZFill(Str(n), 5);
      && '_' !in z && '/' !in z && '.' !in z
      && z != "x" && z != "y" && z != "rot" && z != "flip"
  {
    ZFillChars(n, 5);
    var z := ZFill(Str(n), 5);
    assert |z| >= 1;
    assert z[0] != 'x' && z[0] != 'y' && z[0] != 'r' && z[0] != 'f';
  }

  /** The tokens of a tile name: the prefix's tokens, then 'x', the padded left, 'y', the padded top. */
  lemma TileNameTokens(prefix: string, left: int, top: int)
    ensures var zl, zt := ZFill(Str(left), 5), ZFill(Str(top), 5);
      Split(TileName(prefix, left, top), '_') == Split(prefix, '_') + ["x", zl, "y", zt]
  {
    var zl, zt := ZFill(Str(left), 5), ZFill(Str(top), 5);
    CoordinateToken(left);
    CoordinateToken(top);
    assert TileName(prefix, left, top) == prefix + ['_'] + ("x" + ['_'] + (zl + ['_'] + ("y" + ['_'] + zt)));
    SplitAppend(prefix, "x" + ['_'] + (zl + ['_'] + ("y" + ['_'] + zt)), '_');
    SplitAppend("x", zl + ['_'] + ("y" + ['_'] + zt), '_');
    SplitAppend(zl, "y" + ['_'] + zt, '_');
    SplitAppend("y", zt, '_');
    SplitWhole("x", '_');
    SplitWhole("y", '_');
    SplitWhole(zl, '_');
    SplitWhole(zt, '_');
  }

  /** The tokens of a written file: the stem's tokens, since the directory and the
      '.png' extension are dropped (the stem holds a character other than '.'). */
  lemma WrittenFileTokens(dir: string, stem: string, k: int)
    requires '/' !in stem
    requires 0 <= k < |stem| && stem[k] != '.'
    ensures Tokens(Join(dir, stem + ".png")) == Split(stem, '_')
  {
    var ext := ".png";
    assert ext[1..] == "png";
    SplitExtAppend(stem, ext, k);
    JoinLastComponent(dir, stem + ext);
  }

  /** The tile name has its 'x' marker right after the prefix and its underscore. */
  lemma TileNameMarker(prefix: string, left: int, top: int)
    ensures var name := TileName(prefix, left, top);
      |prefix| + 1 < |name| && name[|prefix| + 1] == 'x' && name[..|prefix|] == prefix
  {
    var name := TileName(prefix, left, top);
    var rest := "_x_" + ZFill(Str(left), 5) + "_y_" + ZFill(Str(top), 5);
    assert name == prefix + rest;
    AppendParts(prefix, rest);
    assert rest[1] == 'x';
  }

  lemma AppendParts(a: string, b: string)
    ensures (a + b)[..|a|] == a
    ensures forall i :: 0 <= i < |b| ==> (a + b)[|a| + i] == b[i]
  {
  }

  /** Name round trip: the identifier of a written tile file gives back the
      tile's left and top coordinates. */
  lemma TileNameRoundTrip(dir: string, prefix: string, left: int, top: int)
    requires PlainPrefix(prefix)
    ensures ParseIdentifier(Join(dir, TileName(prefix, left, top) + ".png")) == Located(left, top)
  {
    var name := TileName(prefix, left, top);
    var p := Split(prefix, '_');
    var zl, zt := ZFill(Str(left), 5), ZFill(Str(top), 5);
    var ts := p + ["x", zl, "y", zt];
    CoordinateToken(left);
    CoordinateToken(top);
    assert Tokens(Join(dir, name + ".png")) == ts by {
      assert '/' !in name;
      TileNameMarker(prefix, left, top);
      WrittenFileTokens(dir, name, |prefix| + 1);
      TileNameTokens(prefix, left, top);
    }
    ParseZFilled(left, 5);
    ParseZFilled(top, 5);
    LocatedFromTokens(p, zl, zt, left, top);
  }

  /** Every derivative file of a tile carries a 'rot' or 'flip' token, so
      `assemble` skips it. */
  lemma DerivativesSkipped(dir: string, prefix: string, left: int, top: int, rotate: bool, flip: bool, i: int)
    requires '/' !in prefix
    requires 1 <= i < |TileStems(TileName(prefix, left, top), rotate, flip)|
    ensures ParseIdentifier(Join(dir, TileStems(TileName(prefix, left, top), rotate, flip)[i] + ".png")) == Derivative
  {
    var name := TileName(prefix, left, top);
    CoordinateToken(left);
    CoordinateToken(top);
    var stem := TileStems(name, rotate, flip)[i];
    // every derivative stem is `name` + '_' + a suffix whose first token is a marker
    var marker, rest := DerivativeShape(name, rotate, flip, i);
    assert '/' !in name;
    TileNameMarker(prefix, left, top);
    MarkedStem(dir, name, marker, rest, |prefix| + 1);
  }

  /** A stem made of a name, '_', a 'rot' or 'flip' marker, '_' and a rest has the
      marker among its tokens, so its identifier is a derivative. */
  lemma MarkedStem(dir: string, name: string, marker: string, rest: string, k: int)
    requires '/' !in name && '/' !in rest && (marker == "rot" || marker == "flip")
    requires 0 <= k < |name| && name[k] != '.'
    ensures ParseIdentifier(Join(dir, name + ['_'] + (marker + ['_'] + rest) + ".png")) == Derivative
  {
    var stem := name + ['_'] + (marker + ['_'] + rest);
    var ts := Split(name, '_') + ([marker] + Split(rest, '_'));
    assert Tokens(Join(dir, stem + ".png")) == Split(stem, '_') by {
      AppendParts(name, ['_'] + (marker + ['_'] + rest));
      assert stem == name + (['_'] + (marker + ['_'] + rest));
      assert stem[k] == name[k];
      WrittenFileTokens(dir, stem, k);
    }
    assert Split(stem, '_') == ts by {
      SplitAppend(name, marker + ['_'] + rest, '_');
      SplitAppend(marker, rest, '_');
      MarkerToken(marker);
    }
    assert ts[|Split(name, '_')|] == marker;
    assert ts[|Split(name, '_')|] in ts;
  }

  /** A marker is a token of its own. */
  lemma MarkerToken(marker: string)
    requires marker == "rot" || marker == "flip"
    ensures Split(marker, '_') == [marker]
  {
    assert forall i :: 0 <= i < |marker| ==> marker[i] != '_';
    SplitWhole(marker, '_');
  }

  /** A derivative stem is the tile name, '_', a 'rot' or 'flip' marker, '_' and a rest without '/'. */
  lemma DerivativeShape(name: string, rotate: bool, flip: bool, i: int) returns (marker: string, rest: string)
    requires 1 <= i < |TileStems(name, rotate, flip)|
    ensures marker == "rot" || marker == "flip"
    ensures TileStems(name, rotate, flip)[i] == name + ['_'] + (marker + ['_'] + rest)
    ensures '/' !in rest
  {
    var nr := if rotate then 3 else 0;
    TileStemsAt(name, rotate, flip, i);
    if i <= nr {
      marker, rest := "rot", Str(RotationAngles[i - 1]);
      RotatedShape(name, RotationAngles[i - 1]);
    } else if i <= nr + 2 {
      marker, rest := "flip", FlipModes[i - nr - 1];
      FlippedShape(name, rest, "");
      assert rest + "" == rest;
    } else if i == nr + 3 {
      marker, rest := "flip", "hor_rot_90";
      FlippedShape(name, "hor", "_rot_90");
    } else {
      marker, rest := "flip", "hor_rot_270";
      FlippedShape(name, "hor", "_rot_270");
    }
  }

  /** A rotation stem: the name, '_', 'rot', '_' and the angle's digits. */
  lemma RotatedShape(name: string, angle: int)
    requires angle >= 0
    ensures RotatedName(name, angle) == name + ['_'] + ("rot" + ['_'] + Str(angle))
    ensures '/' !in Str(angle)
  {
    var d := Str(angle);
    assert d == Digits(angle);
    assert forall k :: 0 <= k < |d| ==> IsDigit(d[k]);
    assert "_rot_" == ['_'] + "rot" + ['_'];
  }

  /** A flip stem with anything after it: the name, '_', 'flip', '_' and the mode with that tail. */
  lemma FlippedShape(name: string, mode: string, tail: string)
    ensures FlippedName(name, mode) + tail == name + ['_'] + ("flip" + ['_'] + (mode + tail))
  {
    assert "_flip_" == ['_'] + "flip" + ['_'];
  }

  /** The stem at each position of a tile's stems: the rotations first, then
      the flips, then the two rotations of the horizontal flip. */
  lemma TileStemsAt(name: string, rotate: bool, flip: bool, i: int)
    requires 1 <= i < |TileStems(name, rotate, flip)|
    ensures var stems := TileStems(name, rotate, flip);
      var nr := if rotate then 3 else 0;
      && (i <= nr ==> stems[i] == RotatedName(name, RotationAngles[i - 1]))
      && (nr < i <= nr + 2 ==> stems[i] == FlippedName(name, FlipModes[i - nr - 1]))
      && (i == nr + 3 ==> stems[i] == FlippedName(name, "hor") + "_rot_90")
      && (i == nr + 4 ==> stems[i] == FlippedName(name, "hor") + "_rot_270")
  {
    var stems := TileStems(name, rotate, flip);
    var lastFlip := FlippedName(name, FlipModes[|FlipModes| - 1]);
    var rotations := seq(|RotationAngles|, k requires 0 <= k < |RotationAngles| => RotatedName(name, RotationAngles[k]));
    var flips := seq(|FlipModes|, k requires 0 <= k < |FlipModes| => FlippedName(name, FlipModes[k]));
    var front := [name] + (if rotate then rotations else []);
    var back := if flip then flips + (if rotate then [lastFlip + "_rot_90", lastFlip + "_rot_270"] else []) else [];
    assert stems == front + back;
    if i < |front| {
      assert stems[i] == front[i] == rotations[i - 1];
    } else {
      var j := i - |front|;
      assert stems[i] == back[j];
      assert lastFlip == FlippedName(name, "hor");
      assert flip;
      if j < 2 {
        assert back[j] == flips[j];
      }
    }
  }
}
