/** Conversion of whole images between colour modes of up to 8 bits a channel. */
module ColorConvert {
  import opened Bits
  import opened ColorTree
  import opened ColorModes
  import opened PackedPixels

  const RGB8 := Mode(Rgb, 8, false, 0, 0, 0, [])

  /** The first n pixels of one image, as another mode without a palette stores them. */
  ghost predicate Shown(out: seq<Byte>, mo: Mode, input: seq<Byte>, mi: Mode, n: nat)
    requires ValidMode(mo) && ValidMode(mi) && mo.colortype != Palette
    requires Holds(|out|, n, mo) && Holds(|input|, n, mi)
  {
    forall i: nat :: i < n ==> Samples(out, i, mo) == Coded(mo, PixelAt(input, i, mi))
  }

  // ---- the loops for 8-bit output ----

  /** Four bytes of 8-bit RGBA; no other pixel changes. */
  method PutRgba(out: array<Byte>, i: nat, r: Byte, g: Byte, b: Byte, a: Byte)
    requires 4 * i + 3 < out.Length
    modifies out
    ensures Samples(out[..], i, RGBA8) == [r, g, b, a]
    ensures forall j: nat :: j != i && HasPixel(out.Length, j, RGBA8) ==> Samples(out[..], j, RGBA8) == old(Samples(out[..], j, RGBA8))
  {
    out[4 * i], out[4 * i + 1], out[4 * i + 2], out[4 * i + 3] := r, g, b, a;
  }

  method PutRgb(out: array<Byte>, i: nat, r: Byte, g: Byte, b: Byte)
    requires 3 * i + 2 < out.Length
    modifies out
    ensures Samples(out[..], i, RGB8) == [r, g, b]
    ensures forall j: nat :: j != i && HasPixel(out.Length, j, RGB8) ==> Samples(out[..], j, RGB8) == old(Samples(out[..], j, RGB8))
  {
    out[3 * i], out[3 * i + 1], out[3 * i + 2] := r, g, b;
  }

  method GreyToRgba(out: array<Byte>, n: nat, input: array<Byte>, m: Mode)
    requires ValidMode(m) && m.colortype == Grey && m.bitdepth == 8 && out != input
    requires 4 * n <= out.Length && n <= input.Length
    modifies out
    ensures Shown(out[..], RGBA8, input[..], m, n)
  {
    for i := 0 to n
      invariant forall k: nat :: k < i ==> Samples(out[..], k, RGBA8) == [input[k], input[k], input[k], 255]
    {
      PutRgba(out, i, input[i], input[i], input[i], 255);
    }
    if m.keyDefined {
      for i := 0 to n
        invariant forall k: nat :: k < n ==> Samples(out[..], k, RGBA8) ==
                                             [input[k], input[k], input[k], if k < i && input[k] == m.keyR then 0 else 255]
      {
        assert Samples(out[..], i, RGBA8)[0] == out[4 * i];
        if out[4 * i] == m.keyR { out[4 * i + 3] := 0; }
      }
    }
  }

  method PackedGreyToRgba(out: array<Byte>, n: nat, input: array<Byte>, m: Mode)
    requires ValidMode(m) && m.colortype == Grey && Packs(m.bitdepth) && out != input
    requires 4 * n <= out.Length && Holds(input.Length, n, m)
    modifies out
    ensures Shown(out[..], RGBA8, input[..], m, n)
  {
    hide Packed;
    Pow2Small();
    var highest := Highest(m.bitdepth);
    for i := 0 to n
      invariant Shown(out[..], RGBA8, input[..], m, i)
    {
      assert HasPixel(input.Length, i, m);
      var value := ReadPacked(input, m.bitdepth, i);
      var v: Byte := value * 255 / highest;
      PutRgba(out, i, v, v, v, if m.keyDefined && value == m.keyR then 0 else 255);
    }
  }

  method RgbToRgba(out: array<Byte>, n: nat, input: array<Byte>, m: Mode)
    requires ValidMode(m) && m.colortype == Rgb && out != input
    requires 4 * n <= out.Length && 3 * n <= input.Length
    modifies out
    ensures Shown(out[..], RGBA8, input[..], m, n)
  {
    for i := 0 to n
      invariant forall k: nat :: k < i ==> Samples(out[..], k, RGBA8) == [input[3 * k], input[3 * k + 1], input[3 * k + 2], 255]
    {
      PutRgba(out, i, input[3 * i], input[3 * i + 1], input[3 * i + 2], 255);
    }
    if m.keyDefined { RgbKey(out, n, input, m); }
  }

  /** The pixels of the key colour are made transparent afterwards. */
  method RgbKey(out: array<Byte>, n: nat, input: array<Byte>, m: Mode)
    requires ValidMode(m) && m.colortype == Rgb && out != input && m.keyDefined
    requires 4 * n <= out.Length && 3 * n <= input.Length
    requires forall k: nat :: k < n ==> Samples(out[..], k, RGBA8) == [input[3 * k], input[3 * k + 1], input[3 * k + 2], 255]
    modifies out
    ensures Shown(out[..], RGBA8, input[..], m, n)
  {
    for i := 0 to n
      invariant Shown(out[..], RGBA8, input[..], m, i)
      invariant forall k: nat :: i <= k < n ==> Samples(out[..], k, RGBA8) == [input[3 * k], input[3 * k + 1], input[3 * k + 2], 255]
    {
      ghost var s := Samples(out[..], i, RGBA8);
      assert out[4 * i] == s[0] && out[4 * i + 1] == s[1] && out[4 * i + 2] == s[2];
      if out[4 * i] == m.keyR && out[4 * i + 1] == m.keyG && out[4 * i + 2] == m.keyB {
        PutRgba(out, i, out[4 * i], out[4 * i + 1], out[4 * i + 2], 0);
      }
    }
  }

  method PaletteToRgba(out: array<Byte>, n: nat, input: array<Byte>, m: Mode)
    requires ValidMode(m) && m.colortype == Palette && out != input
    requires 4 * n <= out.Length && Holds(input.Length, n, m)
    modifies out
    ensures Shown(out[..], RGBA8, input[..], m, n)
  {
    hide Packed;
    for i := 0 to n
      invariant Shown(out[..], RGBA8, input[..], m, i)
    {
      assert HasPixel(input.Length, i, m);
      var index;
      if m.bitdepth == 8 {
        index := input[i];
      } else {
        index := ReadPacked(input, m.bitdepth, i);
      }
      var c := Entry(m.palette, index);
      PutRgba(out, i, c.r, c.g, c.b, c.a);
    }
  }

  method GreyAlphaToRgba(out: array<Byte>, n: nat, input: array<Byte>, m: Mode)
    requires ValidMode(m) && m.colortype == GreyAlpha && out != input
    requires 4 * n <= out.Length && 2 * n <= input.Length
    modifies out
    ensures Shown(out[..], RGBA8, input[..], m, n)
  {
    for i := 0 to n
      invariant Shown(out[..], RGBA8, input[..], m, i)
    {
      PutRgba(out, i, input[2 * i], input[2 * i], input[2 * i], input[2 * i + 1]);
    }
  }

  method CopyBytes(out: array<Byte>, input: array<Byte>, size: nat)
    requires size <= out.Length && size <= input.Length && out != input
    modifies out
    ensures out[..size] == input[..size]
  {
    for k := 0 to size
      invariant out[..k] == input[..k]
    {
      out[k] := input[k];
    }
  }

  method RgbaToRgba(out: array<Byte>, n: nat, input: array<Byte>, m: Mode)
    requires ValidMode(m) && m.colortype == Rgba && out != input
    requires 4 * n <= out.Length && 4 * n <= input.Length
    modifies out
    ensures Shown(out[..], RGBA8, input[..], m, n)
  {
    CopyBytes(out, input, 4 * n);
    forall k | 0 <= k < 4 * n ensures out[k] == input[k] {
      assert out[..4 * n][k] == input[..4 * n][k];
    }
  }

  /** All pixels as 8-bit RGBA, one loop for each mode. */
  method GetPixelColorsRgba8(out: array<Byte>, n: nat, input: array<Byte>, m: Mode)
    requires ValidMode(m) && out != input && Holds(out.Length, n, RGBA8) && Holds(input.Length, n, m)
    modifies out
    ensures Shown(out[..], RGBA8, input[..], m, n)
  {
    hide PixelAt;
    if n == 0 { return; }
    assert HasPixel(out.Length, n - 1, RGBA8) && HasPixel(input.Length, n - 1, m);
    match m.colortype {
      case Grey =>
        if m.bitdepth == 8 {
          GreyToRgba(out, n, input, m);
        } else {
          PackedGreyToRgba(out, n, input, m);
        }
      case Rgb => RgbToRgba(out, n, input, m);
      case Palette => PaletteToRgba(out, n, input, m);
      case GreyAlpha => GreyAlphaToRgba(out, n, input, m);
      case Rgba => RgbaToRgba(out, n, input, m);
    }
  }

  /** One pixel's red, green and blue. */
  method GetRgb(input: array<Byte>, i: nat, m: Mode) returns (r: Byte, g: Byte, b: Byte)
    requires ValidMode(m) && HasPixel(input.Length, i, m)
    ensures var c := PixelAt(input[..], i, m); r == c.r && g == c.g && b == c.b
  {
    hide Packed;
    Pow2Small();
    match m.colortype {
      case Grey =>
        if m.bitdepth == 8 {
          r, g, b := input[i], input[i], input[i];
        } else {
          var value := ReadPacked(input, m.bitdepth, i);
          var v := value * 255 / Highest(m.bitdepth);
          r, g, b := v, v, v;
        }
      case Rgb => r, g, b := input[3 * i], input[3 * i + 1], input[3 * i + 2];
      case Palette =>
        var index;
        if m.bitdepth == 8 {
          index := input[i];
        } else {
          index := ReadPacked(input, m.bitdepth, i);
        }
        var c := Entry(m.palette, index);
        r, g, b := c.r, c.g, c.b;
      case GreyAlpha => r, g, b := input[2 * i], input[2 * i], input[2 * i];
      case Rgba => r, g, b := input[4 * i], input[4 * i + 1], input[4 * i + 2];
    }
  }

  /** All pixels as 8-bit RGB, their alpha dropped. */
  method GetPixelColorsRgb8(out: array<Byte>, n: nat, input: array<Byte>, m: Mode)
    requires ValidMode(m) && out != input && Holds(out.Length, n, RGB8) && Holds(input.Length, n, m)
    modifies out
    ensures Shown(out[..], RGB8, input[..], m, n)
  {
    hide Meaning;
    for i := 0 to n
      invariant Shown(out[..], RGB8, input[..], m, i)
    {
      assert HasPixel(out.Length, i, RGB8) && HasPixel(input.Length, i, m);
      var r, g, b := GetRgb(input, i, m);
      PutRgb(out, i, r, g, b);
    }
  }

  // ---- any mode to any mode ----

  predicate SameMode(a: Mode, b: Mode)
  {
    && a.colortype == b.colortype && a.bitdepth == b.bitdepth
    && a.keyDefined == b.keyDefined
    && (a.keyDefined ==> a.keyR == b.keyR && a.keyG == b.keyG && a.keyB == b.keyB)
    && a.palette == b.palette
  }

  /** An output palette without entries is taken from the input. */
  function OutPalette(mo: Mode, mi: Mode): seq<Color>
  {
    if mo.palette == [] then mi.palette else mo.palette
  }

  /** How many entries an index of this depth can name. */
  function Usable(mo: Mode, palette: seq<Color>): (r: nat)
    requires ValidMode(mo)
    ensures r <= |palette| && r <= Highest(mo.bitdepth) + 1
  {
    Min(Highest(mo.bitdepth) + 1, |palette|)
  }

  /** The bytes are taken over as they are. */
  predicate Verbatim(mo: Mode, mi: Mode)
  {
    SameMode(mo, mi)
    || (mo.colortype == Palette && mo.palette == [] && mi.colortype == Palette && mi.bitdepth == mo.bitdepth)
  }

  /** Every pixel's colour can be named by an output index. */
  ghost predicate AllFound(input: seq<Byte>, mi: Mode, mo: Mode, n: nat)
    requires ValidMode(mi) && ValidMode(mo) && Holds(|input|, n, mi)
  {
    forall i: nat :: i < n ==> PixelAt(input, i, mi) in OutPalette(mo, mi)[..Usable(mo, OutPalette(mo, mi))]
  }

  /** Pixels in the output show the input's colours: exactly, if by a palette, otherwise as the mode stores them. */
  ghost predicate Converted(out: seq<Byte>, mo: Mode, input: seq<Byte>, mi: Mode, n: nat)
    requires ValidMode(mo) && ValidMode(mi) && Holds(|out|, n, mo) && Holds(|input|, n, mi)
  {
    if mo.colortype == Palette then
      forall i: nat :: i < n ==> Entry(OutPalette(mo, mi), Samples(out, i, mo)[0]) == PixelAt(input, i, mi)
    else Shown(out, mo, input, mi, n)
  }

  /** Storing what samples stand for gives the samples back. */
  lemma CodedMeaning(m: Mode, s: seq<Byte>)
    requires ValidMode(m) && |s| == Channels(m) && (Channels(m) == 1 ==> s[0] <= Highest(m.bitdepth))
    requires m.colortype != Palette
    ensures Coded(m, Meaning(m, s)) == s
  {
    if m.bitdepth != 8 { GreyBack(s[0], m.bitdepth); }
  }

  /** A grey scaled to 8 bits has its own bits on top. */
  lemma GreyBack(v: nat, bits: nat)
    requires Packs(bits) && v <= Highest(bits)
    ensures Scaled(v, bits) < 256 && GreyBits(Scaled(v, bits), bits) == v
  {
    Pow2Small();
    ShrInterval(Scaled(v, bits), 8 - bits, v);
  }

  lemma SamplesPrefix(a: seq<Byte>, b: seq<Byte>, size: nat, i: nat, m: Mode)
    requires ValidMode(m) && size <= |a| && size <= |b| && a[..size] == b[..size] && HasPixel(size, i, m)
    ensures Samples(a, i, m) == Samples(b, i, m)
  {
    hide Packed;
    assert forall k :: 0 <= k < size ==> a[..size][k] == a[k] && b[..size][k] == b[k];
    if m.bitdepth != 8 { assert Packed(a, m.bitdepth, i) == Packed(b, m.bitdepth, i) by { CellSame(a, b, m.bitdepth, i); } }
  }

  lemma CellSame(a: seq<Byte>, b: seq<Byte>, bits: nat, i: nat)
    requires Packs(bits) && Cell(bits, i) < |a| && Cell(bits, i) < |b| && a[Cell(bits, i)] == b[Cell(bits, i)]
    ensures Packed(a, bits, i) == Packed(b, bits, i)
  {
  }

  lemma CopyConverts(out: seq<Byte>, mo: Mode, input: seq<Byte>, mi: Mode, n: nat, size: nat)
    requires ValidMode(mo) && ValidMode(mi) && Verbatim(mo, mi)
    requires size <= |out| && size <= |input| && out[..size] == input[..size]
    requires Holds(size, n, mi) && Holds(|out|, n, mo) && Holds(|input|, n, mi)
    ensures Converted(out, mo, input, mi, n)
  {
    hide Samples;
    hide Meaning;
    hide Coded;
    forall i: nat | i < n
      ensures Samples(out, i, mo) == Samples(input, i, mi)
      ensures mo.colortype == Palette ==> Entry(OutPalette(mo, mi), Samples(out, i, mo)[0]) == PixelAt(input, i, mi)
      ensures mo.colortype != Palette ==> Samples(out, i, mo) == Coded(mo, PixelAt(input, i, mi))
    {
      SamplesPrefix(out, input, size, i, mi);
      OneCopied(out, mo, input, mi, i);
    }
  }

  lemma OneCopied(out: seq<Byte>, mo: Mode, input: seq<Byte>, mi: Mode, i: nat)
    requires ValidMode(mo) && ValidMode(mi) && Verbatim(mo, mi) && HasPixel(|out|, i, mo) && HasPixel(|input|, i, mi)
    requires Samples(out, i, mi) == Samples(input, i, mi)
    ensures Samples(out, i, mo) == Samples(input, i, mi)
    ensures mo.colortype == Palette ==> Entry(OutPalette(mo, mi), Samples(out, i, mo)[0]) == PixelAt(input, i, mi)
    ensures mo.colortype != Palette ==> Samples(out, i, mo) == Coded(mo, PixelAt(input, i, mi))
  {
    hide Packed;
    Pow2Small();
    if mo.colortype != Palette { CodedMeaning(mi, Samples(input, i, mi)); }
  }

  /** A tree that holds the first n entries of a palette. */
  method PaletteTree(palette: seq<Color>, n: nat) returns (tree: Tree)
    requires n <= |palette|
    ensures fresh(tree) && tree.Valid() && Indexes(tree, palette, n)
  {
    hide Tree.Valid;
    hide Tree.IndexOf;
    tree := new Tree();
    for i := 0 to n
      invariant fresh(tree) && tree.Valid() && Indexes(tree, palette, i)
    {
      tree.Add(palette[i], i);
    }
  }

  /** What a colour is stored as. */
  ghost function Stored(mo: Mode, tree: Tree, c: Color): (r: seq<int>)
    requires ValidMode(mo) && tree.Valid()
    reads tree
  {
    if mo.colortype == Palette then [tree.IndexOf(c)] else Coded(mo, c)
  }

  /** Some colour has no index. */
  ghost predicate Missing(input: seq<Byte>, mi: Mode, tree: Tree, n: nat)
    requires ValidMode(mi) && Holds(|input|, n, mi) && tree.Valid()
    reads tree
  {
    exists i: nat :: i < n && tree.IndexOf(PixelAt(input, i, mi)) < 0
  }

  /** The first n pixels are stored. */
  ghost predicate AllStored(out: seq<Byte>, input: seq<Byte>, mo: Mode, mi: Mode, tree: Tree, n: nat)
    requires ValidMode(mo) && ValidMode(mi) && Holds(|out|, n, mo) && Holds(|input|, n, mi) && tree.Valid()
    reads tree
  {
    && (forall i: nat :: i < n ==> Samples(out, i, mo) == Stored(mo, tree, PixelAt(input, i, mi)))
    && (mo.colortype == Palette ==> !Missing(input, mi, tree, n))
  }

  method ConvertPixels(out: array<Byte>, input: array<Byte>, mo: Mode, mi: Mode, tree: Tree, n: nat) returns (error: int)
    requires ValidMode(mo) && ValidMode(mi) && out != input && Holds(out.Length, n, mo) && Holds(input.Length, n, mi)
    requires tree.Valid() && (mo.colortype == Palette ==> forall d :: tree.IndexOf(d) <= Highest(mo.bitdepth))
    modifies out
    ensures error == if mo.colortype == Palette && Missing(input[..], mi, tree, n) then 82 else 0
    ensures error == 0 ==> AllStored(out[..], input[..], mo, mi, tree, n)
  {
    hide Samples;
    hide PixelAt;
    hide Coded;
    hide ReadyFor;
    hide HasPixel;
    hide Tree.Valid;
    hide Tree.IndexOf;
    StartReady(out[..], mo);
    for i := 0 to n
      invariant ReadyFor(out[..], i, mo) && AllStored(out[..], input[..], mo, mi, tree, i)
    {
      assert HasPixel(out.Length, i, mo) && HasPixel(input.Length, i, mi);
      var c := GetPixel(input, i, mi);
      error := PutPixel(out, i, mo, tree, c);
      if error != 0 {
        assert tree.IndexOf(PixelAt(input[..], i, mi)) < 0;
        return;
      }
    }
    error := 0;
  }

  lemma StartReady(data: seq<Byte>, m: Mode)
    requires ValidMode(m)
    ensures ReadyFor(data, 0, m)
  {
  }

  /** Converts w times h pixels from one mode to another. */
  method Convert(out: array<Byte>, input: array<Byte>, mo: Mode, mi: Mode, w: nat, h: nat) returns (error: int)
    requires ValidMode(mo) && ValidMode(mi) && out != input
    requires PassLayout.RawSize(w, h, Bpp(mo)) <= out.Length && PassLayout.RawSize(w, h, Bpp(mi)) <= input.Length
    modifies out
    ensures Holds(out.Length, w * h, mo) && Holds(input.Length, w * h, mi)
    ensures error == if mi.colortype == Palette && mi.palette == [] then 107
                     else if mo.colortype == Palette && !Verbatim(mo, mi) && !AllFound(input[..], mi, mo, w * h) then 82
                     else 0
    ensures error == 0 ==> Converted(out[..], mo, input[..], mi, w * h)
  {
    AllFit(w, h, mo, out.Length);
    AllFit(w, h, mi, input.Length);
    var numpixels := w * h;
    if mi.colortype == Palette && mi.palette == [] { return 107; }
    if SameMode(mo, mi) {
      error := CopyRaw(out, input, mo, mi, w, h);
      return;
    }
    if mo.colortype == Palette {
      var palette := mo.palette;
      if |palette| == 0 {
        palette := mi.palette;
        if mi.colortype == Palette && mi.bitdepth == mo.bitdepth {
          error := CopyRaw(out, input, mo, mi, w, h);
          return;
        }
      }
      error := ConvertByPalette(out, input, mo, mi, palette, numpixels);
    } else if mo.bitdepth == 8 && mo.colortype == Rgba {
      GetPixelColorsRgba8(out, numpixels, input, mi);
      ShownSame(out[..], RGBA8, mo, input[..], mi, numpixels);
      error := 0;
    } else if mo.bitdepth == 8 && mo.colortype == Rgb {
      GetPixelColorsRgb8(out, numpixels, input, mi);
      ShownSame(out[..], RGB8, mo, input[..], mi, numpixels);
      error := 0;
    } else {
      var tree := PaletteTree([], 0);
      error := ConvertPixels(out, input, mo, mi, tree, numpixels);
    }
  }

  lemma ShownSame(out: seq<Byte>, a: Mode, b: Mode, input: seq<Byte>, mi: Mode, n: nat)
    requires ValidMode(a) && ValidMode(b) && ValidMode(mi) && a.colortype == b.colortype && a.bitdepth == b.bitdepth == 8
    requires a.colortype == Rgb || a.colortype == Rgba
    requires Holds(|out|, n, a) && Holds(|out|, n, b) && Holds(|input|, n, mi) && Shown(out, a, input, mi, n)
    ensures Shown(out, b, input, mi, n)
  {
    forall i: nat | i < n ensures Samples(out, i, b) == Coded(b, PixelAt(input, i, mi)) {
      assert Samples(out, i, a) == Coded(a, PixelAt(input, i, mi));
    }
  }

  method CopyRaw(out: array<Byte>, input: array<Byte>, mo: Mode, mi: Mode, w: nat, h: nat) returns (error: int)
    requires ValidMode(mo) && ValidMode(mi) && out != input && Verbatim(mo, mi)
    requires PassLayout.RawSize(w, h, Bpp(mi)) <= out.Length && PassLayout.RawSize(w, h, Bpp(mi)) <= input.Length
    requires Holds(out.Length, w * h, mo) && Holds(input.Length, w * h, mi)
    modifies out
    ensures error == 0 && Converted(out[..], mo, input[..], mi, w * h)
  {
    hide Converted;
    var size := PassLayout.RawSize(w, h, Bpp(mi));
    AllFit(w, h, mi, size);
    CopyBytes(out, input, size);
    CopyConverts(out[..], mo, input[..], mi, w * h, size);
    error := 0;
  }

  method ConvertByPalette(out: array<Byte>, input: array<Byte>, mo: Mode, mi: Mode, palette: seq<Color>, n: nat)
    returns (error: int)
    requires ValidMode(mo) && ValidMode(mi) && mo.colortype == Palette && palette == OutPalette(mo, mi)
    requires out != input && Holds(out.Length, n, mo) && Holds(input.Length, n, mi)
    modifies out
    ensures error == if AllFound(input[..], mi, mo, n) then 0 else 82
    ensures error == 0 ==> Converted(out[..], mo, input[..], mi, n)
  {
    hide PixelAt;
    hide Samples;
    hide Tree.Valid;
    hide Tree.IndexOf;
    var palsize := Highest(mo.bitdepth) + 1;
    if |palette| < palsize { palsize := |palette|; }
    var tree := PaletteTree(palette, palsize);
    error := ConvertPixels(out, input, mo, mi, tree, n);
    FoundByTree(tree, palette, palsize);
    if error == 0 {
      forall i: nat | i < n ensures Entry(palette, Samples(out[..], i, mo)[0]) == PixelAt(input[..], i, mi) {
        assert Samples(out[..], i, mo) == Stored(mo, tree, PixelAt(input[..], i, mi));
        EntryShown(out[..], i, mo, tree, palette, palsize, PixelAt(input[..], i, mi));
      }
    }
  }

  lemma FoundByTree(tree: Tree, palette: seq<Color>, n: nat)
    requires tree.Valid() && n <= |palette| && Indexes(tree, palette, n)
    ensures forall c :: tree.IndexOf(c) >= 0 <==> c in palette[..n]
  {
    forall c ensures tree.IndexOf(c) >= 0 <==> c in palette[..n] {
      if tree.IndexOf(c) >= 0 { assert palette[..n][tree.IndexOf(c)] == c; }
    }
  }

  lemma EntryShown(out: seq<Byte>, i: nat, mo: Mode, tree: Tree, palette: seq<Color>, n: nat, c: Color)
    requires ValidMode(mo) && mo.colortype == Palette && HasPixel(|out|, i, mo) && |palette| <= 256
    requires tree.Valid() && n <= |palette| && Indexes(tree, palette, n) && tree.IndexOf(c) >= 0
    requires Samples(out, i, mo) == [tree.IndexOf(c)]
    ensures Entry(palette, Samples(out, i, mo)[0]) == c
  {
    hide Samples;
  }
}
