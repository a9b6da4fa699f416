/** Colour modes of up to 8 bits a channel: what a pixel stores, and what that means. */
module ColorModes {
  import opened Bits
  import opened ColorTree
  import opened PackedPixels
  import ImageFilter
  import PassLayout

  datatype ColorType = Grey | Rgb | Palette | GreyAlpha | Rgba

  /** A colour mode; the key, if defined, is the colour that is transparent. */
  datatype Mode =
    Mode(colortype: ColorType, bitdepth: nat, keyDefined: bool, keyR: nat, keyG: nat, keyB: nat, palette: seq<Color>)

  /** The types and depths that go together, 16 bits left aside. */
  predicate ValidMode(m: Mode)
  {
    && (m.bitdepth == 8 || (Packs(m.bitdepth) && (m.colortype == Grey || m.colortype == Palette)))
    && |m.palette| <= 256
  }

  const RGBA8 := Mode(Rgba, 8, false, 0, 0, 0, [])

  function Channels(m: Mode): (r: nat)
    ensures r > 0
  {
    match m.colortype
    case Grey => 1
    case Rgb => 3
    case Palette => 1
    case GreyAlpha => 2
    case Rgba => 4
  }

  function Bpp(m: Mode): (r: nat)
    requires m.bitdepth > 0
    ensures r > 0
  {
    if m.bitdepth == 8 then 8 * Channels(m) else m.bitdepth * Channels(m)
  }

  /** Among so many bytes there is a pixel i. */
  predicate HasPixel(size: nat, i: nat, m: Mode)
    requires ValidMode(m)
  {
    match m.colortype
    case Grey => if m.bitdepth == 8 then i < size else Cell(m.bitdepth, i) < size
    case Rgb => 3 * i + 2 < size
    case Palette => if m.bitdepth == 8 then i < size else Cell(m.bitdepth, i) < size
    case GreyAlpha => 2 * i + 1 < size
    case Rgba => 4 * i + 3 < size
  }

  /** There is room for n pixels. */
  ghost predicate Holds(size: nat, n: nat, m: Mode)
    requires ValidMode(m)
  {
    forall i: nat :: i < n ==> HasPixel(size, i, m)
  }

  lemma PixelsFit(w: nat, h: nat, m: Mode, size: nat, i: nat)
    requires ValidMode(m) && PassLayout.RawSize(w, h, Bpp(m)) <= size && i < w * h
    ensures HasPixel(size, i, m)
  {
    hide PassLayout.RawSize;
    hide PassLayout.Bytes;
    PassLayout.RawSizeIs(w, h, Bpp(m));
    PixelsWithin(w * h, m, size, i);
  }

  lemma PixelsWithin(n: nat, m: Mode, size: nat, i: nat)
    requires ValidMode(m) && PassLayout.Bytes(ImageFilter.Times(Bpp(m), n)) <= size && i < n
    ensures HasPixel(size, i, m)
  {
    if m.bitdepth != 8 { CellWithin(m.bitdepth, i, n); }
  }

  lemma AllFit(w: nat, h: nat, m: Mode, size: nat)
    requires ValidMode(m) && PassLayout.RawSize(w, h, Bpp(m)) <= size
    ensures Holds(size, w * h, m)
  {
    forall i: nat | i < w * h ensures HasPixel(size, i, m) { PixelsFit(w, h, m, size, i); }
  }

  /** The samples of pixel i, one for each channel. */
  function Samples(data: seq<Byte>, i: nat, m: Mode): (r: seq<Byte>)
    requires ValidMode(m) && HasPixel(|data|, i, m)
    ensures |r| == Channels(m)
  {
    match m.colortype
    case Grey => [SingleSample(data, i, m)]
    case Rgb => [data[3 * i], data[3 * i + 1], data[3 * i + 2]]
    case Palette => [SingleSample(data, i, m)]
    case GreyAlpha => [data[2 * i], data[2 * i + 1]]
    case Rgba => [data[4 * i], data[4 * i + 1], data[4 * i + 2], data[4 * i + 3]]
  }

  function SingleSample(data: seq<Byte>, i: nat, m: Mode): (r: Byte)
    requires ValidMode(m) && Channels(m) == 1 && HasPixel(|data|, i, m)
    ensures r < Pow2(m.bitdepth)
  {
    Pow2Small();
    if m.bitdepth == 8 then data[i] else Packed(data, m.bitdepth, i)
  }

  /** The highest grey of a depth, and a sample scaled to 8 bits. */
  function Highest(bits: nat): (r: nat)
    ensures r > 0
  {
    if bits == 1 then 1 else if bits == 2 then 3 else if bits == 4 then 15 else 255
  }

  function Scaled(v: nat, bits: nat): nat
  {
    if bits == 8 then v else v * 255 / Highest(bits)
  }

  /** The colour that samples stand for. */
  function Meaning(m: Mode, s: seq<Byte>): Color
    requires ValidMode(m) && |s| == Channels(m) && (Channels(m) == 1 ==> s[0] <= Highest(m.bitdepth))
  {
    match m.colortype
    case Grey =>
      var v := Scaled(s[0], m.bitdepth);
      Color(v, v, v, if m.keyDefined && s[0] == m.keyR then 0 else 255)
    case Rgb =>
      Color(s[0], s[1], s[2], if m.keyDefined && s[0] == m.keyR && s[1] == m.keyG && s[2] == m.keyB then 0 else 255)
    case Palette => Entry(m.palette, s[0])
    case GreyAlpha => Color(s[0], s[0], s[0], s[1])
    case Rgba => Color(s[0], s[1], s[2], s[3])
  }

  /** The entries past the end of a palette are opaque black. */
  function Entry(palette: seq<Color>, index: nat): Color
  {
    if index < |palette| then palette[index] else Color(0, 0, 0, 255)
  }

  /** The colour of pixel i. */
  function PixelAt(data: seq<Byte>, i: nat, m: Mode): Color
    requires ValidMode(m) && HasPixel(|data|, i, m)
  {
    Pow2Small();
    Meaning(m, Samples(data, i, m))
  }

  /** The samples a colour is stored as, where no palette is involved. */
  function Coded(m: Mode, c: Color): (r: seq<Byte>)
    requires ValidMode(m) && m.colortype != Palette
    ensures |r| == Channels(m)
  {
    match m.colortype
    case Grey => [if m.bitdepth == 8 then c.r else GreyBits(c.r, m.bitdepth)]
    case Rgb => [c.r, c.g, c.b]
    case GreyAlpha => [c.r, c.a]
    case Rgba => [c.r, c.g, c.b, c.a]
  }

  /** The top bits of a grey. */
  function GreyBits(v: Byte, bits: nat): (r: Byte)
    requires Packs(bits)
    ensures r <= Highest(bits)
  {
    Pow2Small();
    ShrBound(v, 8 - bits, 8);
    Shr(v, 8 - bits)
  }

  /** A grey of d bits stands for the same fraction of white; a palette index for its entry, or for opaque black
    beyond the last; the other samples for themselves. */
  lemma SamplesMean(m: Mode, s: seq<Byte>)
    requires ValidMode(m) && |s| == Channels(m) && (Channels(m) == 1 ==> s[0] < Pow2(m.bitdepth))
    ensures Channels(m) == 1 ==> s[0] <= Highest(m.bitdepth)
    ensures m.colortype == Grey ==>
              var c := Meaning(m, s);
              && c.r == c.g == c.b && (c.r as int) * (Pow2(m.bitdepth) - 1) == 255 * (s[0] as int)
              && c.a == if m.keyDefined && s[0] == m.keyR then 0 else 255
    ensures m.colortype == Palette ==> Meaning(m, s) == if s[0] < |m.palette| then m.palette[s[0]] else Color(0, 0, 0, 255)
    ensures m.colortype == GreyAlpha ==> Meaning(m, s) == Color(s[0], s[0], s[0], s[1])
    ensures m.colortype == Rgba ==> Meaning(m, s) == Color(s[0], s[1], s[2], s[3])
    ensures m.colortype == Rgb ==>
              Meaning(m, s) == Color(s[0], s[1], s[2], if m.keyDefined && (m.keyR, m.keyG, m.keyB) == (s[0], s[1], s[2]) then 0 else 255)
  {
    Pow2Small();
    hide Pow2;
    if m.colortype == Grey { GreyScaled(s[0], m.bitdepth); }
  }

  lemma GreyScaled(v: nat, bits: nat)
    requires (bits == 8 || Packs(bits)) && v < Pow2(bits)
    ensures v <= Highest(bits) == Pow2(bits) - 1 && Scaled(v, bits) * Highest(bits) == 255 * v
  {
    Pow2Small();
    hide Pow2;
    if bits == 2 { assert v * 255 == 3 * (85 * v); }
    if bits == 4 { assert v * 255 == 15 * (17 * v); }
  }

  /** Cut to d bits, a grey is one of the 2^d equal ranges. */
  lemma GreyRange(v: Byte, bits: nat)
    requires Packs(bits)
    ensures var g: int := GreyBits(v, bits); g * Pow2(8 - bits) <= v < g * Pow2(8 - bits) + Pow2(8 - bits)
  {
    ShrInterval(v, 8 - bits, GreyBits(v, bits));
  }

  /** A mode of one grey sample or an index takes at most 8 bits, and has a colour for each value at most. */
  predicate Narrow(m: Mode)
  {
    m.colortype == Grey || m.colortype == Palette
  }

  /** A key, an alpha channel, or a palette entry that is not opaque. */
  predicate CanHaveAlpha(m: Mode)
  {
    m.keyDefined || m.colortype == GreyAlpha || m.colortype == Rgba
    || exists i :: 0 <= i < |m.palette| && m.palette[i].a < 255
  }

  // ---- one pixel in memory ----

  method GetPixel(input: array<Byte>, i: nat, m: Mode) returns (c: Color)
    requires ValidMode(m) && HasPixel(input.Length, i, m)
    ensures c == PixelAt(input[..], i, m)
  {
    hide Packed;
    Pow2Small();
    match m.colortype {
      case Grey =>
        if m.bitdepth == 8 {
          var v := input[i];
          c := Color(v, v, v, if m.keyDefined && v == m.keyR then 0 else 255);
        } else {
          var highest := Highest(m.bitdepth);
          var value := ReadPacked(input, m.bitdepth, i);
          var v := value * 255 / highest;
          c := Color(v, v, v, if m.keyDefined && value == m.keyR then 0 else 255);
        }
      case Rgb =>
        var r, g, b := input[3 * i], input[3 * i + 1], input[3 * i + 2];
        c := Color(r, g, b, if m.keyDefined && r == m.keyR && g == m.keyG && b == m.keyB then 0 else 255);
      case Palette =>
        var index;
        if m.bitdepth == 8 {
          index := input[i];
        } else {
          index := ReadPacked(input, m.bitdepth, i);
        }
        c := Entry(m.palette, index);
      case GreyAlpha => c := Color(input[2 * i], input[2 * i], input[2 * i], input[2 * i + 1]);
      case Rgba => c := Color(input[4 * i], input[4 * i + 1], input[4 * i + 2], input[4 * i + 3]);
    }
  }

  /** What the next pixel will share a byte with is clear. */
  ghost predicate ReadyFor(data: seq<Byte>, i: nat, m: Mode)
    requires ValidMode(m)
  {
    m.bitdepth != 8 ==> ClearFrom(data, m.bitdepth, i)
  }

  /** The pixels before i have not changed. */
  ghost predicate EarlierKept(before: seq<Byte>, after: seq<Byte>, i: nat, m: Mode)
    requires ValidMode(m) && |before| == |after|
  {
    forall j: nat :: j < i && HasPixel(|before|, j, m) ==> Samples(after, j, m) == Samples(before, j, m)
  }

  /** Stores a single sample as pixel i. */
  method PutSample(out: array<Byte>, i: nat, m: Mode, value: Byte)
    requires ValidMode(m) && Channels(m) == 1 && HasPixel(out.Length, i, m) && ReadyFor(out[..], i, m)
    requires value <= Highest(m.bitdepth)
    modifies out
    ensures ReadyFor(out[..], i + 1, m) && EarlierKept(old(out[..]), out[..], i, m)
    ensures Samples(out[..], i, m) == [value]
  {
    hide Packed;
    hide ClearFrom;
    Pow2Small();
    if m.bitdepth == 8 {
      out[i] := value;
    } else {
      LowSmall(value, m.bitdepth);
      AddColorBits(out, i, m.bitdepth, value);
    }
  }

  /** The index a tree holds for every colour: that of a palette entry with this colour, if there is one among the first n. */
  ghost predicate Indexes(tree: Tree, palette: seq<Color>, n: nat)
    requires tree.Valid() && n <= |palette|
    reads tree
  {
    && (forall c :: tree.IndexOf(c) >= 0 ==> tree.IndexOf(c) < n && palette[tree.IndexOf(c)] == c)
    && (forall i :: 0 <= i < n ==> tree.IndexOf(palette[i]) >= 0)
  }

  /** Stores a colour as pixel i, the palette's colours by their index. */
  method PutPixel(out: array<Byte>, i: nat, m: Mode, tree: Tree, c: Color) returns (error: int)
    requires ValidMode(m) && HasPixel(out.Length, i, m) && ReadyFor(out[..], i, m)
    requires tree.Valid() && (m.colortype == Palette ==> forall d :: tree.IndexOf(d) <= Highest(m.bitdepth))
    modifies out
    ensures error == if m.colortype == Palette && tree.IndexOf(c) < 0 then 82 else 0
    ensures error == 0 ==> ReadyFor(out[..], i + 1, m) && EarlierKept(old(out[..]), out[..], i, m)
    ensures error == 0 ==> Samples(out[..], i, m) == if m.colortype == Palette then [tree.IndexOf(c)] else Coded(m, c)
  {
    hide Packed;
    hide ClearFrom;
    match m.colortype {
      case Grey => PutSample(out, i, m, if m.bitdepth == 8 then c.r else GreyBits(c.r, m.bitdepth));
      case Rgb => out[3 * i], out[3 * i + 1], out[3 * i + 2] := c.r, c.g, c.b;
      case Palette =>
        var index := tree.Get(c);
        if index < 0 { return 82; }
        PutSample(out, i, m, index);
      case GreyAlpha => out[2 * i], out[2 * i + 1] := c.r, c.a;
      case Rgba => out[4 * i], out[4 * i + 1], out[4 * i + 2], out[4 * i + 3] := c.r, c.g, c.b, c.a;
    }
    error := 0;
  }
}
