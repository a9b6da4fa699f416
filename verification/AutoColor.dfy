/** The automatic choice of a colour mode: it loses nothing, and nothing smaller would do. */
module AutoColor {
  import opened Bits
  import opened ColorTree
  import opened ColorModes
  import opened ColorStats
  import opened ColorConvert
  import opened PackedPixels

  /** Stored in this mode, a colour can be got back. */
  ghost predicate Keeps(m: Mode, c: Color)
    requires ValidMode(m)
  {
    if m.colortype == Palette then c in m.palette[..Usable(m, m.palette)] else Meaning(m, Coded(m, c)) == c
  }

  ghost predicate KeepsAll(m: Mode, colors: seq<Color>)
    requires ValidMode(m)
  {
    forall c :: c in colors ==> Keeps(m, c)
  }

  // ---- greys of few bits ----

  lemma OneBit(v: Byte, g: int)
    requires 128 * g <= v < 128 * g + 128
    ensures 255 * g == v <==> RequiredBits(v) <= 1
  {
    assert g == 0 || g == 1;
  }

  lemma TwoBits(v: Byte, g: int)
    requires 64 * g <= v < 64 * g + 64
    ensures 85 * g == v <==> RequiredBits(v) <= 2
  {
    if v % 85 == 0 {
      var k := v / 85;
      assert v == 85 * k && v == 17 * (5 * k);
    }
  }

  lemma FourBits(v: Byte, g: int)
    requires 16 * g <= v < 16 * g + 16
    ensures 17 * g == v <==> RequiredBits(v) <= 4
  {
    if v % 17 == 0 {
      var k := v / 17;
      assert v == 17 * k;
    }
  }

  /** A grey survives being cut to b bits exactly when it needs no more. */
  lemma GreyKept(v: Byte, bits: nat)
    requires Packs(bits)
    ensures Scaled(GreyBits(v, bits), bits) == v <==> RequiredBits(v) <= bits
  {
    hide RequiredBits;
    hide Shr;
    Pow2Small();
    var g := GreyBits(v, bits);
    ShrInterval(v, 8 - bits, g);
    if bits == 1 {
      OneBit(v, g);
    } else if bits == 2 {
      TwoBits(v, g);
    } else {
      FourBits(v, g);
    }
  }

  /** The doubled key, cut to the mode's depth, is what the grey is stored as. */
  lemma KeyBits(v: Byte, bits: nat)
    requires Packs(bits) && RequiredBits(v) <= bits
    ensures 257 * v % (Highest(bits) + 1) == GreyBits(v, bits)
  {
    hide RequiredBits;
    hide Shr;
    GreyKept(v, bits);
    var g: int := GreyBits(v, bits);
    if bits == 1 {
      assert v == 255 * g && 257 * v == 2 * (32767 * g) + g;
    } else if bits == 2 {
      assert v == 85 * g && 257 * v == 4 * (5461 * g) + g;
    } else {
      assert v == 17 * g && 257 * v == 16 * (273 * g) + g;
    }
  }

  // ---- the choice ----

  /** The depth of indices for n colours. */
  function PaletteBits(n: nat): (r: nat)
    ensures r == 8 || Packs(r)
    ensures n <= 256 ==> n <= Highest(r) + 1
  {
    if n <= 2 then 1 else if n <= 4 then 2 else if n <= 16 then 4 else 8
  }

  method PaletteAdd(m: Mode, c: Color) returns (error: int, after: Mode)
    ensures error == if |m.palette| >= 256 then 108 else 0
    ensures after == if error == 0 then m.(palette := m.palette + [c]) else m
  {
    if |m.palette| >= 256 { return 108, m; }
    error, after := 0, m.(palette := m.palette + [c]);
  }

  /** A mode with this palette. */
  method PaletteMode(before: Mode, palette: seq<Color>, n: nat) returns (error: int, m: Mode)
    requires n <= |palette| && n <= 256
    ensures error == 0 && m == before.(palette := palette[..n])
  {
    m, error := before.(palette := []), 0;
    for i := 0 to n
      invariant error == 0 && m == before.(palette := palette[..i])
    {
      error, m := PaletteAdd(m, palette[i]);
      assert palette[..i + 1] == palette[..i] + [palette[i]];
    }
  }

  /** A mode without palette, from what the statistics need. */
  function DirectMode(before: Mode, bits: nat, alpha: bool, grey: bool, key: bool, keyR: nat, keyG: nat, keyB: nat): Mode
    requires bits == 8 || Packs(bits)
  {
    var t := if alpha then if grey then GreyAlpha else Rgba else if grey then ColorType.Grey else Rgb;
    var mask := Highest(bits) + 1;
    if key then Mode(t, bits, true, keyR % mask, keyG % mask, keyB % mask, before.palette)
    else before.(colortype := t, bitdepth := bits, keyDefined := false)
  }

  /** No mode of up to 8 bits a channel that keeps all the colours takes fewer bits for a pixel. */
  ghost predicate NothingSmaller(m: Mode, colors: seq<Color>)
    requires ValidMode(m)
  {
    forall o: Mode :: ValidMode(o) && KeepsAll(o, colors) ==> Bpp(m) <= Bpp(o)
  }

  // ---- nothing is lost ----

  /** What a direct mode must be told of the colours. */
  ghost predicate Fits(colors: seq<Color>, bits: nat, alpha: bool, grey: bool, key: bool, keyR: nat, keyG: nat, keyB: nat)
  {
    && (grey ==> !Colorful(colors))
    && (!alpha ==> !NeedsAlpha(colors) && (key <==> Clear(colors)))
    && (alpha ==> !key)
    && (key ==> forall i :: 0 <= i < |colors| && colors[i].a == 0 ==>
                              keyR == 257 * colors[i].r && keyG == 257 * colors[i].g && keyB == 257 * colors[i].b)
    && (bits == 8 || (Packs(bits) && grey && !alpha && MaxBits(colors) <= bits))
  }

  /** Without alpha every pixel is opaque or of the key's colour. */
  lemma OpaqueOrKey(colors: seq<Color>, i: nat, key: bool) returns (t: nat)
    requires i < |colors| && !NeedsAlpha(colors) && (key <==> Clear(colors))
    ensures !key ==> colors[i].a == 255
    ensures key ==> t < |colors| && colors[t].a == 0 && colors[i].a == if SameRgb(colors[t], colors[i]) then 0 else 255
  {
    t := 0;
    if key { t :| 0 <= t < |colors| && colors[t].a == 0; }
  }

  /** A doubled 8-bit key is itself again when cut to 8 bits. */
  lemma KeyByte(v: Byte)
    ensures 257 * v % 256 == v
  {
  }

  lemma RgbKept(m: Mode, before: Mode, colors: seq<Color>, i: nat, key: bool, keyR: nat, keyG: nat, keyB: nat)
    requires i < |colors| && |before.palette| <= 256 && Fits(colors, 8, false, false, key, keyR, keyG, keyB)
    requires m == DirectMode(before, 8, false, false, key, keyR, keyG, keyB)
    ensures ValidMode(m) && Keeps(m, colors[i])
  {
    hide NeedsAlpha;
    hide Colorful;
    hide Clear;
    hide MaxBits;
    var t := OpaqueOrKey(colors, i, key);
    if key {
      KeyByte(colors[t].r);
      KeyByte(colors[t].g);
      KeyByte(colors[t].b);
    }
  }

  lemma GreyModeKept(m: Mode, before: Mode, colors: seq<Color>, i: nat, bits: nat, key: bool, keyR: nat, keyG: nat, keyB: nat)
    requires i < |colors| && |before.palette| <= 256 && Fits(colors, bits, false, true, key, keyR, keyG, keyB)
    requires m == DirectMode(before, bits, false, true, key, keyR, keyG, keyB)
    ensures ValidMode(m) && Keeps(m, colors[i])
  {
    hide NeedsAlpha;
    hide Clear;
    hide MaxBits;
    hide RequiredBits;
    hide GreyBits;
    assert IsGrey(colors[i]);
    var t := OpaqueOrKey(colors, i, key);
    if key {
      assert IsGrey(colors[t]);
      KeyByte(colors[t].r);
    }
    if bits != 8 {
      MaxBitsHas(colors, i);
      GreyKept(colors[i].r, bits);
      if key {
        MaxBitsHas(colors, t);
        GreyKept(colors[t].r, bits);
        KeyBits(colors[t].r, bits);
      }
    }
  }

  lemma AlphaModeKept(m: Mode, before: Mode, colors: seq<Color>, i: nat, grey: bool)
    requires i < |colors| && |before.palette| <= 256 && (grey ==> !Colorful(colors))
    requires m == DirectMode(before, 8, true, grey, false, 0, 0, 0)
    ensures ValidMode(m) && Keeps(m, colors[i])
  {
    if grey { assert IsGrey(colors[i]); }
  }

  lemma DirectKeeps(m: Mode, before: Mode, colors: seq<Color>, bits: nat, alpha: bool, grey: bool, key: bool,
                    keyR: nat, keyG: nat, keyB: nat)
    requires |before.palette| <= 256 && Fits(colors, bits, alpha, grey, key, keyR, keyG, keyB)
    requires m == DirectMode(before, bits, alpha, grey, key, keyR, keyG, keyB)
    ensures ValidMode(m) && KeepsAll(m, colors)
  {
    hide Keeps;
    hide NeedsAlpha;
    hide Colorful;
    hide Clear;
    hide MaxBits;
    forall c | c in colors ensures Keeps(m, c) {
      var i :| 0 <= i < |colors| && colors[i] == c;
      if alpha {
        AlphaModeKept(m, before, colors, i, grey);
      } else if grey {
        GreyModeKept(m, before, colors, i, bits, key, keyR, keyG, keyB);
      } else {
        RgbKept(m, before, colors, i, key, keyR, keyG, keyB);
      }
    }
  }

  lemma PaletteKeeps(m: Mode, colors: seq<Color>)
    requires m.colortype == Palette && |m.palette| <= 256 && m.bitdepth == PaletteBits(|m.palette|)
    requires forall c :: c in colors ==> c in m.palette
    ensures ValidMode(m) && KeepsAll(m, colors)
  {
    assert m.palette[..|m.palette|] == m.palette;
  }

  // ---- nothing smaller would do ----

  lemma GreyModeShows(o: Mode, c: Color)
    requires ValidMode(o) && o.colortype == ColorType.Grey && Keeps(o, c)
    ensures IsGrey(c) && (c.a == 0 || c.a == 255) && RequiredBits(c.r) <= o.bitdepth
  {
    if o.bitdepth != 8 { GreyKept(c.r, o.bitdepth); }
  }

  /** What a mode that keeps all colours says about them. */
  lemma GreyModeNeeds(o: Mode, colors: seq<Color>)
    requires ValidMode(o) && o.colortype == ColorType.Grey && KeepsAll(o, colors)
    ensures !Colorful(colors) && !NeedsAlpha(colors) && MaxBits(colors) <= o.bitdepth
  {
    forall i | 0 <= i < |colors|
      ensures IsGrey(colors[i]) && (colors[i].a == 0 || colors[i].a == 255) && RequiredBits(colors[i].r) <= o.bitdepth
    {
      GreyModeShows(o, colors[i]);
    }
    BitsWithin(colors, o.bitdepth);
    KeyedNeedsNoAlpha(o, colors);
  }

  lemma {:induction false} BitsWithin(colors: seq<Color>, bits: nat)
    requires bits >= 1 && forall i :: 0 <= i < |colors| ==> RequiredBits(colors[i].r) <= bits
    ensures MaxBits(colors) <= bits
  {
    if colors != [] { BitsWithin(colors[..|colors| - 1], bits); }
  }

  /** Grey and RGB modes have one transparent colour at most. */
  lemma KeyedNeedsNoAlpha(o: Mode, colors: seq<Color>)
    requires ValidMode(o) && (o.colortype == ColorType.Grey || o.colortype == Rgb) && KeepsAll(o, colors)
    ensures !NeedsAlpha(colors)
  {
    forall i | 0 <= i < |colors| ensures Meaning(o, Coded(o, colors[i])) == colors[i] {
      assert Keeps(o, colors[i]);
    }
  }

  lemma PaletteNeeds(o: Mode, colors: seq<Color>)
    requires ValidMode(o) && o.colortype == Palette && KeepsAll(o, colors)
    ensures |Hues(colors)| <= Highest(o.bitdepth) + 1
  {
    var used := o.palette[..Usable(o, o.palette)];
    forall c | c in colors ensures c in used { assert Keeps(o, c); }
    FewerHues(colors, used);
    HuesAtMost(used);
  }

  lemma GreyAlphaNeeds(o: Mode, colors: seq<Color>)
    requires ValidMode(o) && o.colortype == GreyAlpha && KeepsAll(o, colors)
    ensures !Colorful(colors)
  {
    forall i | 0 <= i < |colors| ensures IsGrey(colors[i]) { assert Keeps(o, colors[i]); }
  }

  lemma SomeHue(colors: seq<Color>)
    ensures colors != [] ==> |Hues(colors)| > 0
  {
    if colors != [] { assert colors[0] in Hues(colors); }
  }

  /** The size of the chosen mode, as far as the colours decide it. */
  ghost function LeastBpp(colors: seq<Color>): nat
  {
    var n := |Hues(colors)|;
    var direct := if NeedsAlpha(colors) then if Colorful(colors) then 32 else 16
                  else if Colorful(colors) then 24 else MaxBits(colors);
    if n <= 256 then Min(direct, PaletteBits(n)) else direct
  }

  lemma AtLeastLeast(o: Mode, colors: seq<Color>)
    requires ValidMode(o) && KeepsAll(o, colors)
    ensures LeastBpp(colors) <= Bpp(o)
  {
    hide KeepsAll;
    hide NeedsAlpha;
    hide Colorful;
    hide MaxBits;
    match o.colortype {
      case Grey => GreyModeNeeds(o, colors);
      case Rgb => KeyedNeedsNoAlpha(o, colors);
      case Palette => PaletteNeeds(o, colors);
      case GreyAlpha => GreyAlphaNeeds(o, colors);
      case Rgba =>
    }
  }

  lemma LeastIsSmallest(m: Mode, colors: seq<Color>)
    requires ValidMode(m) && Bpp(m) <= LeastBpp(colors)
    ensures NothingSmaller(m, colors)
  {
    hide LeastBpp;
    hide KeepsAll;
    forall o: Mode | ValidMode(o) && KeepsAll(o, colors) ensures Bpp(m) <= Bpp(o) { AtLeastLeast(o, colors); }
  }

  /** All modes are allowed, and there are enough pixels to justify a palette or a key. */
  ghost predicate WorthIt(stats: Stats)
    reads stats
  {
    stats.allowPalette && stats.allowGreyscale && stats.numpixels > 16 && stats.numpixels >= 2 * stats.numcolors
  }

  /** The mode keeps every colour, or it is the input's own palette and the image is taken over as it is. */
  ghost predicate Faithful(m: Mode, modeIn: Mode, colors: seq<Color>)
    requires ValidMode(m)
  {
    KeepsAll(m, colors) || (m.colortype == Palette && m == modeIn)
  }

  /** When greys of a palette lose bits: counting stopped too early for pixels of d bits, and grey is chosen. */
  ghost predicate GreysLost(colors: seq<Color>, d: nat, allowPalette: bool, allowGreyscale: bool)
  {
    && Counted(colors, d) < MaxBits(colors)
    && allowGreyscale && !Colorful(colors) && !NeedsAlpha(colors) && !(Clear(colors) && |colors| <= 16)
    && (!allowPalette || |colors| < 2 * |Hues(colors)| || Counted(colors, d) <= PaletteBits(|Hues(colors)|))
  }

  /** A grey mode of too few bits does not keep every colour. */
  lemma TooFewBits(m: Mode, colors: seq<Color>)
    requires ValidMode(m) && m.colortype == ColorType.Grey && m.bitdepth < MaxBits(colors)
    ensures !KeepsAll(m, colors)
  {
    hide KeepsAll;
    hide MaxBits;
    if KeepsAll(m, colors) { GreyModeNeeds(m, colors); }
  }

  /** The bits of a mode without palette. */
  function DirectBpp(bits: nat, alpha: bool, grey: bool): nat
  {
    if alpha then if grey then 2 * bits else 4 * bits else if grey then bits else 3 * bits
  }

  /** Alpha is needed, or a key that would not be worth its overhead. */
  ghost predicate WithAlpha(colors: seq<Color>)
  {
    NeedsAlpha(colors) || (Clear(colors) && |colors| <= 16)
  }

  /** The type and depth for an image of these colours: grey if all are grey and it is allowed, alpha if it is needed;
    a palette instead if it is allowed, there are at least two pixels for each colour, and grey alone is not as small. */
  ghost function TypeFor(colors: seq<Color>, d: nat, allowPalette: bool, allowGreyscale: bool): (ColorType, nat)
  {
    var n, alpha, grey := |Hues(colors)|, WithAlpha(colors), allowGreyscale && !Colorful(colors);
    var bits := if grey && !alpha then Counted(colors, d) else 8;
    if allowPalette && 0 < n <= 256 && |colors| >= 2 * n && !(grey && !alpha && bits <= PaletteBits(n))
    then (Palette, PaletteBits(n))
    else (if alpha then if grey then GreyAlpha else Rgba else if grey then ColorType.Grey else Rgb, bits)
  }

  /** Whether to use a palette, and what a mode without one needs. */
  method Decide(stats: Stats, ghost colors: seq<Color>, ghost d: nat)
    returns (paletteOk: bool, bits: nat, alpha: bool, greyOk: bool, key: bool)
    requires stats.Describes(colors, d)
    ensures bits == 8 || (Packs(bits) && greyOk && !alpha)
    ensures alpha == WithAlpha(colors) && greyOk == (stats.allowGreyscale && !Colorful(colors))
    ensures key == (!alpha && Clear(colors))
    ensures TypeFor(colors, d, stats.allowPalette, stats.allowGreyscale) ==
            if paletteOk then (Palette, PaletteBits(stats.numcolors))
            else (if alpha then if greyOk then GreyAlpha else Rgba else if greyOk then ColorType.Grey else Rgb, bits)
    ensures paletteOk ==> stats.allowPalette && 0 < stats.numcolors <= 256
    ensures paletteOk ==> !GreysLost(colors, d, stats.allowPalette, stats.allowGreyscale)
    ensures paletteOk && WorthIt(stats) ==> PaletteBits(stats.numcolors) <= LeastBpp(colors)
    ensures !paletteOk ==> (GreysLost(colors, d, stats.allowPalette, stats.allowGreyscale) <==>
                            greyOk && !alpha && bits < MaxBits(colors))
    ensures !paletteOk && !(greyOk && !alpha && bits < MaxBits(colors)) ==>
              Fits(colors, bits, alpha, greyOk, key, stats.keyR, stats.keyG, stats.keyB)
    ensures !paletteOk && WorthIt(stats) ==> DirectBpp(bits, alpha, greyOk) <= LeastBpp(colors)
  {
    hide NeedsAlpha;
    hide Colorful;
    hide Clear;
    hide MaxBits;
    hide Counted;
    CountedBelow(colors, d);
    SomeHue(colors);
    NoColors(colors, d);
    var numpixels := stats.numpixels;
    alpha, key, bits := stats.alpha, stats.key, stats.bits;
    if key && numpixels <= 16 {
      alpha, key := true, false;
      if bits < 8 { bits := 8; }
    }
    greyOk := !stats.colored;
    if !stats.allowGreyscale { greyOk := false; }
    if !greyOk && bits < 8 { bits := 8; }
    var n := stats.numcolors;
    var palettebits := PaletteBits(n);
    paletteOk := n <= 256 && bits <= 8 && n != 0;
    if numpixels < n * 2 { paletteOk := false; }
    if greyOk && !alpha && bits <= palettebits { paletteOk := false; }
    if !stats.allowPalette { paletteOk := false; }
  }

  /** The smallest mode for an image with these statistics, unless the overhead would not be worth it.
    It keeps every colour unless greys of a small palette are lost. */
  method AutoChooseColor(before: Mode, modeIn: Mode, stats: Stats, ghost colors: seq<Color>, ghost d: nat)
    returns (error: int, m: Mode)
    requires stats.Describes(colors, d) && |before.palette| <= 256 && ValidMode(modeIn)
    ensures error == 0 && ValidMode(m) && (m.colortype == Palette ==> m.palette != [] && Faithful(m, modeIn, colors))
    ensures Faithful(m, modeIn, colors) <==> !GreysLost(colors, d, stats.allowPalette, stats.allowGreyscale)
    ensures WorthIt(stats) ==> NothingSmaller(m, colors)
    ensures (m.colortype, m.bitdepth) == TypeFor(colors, d, stats.allowPalette, stats.allowGreyscale)
    ensures m.colortype != Palette ==> (m.keyDefined <==> Clear(colors) && !WithAlpha(colors))
    ensures m.colortype == Palette ==>
              if modeIn.colortype == Palette && |modeIn.palette| >= |Hues(colors)| && modeIn.bitdepth == m.bitdepth
              then m == modeIn else |m.palette| == |Hues(colors)| && !m.keyDefined
  {
    hide WithAlpha;
    hide TypeFor;
    hide KeepsAll;
    hide NothingSmaller;
    hide NeedsAlpha;
    hide Colorful;
    hide Clear;
    hide MaxBits;
    hide Counted;
    hide GreysLost;
    hide LeastBpp;
    hide Fits;
    error := 0;
    m := before.(keyDefined := false);
    var paletteOk, bits, alpha, greyOk, key := Decide(stats, colors, d);
    if paletteOk {
      var n := stats.numcolors;
      error, m := PaletteMode(m, stats.palette, n);
      m := m.(colortype := Palette, bitdepth := PaletteBits(n));
      assert m.palette == stats.palette;
      PaletteKeeps(m, colors);
      if modeIn.colortype == Palette && |modeIn.palette| >= |m.palette| && modeIn.bitdepth == m.bitdepth {
        m := modeIn;
      }
    } else {
      ghost var m0 := m;
      m := DirectMode(m, bits, alpha, greyOk, key, stats.keyR, stats.keyG, stats.keyB);
      if greyOk && !alpha && bits < MaxBits(colors) {
        TooFewBits(m, colors);
      } else {
        DirectKeeps(m, m0, colors, bits, alpha, greyOk, key, stats.keyR, stats.keyG, stats.keyB);
      }
    }
    if WorthIt(stats) { LeastIsSmallest(m, colors); }
  }

  lemma NoColors(colors: seq<Color>, d: nat)
    ensures colors == [] ==> Counted(colors, d) == MaxBits(colors)
  {
  }

  // ---- where greys can be lost ----

  /** A grey of d bits, scaled up, needs no more than d. */
  lemma ScaledNeeds(v: nat, bits: nat)
    requires Packs(bits) && v <= Highest(bits)
    ensures Scaled(v, bits) < 256 && RequiredBits(Scaled(v, bits)) <= bits
  {
    if bits == 2 {
      assert Scaled(v, bits) == 85 * v == 17 * (5 * v);
    } else if bits == 4 {
      assert Scaled(v, bits) == 17 * v;
    }
  }

  lemma PixelNeeds(data: seq<Byte>, i: nat, m: Mode)
    requires ValidMode(m) && HasPixel(|data|, i, m) && m.colortype == ColorType.Grey && m.bitdepth != 8
    ensures RequiredBits(PixelAt(data, i, m).r) <= m.bitdepth
  {
    hide Packed;
    hide RequiredBits;
    Pow2Small();
    ScaledNeeds(SingleSample(data, i, m), m.bitdepth);
  }

  /** Only for palettes below 8 bits may counting stop too early. */
  lemma CountedRight(data: seq<Byte>, n: nat, m: Mode)
    requires ValidMode(m) && Holds(|data|, n, m) && (m.colortype == Palette ==> m.bitdepth == 8)
    ensures Counted(Pixels(data, n, m), Bpp(m)) == MaxBits(Pixels(data, n, m))
  {
    hide PixelAt;
    var colors := Pixels(data, n, m);
    if m.bitdepth == 8 {
      CountedBelow(colors, Bpp(m));
    } else {
      forall k: nat | k < n ensures RequiredBits(colors[k].r) <= m.bitdepth {
        assert HasPixel(|data|, k, m);
        PixelNeeds(data, k, m);
      }
      CountedAll(colors, m.bitdepth);
    }
  }

  /** So no other image loses greys. */
  lemma NeverLost(data: seq<Byte>, n: nat, m: Mode, allowPalette: bool, allowGreyscale: bool)
    requires ValidMode(m) && Holds(|data|, n, m) && (m.colortype == Palette ==> m.bitdepth == 8)
    ensures !GreysLost(Pixels(data, n, m), Bpp(m), allowPalette, allowGreyscale)
  {
    CountedRight(data, n, m);
  }

  function GreyOf(v: Byte): Color
  {
    Color(v, v, v, 255)
  }

  /** Two greys as a palette of one bit. */
  function GreyPair(a: Byte, b: Byte): Mode
  {
    Mode(Palette, 1, false, 0, 0, 0, [GreyOf(a), GreyOf(b)])
  }

  lemma GreysNeed(colors: seq<Color>)
    requires forall i :: 0 <= i < |colors| ==> IsGrey(colors[i]) && colors[i].a == 255
    ensures !Colorful(colors) && !NeedsAlpha(colors) && !Clear(colors)
  {
  }

  /** Two pixels of the greys 85 and 170: no bits are counted for indices of one bit. */
  lemma PairLost(colors: seq<Color>)
    requires colors == [GreyOf(85), GreyOf(170)]
    ensures GreysLost(colors, 1, true, true)
  {
    hide NeedsAlpha;
    hide Colorful;
    hide Clear;
    hide MaxBits;
    hide Counted;
    GreysNeed(colors);
    CountedOne(colors);
    MaxBitsHas(colors, 0);
    CountNoTwins(colors);
  }

  /** An image that loses them. */
  lemma LostPair()
    ensures var m := GreyPair(85, 170);
            && ValidMode(m) && Holds(1, 2, m) && Pixels([0x40], 2, m) == [GreyOf(85), GreyOf(170)]
            && GreysLost(Pixels([0x40], 2, m), Bpp(m), true, true)
  {
    hide Pixels;
    hide GreysLost;
    PairPixels(GreyPair(85, 170));
    PairLost([GreyOf(85), GreyOf(170)]);
  }

  lemma TopBits()
    ensures Packed([0x40], 1, 0) == 0 && Packed([0x40], 1, 1) == 1
  {
    hide Shr;
    Pow2Small();
    ShrInterval(0x40, 7, 0);
    ShrInterval(0x40, 6, 1);
  }

  lemma PairPixels(m: Mode)
    requires m == GreyPair(85, 170)
    ensures Holds(1, 2, m) && Pixels([0x40], 2, m) == [GreyOf(85), GreyOf(170)]
  {
    TopBits();
    hide Packed;
    forall i: nat | i < 2 ensures HasPixel(1, i, m) && PixelAt([0x40], i, m) == GreyOf(if i == 0 then 85 else 170) {
      assert PixelAt([0x40], i, m) == Entry(m.palette, Packed([0x40], 1, i));
    }
  }

  /** Any image of a palette of two bits that begins with grey 85 and has greys 0x12 and 0x34 as well, however large. */
  lemma LostThree(colors: seq<Color>)
    requires colors != [] && colors[0] == GreyOf(85) && GreyOf(0x12) in colors && GreyOf(0x34) in colors
    requires forall c :: c in colors ==> c in [GreyOf(85), GreyOf(0x12), GreyOf(0x34)]
    ensures GreysLost(colors, 2, true, true)
  {
    CountedFirst(colors, 0, 2);
    assert RequiredBits(85) == 2 && RequiredBits(0x12) == 8;
    forall i | 0 <= i < |colors| ensures IsGrey(colors[i]) && colors[i].a == 255 {
      assert colors[i] in colors;
    }
    var k :| 0 <= k < |colors| && colors[k] == GreyOf(0x12);
    MaxBitsHas(colors, k);
    var three := [GreyOf(85), GreyOf(0x12), GreyOf(0x34)];
    CountNoTwins(three);
    FewerHues(three, colors);
  }

  // ---- there and back ----

  /** A pixel converted to another mode still shows its colour exactly if that keeps the colour or is a palette. */
  lemma StillShown(mid: seq<Byte>, m: Mode, image: seq<Byte>, mi: Mode, n: nat, i: nat)
    requires ValidMode(m) && ValidMode(mi) && Holds(|mid|, n, m) && Holds(|image|, n, mi) && i < n
    requires HasPixel(|image|, i, mi) && HasPixel(|mid|, i, m) && Converted(mid, m, image, mi, n)
    requires m.colortype == Palette ==> m.palette != []
    ensures PixelAt(mid, i, m) == PixelAt(image, i, mi) <==> m.colortype == Palette || Keeps(m, PixelAt(image, i, mi))
  {
    hide Packed;
    hide Coded;
    assert m.colortype == Palette ==> OutPalette(m, mi) == m.palette;
  }

  /** The images show the same colours. */
  ghost predicate SameColors(a: seq<Byte>, ma: Mode, b: seq<Byte>, mb: Mode, n: nat)
    requires ValidMode(ma) && ValidMode(mb) && Holds(|a|, n, ma) && Holds(|b|, n, mb)
  {
    Pixels(a, n, ma) == Pixels(b, n, mb)
  }

  lemma AllShown(mid: seq<Byte>, m: Mode, image: seq<Byte>, mi: Mode, n: nat)
    requires ValidMode(m) && ValidMode(mi) && Holds(|mid|, n, m) && Holds(|image|, n, mi)
    requires Converted(mid, m, image, mi, n) && (m.colortype == Palette ==> m.palette != [])
    ensures SameColors(mid, m, image, mi, n) <==> m.colortype == Palette || KeepsAll(m, Pixels(image, n, mi))
  {
    hide Converted;
    hide Keeps;
    hide PixelAt;
    var a, b := Pixels(mid, n, m), Pixels(image, n, mi);
    forall i: nat | i < n ensures a[i] == b[i] <==> m.colortype == Palette || Keeps(m, b[i]) {
      assert HasPixel(|mid|, i, m) && HasPixel(|image|, i, mi);
      StillShown(mid, m, image, mi, n, i);
    }
    if SameColors(mid, m, image, mi, n) && m.colortype != Palette {
      forall c | c in b ensures Keeps(m, c) {
        var i :| 0 <= i < n && b[i] == c;
        assert a[i] == b[i];
      }
    }
  }

  lemma KeptAreFound(image: seq<Byte>, mi: Mode, m: Mode, n: nat)
    requires ValidMode(m) && ValidMode(mi) && m.colortype == Palette && m.palette != [] && Holds(|image|, n, mi)
    requires Faithful(m, mi, Pixels(image, n, mi))
    ensures Verbatim(m, mi) || AllFound(image, mi, m, n)
  {
    hide PixelAt;
    if m != mi {
      forall i: nat | i < n
        ensures HasPixel(|image|, i, mi) && PixelAt(image, i, mi) in OutPalette(m, mi)[..Usable(m, OutPalette(m, mi))]
      {
        assert HasPixel(|image|, i, mi) && Pixels(image, n, mi)[i] == PixelAt(image, i, mi);
        assert Keeps(m, PixelAt(image, i, mi));
        assert OutPalette(m, mi) == m.palette;
      }
    }
  }

  /** Shown as 8-bit RGBA, an image has the same colours. */
  lemma BackShows(back: seq<Byte>, mid: seq<Byte>, m: Mode, n: nat)
    requires ValidMode(m) && Holds(|mid|, n, m) && Holds(|back|, n, RGBA8) && Converted(back, RGBA8, mid, m, n)
    ensures SameColors(back, RGBA8, mid, m, n)
  {
    hide Packed;
    forall i: nat | i < n ensures Pixels(back, n, RGBA8)[i] == Pixels(mid, n, m)[i] {
      assert HasPixel(|mid|, i, m) && HasPixel(|back|, i, RGBA8);
      assert Samples(back, i, RGBA8) == Coded(RGBA8, PixelAt(mid, i, m));
    }
  }

  /** Images of 8-bit RGBA whose pixels have the same colours have the same bytes. */
  lemma SamePixels(a: seq<Byte>, b: seq<Byte>, n: nat)
    requires 4 * n == |a| == |b| && Holds(4 * n, n, RGBA8) && SameColors(a, RGBA8, b, RGBA8, n)
    ensures a == b
  {
    forall k | 0 <= k < 4 * n ensures a[k] == b[k] {
      var i, j := k / 4, k % 4;
      assert Pixels(a, n, RGBA8)[i] == Pixels(b, n, RGBA8)[i];
      assert PixelAt(a, i, RGBA8) == PixelAt(b, i, RGBA8);
      assert k == 4 * i + j && Samples(a, i, RGBA8)[j] == Samples(b, i, RGBA8)[j];
    }
  }

  lemma RgbaSize(w: nat, h: nat)
    ensures PassLayout.RawSize(w, h, Bpp(RGBA8)) == 4 * (w * h)
  {
    PassLayout.RawSizeIs(w, h, Bpp(RGBA8));
  }

  /** Converting an image to a mode that has a palette for it or none, and that to 8-bit RGBA. */
  method ThereAndBack(image: array<Byte>, w: nat, h: nat, modeIn: Mode, m: Mode) returns (back: array<Byte>)
    requires ValidMode(modeIn) && ValidMode(m) && Holds(image.Length, w * h, modeIn)
    requires PassLayout.RawSize(w, h, Bpp(modeIn)) <= image.Length
    requires modeIn.colortype == Palette ==> modeIn.palette != []
    requires m.colortype == Palette ==> m.palette != [] && Faithful(m, modeIn, Pixels(image[..], w * h, modeIn))
    ensures back.Length == 4 * (w * h) && Holds(back.Length, w * h, RGBA8)
    ensures SameColors(back[..], RGBA8, image[..], modeIn, w * h) <==>
            m.colortype == Palette || KeepsAll(m, Pixels(image[..], w * h, modeIn))
  {
    hide PixelAt;
    hide Pixels;
    hide KeepsAll;
    hide Faithful;
    hide SameColors;
    hide AllFound;
    hide Converted;
    hide PassLayout.RawSize;
    var n := w * h;
    RgbaSize(w, h);
    var mid := new Byte[PassLayout.RawSize(w, h, Bpp(m))](_ => 0);
    var error := Convert(mid, image, m, modeIn, w, h);
    if m.colortype == Palette { KeptAreFound(image[..], modeIn, m, n); }
    AllShown(mid[..], m, image[..], modeIn, n);
    back := new Byte[4 * n](_ => 0);
    error := Convert(back, mid, RGBA8, m, w, h);
    BackShows(back[..], mid[..], m, n);
    SameAgain(back[..], mid[..], m, image[..], modeIn, n);
  }

  /** Converting an image to the mode chosen for it, and that to 8-bit RGBA, shows every colour of the image,
    unless greys of a palette below 8 bits are lost. */
  method ColorRoundTrip(image: array<Byte>, w: nat, h: nat, modeIn: Mode, allowPalette: bool, allowGreyscale: bool)
    returns (error: int, m: Mode, back: array<Byte>)
    requires ValidMode(modeIn) && PassLayout.RawSize(w, h, Bpp(modeIn)) <= image.Length
    requires modeIn.colortype == Palette ==> modeIn.palette != []
    ensures error == 0 && ValidMode(m) && back.Length == 4 * (w * h)
    ensures Holds(image.Length, w * h, modeIn) && Holds(back.Length, w * h, RGBA8)
    ensures var colors := Pixels(image[..], w * h, modeIn);
            && (SameColors(back[..], RGBA8, image[..], modeIn, w * h) <==>
                !GreysLost(colors, Bpp(modeIn), allowPalette, allowGreyscale))
            && (allowPalette && allowGreyscale && w * h > 16 && w * h >= 2 * Min(257, |Hues(colors)|) ==>
                  NothingSmaller(m, colors))
    ensures (m.colortype, m.bitdepth) ==
            TypeFor(Pixels(image[..], w * h, modeIn), Bpp(modeIn), allowPalette, allowGreyscale)
    ensures modeIn.colortype != Palette || modeIn.bitdepth == 8 ==> SameColors(back[..], RGBA8, image[..], modeIn, w * h)
    ensures modeIn == RGBA8 && image.Length == 4 * (w * h) ==> back[..] == image[..]
  {
    hide PixelAt;
    hide Pixels;
    hide KeepsAll;
    hide NothingSmaller;
    hide Faithful;
    hide SameColors;
    hide AllFound;
    hide Converted;
    hide GreysLost;
    hide TypeFor;
    hide WithAlpha;
    hide PassLayout.RawSize;
    hide NeedsAlpha;
    hide Colorful;
    hide Clear;
    hide Counted;
    var n := w * h;
    AllFit(w, h, modeIn, image.Length);
    ghost var colors := Pixels(image[..], n, modeIn);
    var stats := new Stats();
    stats.allowPalette, stats.allowGreyscale := allowPalette, allowGreyscale;
    stats.Compute(image, w, h, modeIn);
    error, m := AutoChooseColor(RGBA8, modeIn, stats, colors, Bpp(modeIn));
    RgbaSize(w, h);
    FaithfulIs(m, modeIn, colors);
    back := ThereAndBack(image, w, h, modeIn, m);
    if modeIn.colortype != Palette || modeIn.bitdepth == 8 {
      NeverLost(image[..], n, modeIn, allowPalette, allowGreyscale);
    }
    if modeIn == RGBA8 && image.Length == 4 * n { SamePixels(back[..], image[..], n); }
  }

  lemma FaithfulIs(m: Mode, modeIn: Mode, colors: seq<Color>)
    requires ValidMode(m) && (m.colortype == Palette ==> Faithful(m, modeIn, colors))
    ensures Faithful(m, modeIn, colors) <==> m.colortype == Palette || KeepsAll(m, colors)
  {
    hide KeepsAll;
  }

  lemma SameAgain(back: seq<Byte>, mid: seq<Byte>, m: Mode, image: seq<Byte>, mi: Mode, n: nat)
    requires ValidMode(m) && ValidMode(mi) && Holds(|back|, n, RGBA8) && Holds(|mid|, n, m) && Holds(|image|, n, mi)
    requires SameColors(back, RGBA8, mid, m, n)
    ensures SameColors(back, RGBA8, image, mi, n) <==> SameColors(mid, m, image, mi, n)
  {
    hide Pixels;
  }
}
