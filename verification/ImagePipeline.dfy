/** From pixel bits to filtered scanlines and back, the way back in place. */
module ImagePipeline {
  import opened Bits
  import opened MsbBits
  import opened ImageFilter
  import opened FilterChoice
  import opened Padding
  import opened Adam7
  import opened PassLayout
  import opened Interlacing
  import opened InterlaceImage
  import opened ImageSpec
  import opened InflateSpec

  // ---- interlacing, in bits whatever the branch ----

  /** Whole-byte pixels agree bit by bit. */
  lemma BytesToBits(w: nat, h: nat, bpp: nat, packed: seq<Byte>, img: seq<Byte>)
    requires LegalBpp(bpp) && bpp >= 8 && GridOk(ByteGrid(w, h, bpp)) && GridOk(BitGrid(w, h, bpp))
    requires Interlaced(ByteGrid(w, h, bpp), packed, img)
    ensures Interlaced(BitGrid(w, h, bpp), Unpack(packed), Unpack(img))
  {
    var g, b := BitGrid(w, h, bpp), ByteGrid(w, h, bpp);
    hide GridOk;
    hide Same;
    forall i: nat, y: nat, x: nat ensures Same(g, Unpack(packed), Unpack(img), i, y, x) {
      assert Same(b, packed, img, i, y, x);
      PixelToBits(w, h, bpp, packed, img, i, y, x);
    }
  }

  lemma PixelToBits(w: nat, h: nat, bpp: nat, packed: seq<Byte>, img: seq<Byte>, i: nat, y: nat, x: nat)
    requires LegalBpp(bpp) && bpp >= 8 && GridOk(ByteGrid(w, h, bpp)) && GridOk(BitGrid(w, h, bpp))
    requires Same(ByteGrid(w, h, bpp), packed, img, i, y, x)
    ensures Same(BitGrid(w, h, bpp), Unpack(packed), Unpack(img), i, y, x)
  {
    hide GridOk;
    hide InPass;
    hide Unpack;
    hide Slot;
    hide Pixel;
    var b := ByteGrid(w, h, bpp);
    if InPass(w, h, i, y, x) {
      InPassBound(w, h, i, y, x);
      EightFold(w, h, bpp, i, y, x);
      UnpackSlice(packed, Slot(b, i, y, x), b.k);
      UnpackSlice(img, Pixel(b, i, y, x), b.k);
    }
  }

  /** Places counted in bits are eight times those counted in bytes. */
  lemma EightFold(w: nat, h: nat, bpp: nat, i: nat, y: nat, x: nat)
    requires i < PASSES && LegalBpp(bpp) && bpp >= 8
    ensures Slot(BitGrid(w, h, bpp), i, y, x) == 8 * Slot(ByteGrid(w, h, bpp), i, y, x)
    ensures Pixel(BitGrid(w, h, bpp), i, y, x) == 8 * Pixel(ByteGrid(w, h, bpp), i, y, x)
    ensures BitGrid(w, h, bpp).k == 8 * ByteGrid(w, h, bpp).k
  {
    hide Times;
    hide PackedStart;
    hide PassW;
    hide Line;
    hide Col;
    TimesEight(bpp / 8, Times(PassW(w, h, i), y) + x);
    TimesEight(bpp / 8, Times(w, Line(i, y)) + Col(i, x));
    assert 8 * (bpp / 8) == bpp;
  }

  lemma InPassBound(w: nat, h: nat, i: nat, y: nat, x: nat)
    requires InPass(w, h, i, y, x)
    ensures i < PASSES
  {
  }

  method Interlace(out: array<Byte>, input: array<Byte>, w: nat, h: nat, bpp: nat, l: Layout)
    requires out != input && LegalBpp(bpp) && LayoutOf(l, w, h, bpp) && GridOk(BitGrid(w, h, bpp))
    requires PackedStart(w, h, bpp, PASSES) <= out.Length && PixelBits(w, h, bpp) <= 8 * input.Length
    modifies out
    ensures Interlaced(BitGrid(w, h, bpp), Unpack(out[..]), Unpack(input[..]))
  {
    hide GridOk;
    hide Interlaced;
    hide Unpack;
    hide LayoutOf;
    GridsOk(w, h, bpp);
    TimesEight(bpp / 8, Times(w, h));
    hide Times;
    if bpp >= 8 {
      InterlaceBytes(out, input, w, h, bpp, l);
      BytesToBits(w, h, bpp, out[..], input[..]);
    } else {
      InterlaceBits(out, input, w, h, bpp, l);
    }
  }

  method Deinterlace(out: array<Byte>, input: array<Byte>, w: nat, h: nat, bpp: nat, l: Layout)
    requires out != input && LegalBpp(bpp) && LayoutOf(l, w, h, bpp) && GridOk(BitGrid(w, h, bpp))
    requires PackedStart(w, h, bpp, PASSES) <= input.Length && PixelBits(w, h, bpp) <= 8 * out.Length
    modifies out
    ensures Interlaced(BitGrid(w, h, bpp), Unpack(input[..]), Unpack(out[..]))
  {
    hide GridOk;
    hide Interlaced;
    hide Unpack;
    hide LayoutOf;
    GridsOk(w, h, bpp);
    TimesEight(bpp / 8, Times(w, h));
    hide Times;
    if bpp >= 8 {
      DeinterlaceBytes(out, input, w, h, bpp, l);
      BytesToBits(w, h, bpp, input[..], out[..]);
    } else {
      DeinterlaceBits(out, input, w, h, bpp, l);
    }
  }

  /** Deinterlacing what was interlaced gives back every pixel. */
  method InterlaceRoundTrip(input: array<Byte>, w: nat, h: nat, bpp: nat) returns (out: array<Byte>)
    requires LegalBpp(bpp) && PixelBits(w, h, bpp) <= 8 * input.Length
    ensures PixelBits(w, h, bpp) <= 8 * out.Length
    ensures Unpack(out[..])[..PixelBits(w, h, bpp)] == Unpack(input[..])[..PixelBits(w, h, bpp)]
  {
    hide Interlaced;
    hide Unpack;
    GridsOk(w, h, bpp);
    hide GridOk;
    var l := GetPassValues(w, h, bpp);
    var adam7 := new Byte[l.packed[PASSES]](_ => 0);
    Interlace(adam7, input, w, h, bpp, l);
    out := new Byte[input.Length](_ => 0);
    Deinterlace(out, adam7, w, h, bpp, l);
    ImageDetermined(BitGrid(w, h, bpp), Unpack(adam7[..]), Unpack(out[..]), Unpack(input[..]));
  }

  // ---- one pass, filtered and packed ----

  /** The filtered data of pass i mean the packed bits of pass i. */
  ghost predicate PassPacked(data: seq<Byte>, packed: seq<Bit>, w: nat, h: nat, bpp: nat, i: nat)
    requires bpp > 0 && i < PASSES
  {
    && FilteredStart(w, h, bpp, i + 1) <= |data|
    && 8 * PackedStart(w, h, bpp, i) + Times(LineBits(bpp, PassW(w, h, i)), PassH(w, h, i)) <= |packed|
    && Meaning(PassData(data, w, h, bpp, i), PassW(w, h, i), PassH(w, h, i), bpp)
       == Some(AreaAt(packed, PackedStart(w, h, bpp, i), PassW(w, h, i), PassH(w, h, i), bpp))
  }

  /** The filtered data of pass i mean its packed bits, or nothing if a type is unknown. */
  ghost predicate PassFiltered(data: seq<Byte>, packed: seq<Bit>, w: nat, h: nat, bpp: nat, i: nat, good: bool)
    requires bpp > 0 && i < PASSES
  {
    && FilteredStart(w, h, bpp, i + 1) <= |data|
    && 8 * PackedStart(w, h, bpp, i) + Times(LineBits(bpp, PassW(w, h, i)), PassH(w, h, i)) <= |packed|
    && Meaning(PassData(data, w, h, bpp, i), PassW(w, h, i), PassH(w, h, i), bpp)
       == if good then Some(AreaAt(packed, PackedStart(w, h, bpp, i), PassW(w, h, i), PassH(w, h, i), bpp)) else None
  }

  /** Only the pixels count. */
  lemma InterlacedPixels(g: Grid, packed: seq<Bit>, img: seq<Bit>)
    requires GridOk(g) && Interlaced(g, packed, img) && Times(g.k, Times(g.w, g.h)) <= |img|
    ensures Interlaced(g, packed, img[..Times(g.k, Times(g.w, g.h))])
  {
    var n := Times(g.k, Times(g.w, g.h));
    hide GridOk;
    hide InPass;
    hide Slot;
    forall i: nat, y: nat, x: nat ensures Same(g, packed, img[..n], i, y, x) {
      assert Same(g, packed, img, i, y, x);
      if InPass(g.w, g.h, i, y, x) {
        PixelInside(g, i, y, x);
        InPassBound(g.w, g.h, i, y, x);
        hide Pixel;
        SliceOfSlice(img, 0, n, Pixel(g, i, y, x), g.k);
      }
    }
  }

  /** Passes that mean the packed bits of an image represent that image. */
  lemma PackedRepresents(data: seq<Byte>, packed: seq<Bit>, w: nat, h: nat, bpp: nat, img: seq<Bit>)
    requires LegalBpp(bpp) && GridOk(BitGrid(w, h, bpp)) && |data| == FilteredStart(w, h, bpp, PASSES)
    requires PixelBits(w, h, bpp) <= |img| && Interlaced(BitGrid(w, h, bpp), packed, img)
    requires forall i: nat :: i < PASSES ==> PassPacked(data, packed, w, h, bpp, i)
    ensures Represents(data, w, h, bpp, true, img[..PixelBits(w, h, bpp)])
  {
    var g, bits := BitGrid(w, h, bpp), img[..PixelBits(w, h, bpp)];
    InterlacedPixels(g, packed, img);
    hide GridOk;
    hide Interlaced;
    hide Meaning;
    hide PassShows;
    hide PassData;
    hide FilteredStart;
    forall i: nat | i < PASSES ensures PassIs(data, w, h, bpp, i, bits) {
      assert PassPacked(data, packed, w, h, bpp, i);
      AreaShows(packed, w, h, bpp, i, bits);
    }
  }

  lemma AreaShows(packed: seq<Bit>, w: nat, h: nat, bpp: nat, i: nat, bits: seq<Bit>)
    requires LegalBpp(bpp) && GridOk(BitGrid(w, h, bpp)) && Interlaced(BitGrid(w, h, bpp), packed, bits) && i < PASSES
    requires 8 * PackedStart(w, h, bpp, i) + Times(LineBits(bpp, PassW(w, h, i)), PassH(w, h, i)) <= |packed|
    ensures PassShows(AreaAt(packed, PackedStart(w, h, bpp, i), PassW(w, h, i), PassH(w, h, i), bpp), BitGrid(w, h, bpp), i, bits)
  {
    hide GridOk;
    hide Interlaced;
    hide PassShows;
    hide PassCells;
    hide Times;
    hide LineBits;
    hide PassW;
    hide PassH;
    hide BitGrid;
    hide PackedStart;
    PassBits(w, h, bpp, i);
    var g := BitGrid(w, h, bpp);
    GridStart(w, h, bpp, i);
    PackedShows(packed, g, i, bits);
  }

  lemma GridStart(w: nat, h: nat, bpp: nat, i: nat)
    requires i < PASSES
    ensures |BitGrid(w, h, bpp).starts| > i && BitGrid(w, h, bpp).starts[i] == 8 * PackedStart(w, h, bpp, i)
  {
  }

  /** Nothing has changed outside n bytes at position at. */
  ghost predicate OnlyAt(before: seq<Byte>, now: seq<Byte>, at: nat, n: nat)
  {
    && |now| == |before| && at + n <= |now|
    && now[..at] == before[..at] && now[at + n..] == before[at + n..]
  }

  /** Writing elsewhere leaves the data of a pass as they are. */
  lemma PassDataKept(before: seq<Byte>, now: seq<Byte>, at: nat, n: nat, w: nat, h: nat, bpp: nat, j: nat)
    requires j < PASSES && OnlyAt(before, now, at, n)
    requires FilteredStart(w, h, bpp, j + 1) <= at || at + n <= FilteredStart(w, h, bpp, j)
    requires FilteredStart(w, h, bpp, j + 1) <= |now|
    ensures PassData(now, w, h, bpp, j) == PassData(before, w, h, bpp, j)
  {
    var a, m := FilteredStart(w, h, bpp, j), FilteredBytes(PassW(w, h, j), PassH(w, h, j), bpp);
    assert FilteredStart(w, h, bpp, j + 1) == a + m;
    hide FilteredStart;
    hide FilteredBytes;
    if a + m <= at {
      SliceOfSlice(now, 0, at, a, m);
      SliceOfSlice(before, 0, at, a, m);
    } else {
      SliceOfSlice(now, at + n, |now| - (at + n), a - (at + n), m);
      SliceOfSlice(before, at + n, |now| - (at + n), a - (at + n), m);
    }
  }

  // ---- encoding ----

  /** The type bytes of filtered data. */
  ghost function TypeBytes(data: seq<Byte>, lb: nat, h: nat): (r: seq<Byte>)
    requires Times(1 + lb, h) <= |data|
    ensures |r| == h
  {
    seq<Byte>(h, y requires 0 <= y < h => TypeAt(data, lb, h, y))
  }

  /** The type byte of every line is what the strategy asks for, given the lines of the image that the data stand for. */
  ghost predicate TypesChosen(data: seq<Byte>, w: nat, h: nat, bpp: nat, strategy: Strategy)
    requires bpp > 0 && |data| == FilteredBytes(w, h, bpp)
  {
    var lb, bw := LineBytes(bpp, w), ByteWidth(bpp);
    TypesOf(strategy, UnfilteredImage(data, lb, bw, h), lb, bw, TypeBytes(data, lb, h))
  }

  lemma FilteredChosen(x: seq<Byte>, w: nat, h: nat, bpp: nat, types: seq<Byte>, data: seq<Byte>, strategy: Strategy)
    requires bpp > 0 && |x| == Times(LineBytes(bpp, w), h) && |types| == h && |data| == FilteredBytes(w, h, bpp)
    requires FilteredWith(data, x, LineBytes(bpp, w), ByteWidth(bpp), types)
    requires TypesOf(strategy, x, LineBytes(bpp, w), ByteWidth(bpp), types)
    requires AllGood(types) || strategy.Predefined?
    ensures TypesChosen(data, w, h, bpp, strategy)
  {
    var lb, bw := LineBytes(bpp, w), ByteWidth(bpp);
    hide LineBytes;
    hide Times;
    hide FilteredImage;
    hide UnfilteredImage;
    assert TypeBytes(data, lb, h) == types;
    if AllGood(types) {
      UnfilterFilter(x, lb, bw, types, []);
      assert data + [] == data && x[..|x|] == x;
    } else {
      GivenTypes(strategy, x, UnfilteredImage(data, lb, bw, h), lb, bw, types);
    }
  }

  /** Types given in advance do not depend on the image. */
  lemma GivenTypes(strategy: Strategy, x: seq<Byte>, u: seq<Byte>, lb: nat, bytewidth: nat, types: seq<Byte>)
    requires bytewidth > 0 && Times(lb, |types|) <= |x| && Times(lb, |types|) <= |u|
    requires strategy.Predefined? && TypesOf(strategy, x, lb, bytewidth, types)
    ensures TypesOf(strategy, u, lb, bytewidth, types)
  {
    hide Times;
    forall y: nat | y < |types| ensures TypeOf(strategy, u, lb, bytewidth, types, y) {
      RowInside(lb, y, |types|);
      assert TypeOf(strategy, x, lb, bytewidth, types, y);
    }
  }

  /** Filters one image or reduced image; what it writes means the bits it read, or nothing if a type is unknown. */
  method FilterImage(out: array<Byte>, oo: nat, input: array<Byte>, io: nat, w: nat, h: nat, bpp: nat, strategy: Strategy)
    requires out != input && bpp > 0 && (h > 0 ==> w > 0) && StrategyOk(strategy, h)
    requires oo + FilteredBytes(w, h, bpp) <= out.Length && io + Times(LineBytes(bpp, w), h) <= input.Length
    modifies out
    ensures OnlyAt(old(out[..]), out[..], oo, FilteredBytes(w, h, bpp))
    ensures Meaning(DataAt(out[..], oo, w, h, bpp), w, h, bpp) ==
            if GoodTypes(strategy, h) then Some(UnpadLines(LinesAt(input[..], io, w, h, bpp), w, h, bpp)) else None
    ensures TypesChosen(DataAt(out[..], oo, w, h, bpp), w, h, bpp, strategy)
  {
    hide FilteredWith;
    hide TypesOf;
    hide TypesChosen;
    if h > 0 { PixelFits(w, bpp); }
    var linebytes, bytewidth := LineBytes(bpp, w), ByteWidth(bpp);
    assert bytewidth > 0 && FilteredBytes(w, h, bpp) == Times(1 + linebytes, h);
    hide Times;
    hide LineBytes;
    hide Written;
    hide Meaning;
    hide UnpadLines;
    ghost var before := out[..];
    ghost var types, data := FilterLines(out, oo, input, io, linebytes, bytewidth, h, strategy);
    assert input[io..io + Times(linebytes, h)] == LinesAt(input[..], io, w, h, bpp);
    hide LinesAt;
    TypesGood(strategy, LinesAt(input[..], io, w, h, bpp), linebytes, bytewidth, types);
    FilteredPlace(before, out[..], oo, LinesAt(input[..], io, w, h, bpp), w, h, bpp, types, data);
    FilteredChosen(LinesAt(input[..], io, w, h, bpp), w, h, bpp, types, data, strategy);
  }

  lemma TypesGood(strategy: Strategy, x: seq<Byte>, lb: nat, bytewidth: nat, types: seq<Byte>)
    requires bytewidth > 0 && Times(lb, |types|) <= |x|
    requires StrategyOk(strategy, |types|) && TypesOf(strategy, x, lb, bytewidth, types)
    ensures GoodTypes(strategy, |types|) <==> AllGood(types)
    ensures AllGood(types) || strategy.Predefined?
  {
    hide Times;
    hide Measured;
    forall y: nat | y < |types|
      ensures if strategy.Predefined? then types[y] == strategy.types[y] else types[y] <= 4
    {
      assert TypeOf(strategy, x, lb, bytewidth, types, y);
    }
  }

  predicate AllGood(types: seq<Byte>)
  {
    forall y :: 0 <= y < |types| ==> types[y] <= 4
  }

  lemma FilteredPlace(before: seq<Byte>, now: seq<Byte>, oo: nat, x: seq<Byte>, w: nat, h: nat, bpp: nat, types: seq<Byte>,
                      data: seq<Byte>)
    requires bpp > 0 && |x| == Times(LineBytes(bpp, w), h) && |types| == h
    requires FilteredWith(data, x, LineBytes(bpp, w), ByteWidth(bpp), types) && Written(before, now, oo, data)
    ensures OnlyAt(before, now, oo, FilteredBytes(w, h, bpp))
    ensures DataAt(now, oo, w, h, bpp) == data
    ensures Meaning(DataAt(now, oo, w, h, bpp), w, h, bpp) == if AllGood(types) then Some(UnpadLines(x, w, h, bpp)) else None
  {
    assert |data| == FilteredBytes(w, h, bpp);
    WrittenOnly(before, now, oo, data);
    assert DataAt(now, oo, w, h, bpp) == data;
    if AllGood(types) {
      FilteredMeans(x, w, h, bpp, types);
    } else {
      MeansNothing(x, w, h, bpp, types, data);
    }
  }

  /** Data with an unknown type mean nothing. */
  lemma MeansNothing(x: seq<Byte>, w: nat, h: nat, bpp: nat, types: seq<Byte>, data: seq<Byte>)
    requires bpp > 0 && |x| == Times(LineBytes(bpp, w), h) && |types| == h
    requires FilteredWith(data, x, LineBytes(bpp, w), ByteWidth(bpp), types) && !AllGood(types)
    ensures Meaning(data, w, h, bpp) == None
  {
    hide Times;
    hide LineBytes;
    hide FilteredImage;
    hide UnfilteredImage;
    hide Unpack;
    hide Unpadded;
    var y: nat :| y < |types| && types[y] > 4;
    assert TypeAt(data, LineBytes(bpp, w), h, y) == types[y];
  }

  lemma WrittenOnly(before: seq<Byte>, now: seq<Byte>, at: nat, r: seq<Byte>)
    requires Written(before, now, at, r)
    ensures OnlyAt(before, now, at, |r|) && now[at..at + |r|] == r
  {
  }

  /** A line is at least as long as a pixel. */
  lemma PixelFits(w: nat, bpp: nat)
    requires w > 0
    ensures ByteWidth(bpp) <= LineBytes(bpp, w)
  {
    assert bpp * w >= bpp;
  }

  /** Lines that fill their bytes: the bits are there as they are. */
  lemma WholeLines(mem: seq<Byte>, at: nat, w: nat, h: nat, bpp: nat)
    requires LineBits(bpp, w) == 8 * LineBytes(bpp, w) && at + Times(LineBytes(bpp, w), h) <= |mem|
    ensures 8 * at + Times(LineBits(bpp, w), h) <= 8 * |mem|
    ensures UnpadLines(LinesAt(mem, at, w, h, bpp), w, h, bpp) == AreaAt(Unpack(mem), at, w, h, bpp)
  {
    var lb := LineBytes(bpp, w);
    TimesEight(lb, h);
    var n := Times(lb, h);
    hide Times;
    hide Unpack;
    hide LineBytes;
    hide LineBits;
    NothingDropped(Unpack(mem[at..at + n]), 8 * lb, h);
    UnpackSlice(mem, at, n);
  }

  /** A fresh copy of packed lines, each padded to whole bytes. */
  method PadLines(input: array<Byte>, io: nat, w: nat, h: nat, bpp: nat) returns (padded: array<Byte>)
    requires 8 * io + Times(LineBits(bpp, w), h) <= 8 * input.Length
    ensures fresh(padded) && padded.Length == Times(LineBytes(bpp, w), h)
    ensures UnpadLines(padded[..], w, h, bpp) == AreaAt(Unpack(input[..]), io, w, h, bpp)
  {
    TimesEight(LineBytes(bpp, w), h);
    var linebits, linebytes := LineBits(bpp, w), LineBytes(bpp, w);
    padded := new Byte[Times(linebytes, h)];
    assert linebits <= 8 * linebytes;
    hide Times;
    hide LineBits;
    hide LineBytes;
    hide Unpack;
    hide Written;
    ghost var before := Unpack(padded[..]);
    AddPaddingBits(padded, input, io, 8 * linebytes, linebits, h);
    PaddedAll(before, Unpack(padded[..]), Unpack(input[..])[8 * io..8 * io + Times(linebits, h)], 8 * linebytes, linebits, h);
  }

  lemma PaddedAll(before: seq<Bit>, now: seq<Bit>, bits: seq<Bit>, ol: nat, il: nat, h: nat)
    requires il <= ol && |bits| == Times(il, h) && |before| == Times(ol, h) && Written(before, now, 0, Padded(bits, ol, il, h))
    ensures |now| == Times(ol, h) && Unpadded(now, il, ol, h) == bits
  {
    hide Times;
    hide Unpadded;
    hide Padded;
    var p := Padded(bits, ol, il, h);
    assert now == now[0..|p|] == p == p + [];
    UnpaddedPadded(bits, ol, il, h, []);
    assert bits[..|bits|] == bits;
  }

  lemma PassNoTaller(w: nat, h: nat, i: nat)
    requires i < PASSES
    ensures PassH(w, h, i) <= h
  {
    StartInside(i);
    CeilDiv(h, StartY(i), StepY(i), h);
    hide StartY;
    MulLe(1, StepY(i), h);
  }

  /** The types given for the lines of pass i are good. */
  predicate PassGoodTypes(strategy: Strategy, w: nat, h: nat, i: nat)
    requires i < PASSES && StrategyOk(strategy, h)
  {
    PassNoTaller(w, h, i);
    GoodTypes(strategy, PassH(w, h, i))
  }

  /** Pass i as computed, and inside each of the buffers. */
  lemma PassFits(w: nat, h: nat, bpp: nat, l: Layout, i: nat)
    requires LegalBpp(bpp) && LayoutOf(l, w, h, bpp) && i < PASSES
    ensures l.passw[i] == PassW(w, h, i) && l.passh[i] == PassH(w, h, i) && (l.passh[i] > 0 ==> l.passw[i] > 0)
    ensures l.passh[i] <= h
    ensures l.packed[i] == PackedStart(w, h, bpp, i) && l.padded[i] == PaddedStart(w, h, bpp, i)
    ensures l.filtered[i] == FilteredStart(w, h, bpp, i)
    ensures 8 * PackedStart(w, h, bpp, i) + Times(LineBits(bpp, PassW(w, h, i)), PassH(w, h, i))
         <= 8 * PackedStart(w, h, bpp, i + 1) <= 8 * PackedStart(w, h, bpp, PASSES)
    ensures FilteredStart(w, h, bpp, i + 1)
         == FilteredStart(w, h, bpp, i) + FilteredBytes(PassW(w, h, i), PassH(w, h, i), bpp)
         <= FilteredStart(w, h, bpp, PASSES)
  {
    EmptyPass(w, h, bpp, i);
    PassNoTaller(w, h, i);
    PassPackedBound(w, h, bpp, i);
    PassFilteredBound(w, h, bpp, i);
    hide PassW;
    hide PassH;
    hide Times;
    hide LineBits;
    hide FilteredBytes;
    hide FilteredStart;
    hide PackedStart;
    hide PaddedStart;
  }

  lemma PassPackedBound(w: nat, h: nat, bpp: nat, i: nat)
    requires i < PASSES
    ensures 8 * PackedStart(w, h, bpp, i) + Times(LineBits(bpp, PassW(w, h, i)), PassH(w, h, i))
         <= 8 * PackedStart(w, h, bpp, i + 1) <= 8 * PackedStart(w, h, bpp, PASSES)
  {
    StartsGrow(w, h, bpp, i + 1, PASSES);
    PassBits(w, h, bpp, i);
    hide PassW;
    hide PassH;
    hide PassCells;
    hide Times;
    hide LineBits;
    hide PackedSize;
  }

  lemma PassFilteredBound(w: nat, h: nat, bpp: nat, i: nat)
    requires i < PASSES
    ensures FilteredStart(w, h, bpp, i + 1)
         == FilteredStart(w, h, bpp, i) + FilteredBytes(PassW(w, h, i), PassH(w, h, i), bpp)
         <= FilteredStart(w, h, bpp, PASSES)
  {
    StartsGrow(w, h, bpp, i + 1, PASSES);
    assert FilteredSize(w, h, bpp, i) == FilteredBytes(PassW(w, h, i), PassH(w, h, i), bpp);
    hide PassW;
    hide PassH;
    hide FilteredBytes;
    hide FilteredSize;
  }

  /** Whole-byte pixels need no padding. */
  lemma WholePass(w: nat, h: nat, bpp: nat, i: nat)
    requires LegalBpp(bpp) && bpp >= 8 && i < PASSES
    ensures PaddedStart(w, h, bpp, i) == PackedStart(w, h, bpp, i)
    ensures LineBits(bpp, PassW(w, h, i)) == 8 * LineBytes(bpp, PassW(w, h, i))
    ensures PackedStart(w, h, bpp, i) + Times(LineBytes(bpp, PassW(w, h, i)), PassH(w, h, i)) <= PackedStart(w, h, bpp, PASSES)
  {
    NoPaddingStarts(w, h, bpp, i);
    WholeBytes(bpp, PassW(w, h, i));
    NoPadding(w, h, bpp, i);
    StartsGrow(w, h, bpp, i + 1, PASSES);
    hide PassW;
    hide PassH;
    hide Times;
  }

  /** The padded lines of pass i, wherever they are. */
  method PadPass(adam7: array<Byte>, w: nat, h: nat, bpp: nat, l: Layout, i: nat) returns (lines: array<Byte>, at: nat)
    requires LegalBpp(bpp) && LayoutOf(l, w, h, bpp) && i < PASSES && adam7.Length == PackedStart(w, h, bpp, PASSES)
    requires 8 * PackedStart(w, h, bpp, i) + Times(LineBits(bpp, PassW(w, h, i)), PassH(w, h, i)) <= 8 * adam7.Length
    ensures lines == adam7 || fresh(lines)
    ensures at + Times(LineBytes(bpp, PassW(w, h, i)), PassH(w, h, i)) <= lines.Length
    ensures UnpadLines(LinesAt(lines[..], at, PassW(w, h, i), PassH(w, h, i), bpp), PassW(w, h, i), PassH(w, h, i), bpp)
         == AreaAt(Unpack(adam7[..]), PackedStart(w, h, bpp, i), PassW(w, h, i), PassH(w, h, i), bpp)
  {
    PassFits(w, h, bpp, l, i);
    var pw, ph, start, padded := l.passw[i], l.passh[i], l.packed[i], l.padded[i];
    hide LayoutOf;
    hide PassW;
    hide PassH;
    hide PackedStart;
    hide PaddedStart;
    hide LineBits;
    hide LineBytes;
    hide Unpack;
    hide UnpadLines;
    hide AreaAt;
    hide Times;
    if bpp < 8 {
      lines := PadLines(adam7, start, pw, ph, bpp);
      at := 0;
      assert LinesAt(lines[..], 0, pw, ph, bpp) == lines[..];
    } else {
      hide LinesAt;
      WholePass(w, h, bpp, i);
      lines, at := adam7, padded;
      WholeLines(adam7[..], at, pw, ph, bpp);
    }
  }

  /** The types of pass i are those that the strategy asks for. */
  ghost predicate PassChosen(data: seq<Byte>, w: nat, h: nat, bpp: nat, i: nat, strategy: Strategy)
    requires bpp > 0 && i < PASSES
  {
    && FilteredStart(w, h, bpp, i + 1) <= |data|
    && TypesChosen(PassData(data, w, h, bpp, i), PassW(w, h, i), PassH(w, h, i), bpp, strategy)
  }

  /** Filters pass i of the interlaced image. */
  method FilterPass(out: array<Byte>, adam7: array<Byte>, w: nat, h: nat, bpp: nat, l: Layout, i: nat, strategy: Strategy)
    requires out != adam7 && LegalBpp(bpp) && LayoutOf(l, w, h, bpp) && i < PASSES
    requires out.Length == FilteredStart(w, h, bpp, PASSES) && adam7.Length == PackedStart(w, h, bpp, PASSES)
    requires StrategyOk(strategy, h)
    modifies out
    ensures OnlyAt(old(out[..]), out[..], FilteredStart(w, h, bpp, i), FilteredBytes(PassW(w, h, i), PassH(w, h, i), bpp))
    ensures PassFiltered(out[..], Unpack(adam7[..]), w, h, bpp, i, PassGoodTypes(strategy, w, h, i))
    ensures PassChosen(out[..], w, h, bpp, i, strategy)
  {
    PassFits(w, h, bpp, l, i);
    SmallerStrategy(strategy, l.passh[i], h);
    var pw, ph, start := l.passw[i], l.passh[i], l.filtered[i];
    hide StrategyOk;
    hide PassW;
    hide PassH;
    hide Times;
    hide LineBits;
    hide LineBytes;
    hide FilteredBytes;
    hide FilteredStart;
    hide PackedStart;
    hide Unpack;
    hide Meaning;
    hide UnpadLines;
    hide AreaAt;
    hide LinesAt;
    hide DataAt;
    hide OnlyAt;
    hide TypesChosen;
    var lines, at := PadPass(adam7, w, h, bpp, l, i);
    FilterImage(out, start, lines, at, pw, ph, bpp, strategy);
  }
}
