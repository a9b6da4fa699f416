/** The whole image pipeline: preProcessScanlines and its inverse, which works in place. */
module Pipeline {
  import opened Bits
  import opened MsbBits
  import opened ImageFilter
  import opened FilterChoice
  import opened Padding
  import opened Adam7
  import opened PassLayout
  import opened Interlacing
  import opened InterlaceImage
  import opened ImageSpec
  import opened ImagePipeline
  import opened InflateSpec

  // ---- encoding ----

  /** The pixel bits of an image without interlacing. */
  lemma PlainBits(bits: seq<Bit>, w: nat, h: nat, bpp: nat)
    requires PixelBits(w, h, bpp) <= |bits|
    ensures Times(LineBits(bpp, w), h) == PixelBits(w, h, bpp)
    ensures AreaAt(bits, 0, w, h, bpp) == bits[..PixelBits(w, h, bpp)]
  {
    TimesAssoc(bpp, w, h);
  }

  /** All filter types that will be used are good. */
  predicate GoodFilters(strategy: Strategy, w: nat, h: nat, interlaced: bool)
    requires StrategyOk(strategy, h)
  {
    if interlaced then forall i: nat :: i < PASSES ==> PassGoodTypes(strategy, w, h, i) else GoodTypes(strategy, h)
  }

  /** What scanline data stand for, if anything. */
  ghost predicate Encoded(data: seq<Byte>, w: nat, h: nat, bpp: nat, interlaced: bool, bits: seq<Bit>, good: bool)
    requires bpp > 0
  {
    && |data| == DataSize(w, h, bpp, interlaced)
    && if good then Represents(data, w, h, bpp, interlaced, bits) else !WellFiltered(data, w, h, bpp, interlaced)
  }

  lemma PlainRepresents(data: seq<Byte>, w: nat, h: nat, bpp: nat, bits: seq<Bit>)
    requires bpp > 0 && PixelBits(w, h, bpp) <= |bits| && |data| == FilteredBytes(w, h, bpp)
    requires Times(LineBits(bpp, w), h) <= |bits|
    requires Meaning(data, w, h, bpp) == Some(AreaAt(bits, 0, w, h, bpp))
    ensures Represents(data, w, h, bpp, false, bits[..PixelBits(w, h, bpp)])
  {
    hide Meaning;
    PlainBits(bits, w, h, bpp);
  }

  /** Lines need padding exactly when they do not fill their bytes. */
  lemma NeedsPadding(w: nat, bpp: nat)
    requires LegalBpp(bpp)
    ensures bpp >= 8 ==> LineBits(bpp, w) == 8 * LineBytes(bpp, w)
  {
    if bpp >= 8 { WholeBytes(bpp, w); }
  }

  method PrePlain(input: array<Byte>, w: nat, h: nat, bpp: nat, strategy: Strategy) returns (out: array<Byte>)
    requires LegalBpp(bpp) && w > 0 && PixelBits(w, h, bpp) <= 8 * input.Length && StrategyOk(strategy, h)
    ensures fresh(out)
    ensures Encoded(out[..], w, h, bpp, false, Unpack(input[..])[..PixelBits(w, h, bpp)], GoodFilters(strategy, w, h, false))
    ensures out.Length == DataSize(w, h, bpp, false) && StrategyFollowed(out[..], w, h, bpp, false, strategy)
  {
    NeedsPadding(w, bpp);
    PlainBits(Unpack(input[..]), w, h, bpp);
    TimesEight(LineBytes(bpp, w), h);
    hide StrategyOk;
    hide GoodTypes;
    hide Times;
    hide LineBits;
    hide LineBytes;
    hide Unpack;
    hide Meaning;
    hide UnpadLines;
    hide AreaAt;
    hide LinesAt;
    hide PixelBits;
    hide Represents;
    hide TypesChosen;
    hide DataAt;
    hide OnlyAt;
    var linebits, linebytes := LineBits(bpp, w), LineBytes(bpp, w);
    out := new Byte[FilteredBytes(w, h, bpp)];
    if bpp < 8 && linebits != 8 * linebytes {
      var padded := PadLines(input, 0, w, h, bpp);
      LinesAll(padded[..], w, h, bpp);
      FilterImage(out, 0, padded, 0, w, h, bpp, strategy);
    } else {
      WholeLines(input[..], 0, w, h, bpp);
      FilterImage(out, 0, input, 0, w, h, bpp, strategy);
    }
    DataAll(out[..], w, h, bpp);
    if GoodTypes(strategy, h) { PlainRepresents(out[..], w, h, bpp, Unpack(input[..])); }
  }

  lemma DataAll(x: seq<Byte>, w: nat, h: nat, bpp: nat)
    requires |x| == FilteredBytes(w, h, bpp)
    ensures DataAt(x, 0, w, h, bpp) == x
  {
  }

  lemma LinesAll(x: seq<Byte>, w: nat, h: nat, bpp: nat)
    requires |x| == Times(LineBytes(bpp, w), h)
    ensures LinesAt(x, 0, w, h, bpp) == x
  {
  }

  /** Passes already written stay as they are while later ones are. */
  lemma PassFilteredKept(before: seq<Byte>, now: seq<Byte>, packed: seq<Bit>, w: nat, h: nat, bpp: nat, i: nat, j: nat, good: bool)
    requires bpp > 0 && j < i < PASSES && PassFiltered(before, packed, w, h, bpp, j, good)
    requires OnlyAt(before, now, FilteredStart(w, h, bpp, i), FilteredBytes(PassW(w, h, i), PassH(w, h, i), bpp))
    ensures PassFiltered(now, packed, w, h, bpp, j, good)
  {
    StartsGrow(w, h, bpp, j + 1, i);
    hide Meaning;
    hide PassW;
    hide PassH;
    PassDataKept(before, now, FilteredStart(w, h, bpp, i), FilteredBytes(PassW(w, h, i), PassH(w, h, i), bpp), w, h, bpp, j);
  }

  /** The first n passes are filtered. */
  ghost predicate PassesFiltered(data: seq<Byte>, packed: seq<Bit>, w: nat, h: nat, bpp: nat, n: nat, strategy: Strategy)
    requires bpp > 0 && n <= PASSES && StrategyOk(strategy, h)
  {
    forall j: nat :: j < n ==> PassFiltered(data, packed, w, h, bpp, j, PassGoodTypes(strategy, w, h, j))
  }

  ghost predicate PassesChosen(data: seq<Byte>, w: nat, h: nat, bpp: nat, n: nat, strategy: Strategy)
    requires bpp > 0 && n <= PASSES
  {
    forall j: nat :: j < n ==> PassChosen(data, w, h, bpp, j, strategy)
  }

  lemma PassChosenKept(before: seq<Byte>, now: seq<Byte>, w: nat, h: nat, bpp: nat, i: nat, j: nat, strategy: Strategy)
    requires bpp > 0 && j < i < PASSES && PassChosen(before, w, h, bpp, j, strategy)
    requires OnlyAt(before, now, FilteredStart(w, h, bpp, i), FilteredBytes(PassW(w, h, i), PassH(w, h, i), bpp))
    ensures PassChosen(now, w, h, bpp, j, strategy)
  {
    hide TypesChosen;
    hide PassW;
    hide PassH;
    hide FilteredBytes;
    hide PassData;
    hide FilteredStart;
    StartsGrow(w, h, bpp, j + 1, i);
    PassDataKept(before, now, FilteredStart(w, h, bpp, i), FilteredBytes(PassW(w, h, i), PassH(w, h, i), bpp), w, h, bpp, j);
  }

  lemma PassesChosenNext(before: seq<Byte>, now: seq<Byte>, w: nat, h: nat, bpp: nat, i: nat, strategy: Strategy)
    requires bpp > 0 && i < PASSES && PassesChosen(before, w, h, bpp, i, strategy)
    requires PassChosen(now, w, h, bpp, i, strategy)
    requires OnlyAt(before, now, FilteredStart(w, h, bpp, i), FilteredBytes(PassW(w, h, i), PassH(w, h, i), bpp))
    ensures PassesChosen(now, w, h, bpp, i + 1, strategy)
  {
    hide PassChosen;
    hide OnlyAt;
    forall j: nat | j < i ensures PassChosen(now, w, h, bpp, j, strategy) {
      PassChosenKept(before, now, w, h, bpp, i, j, strategy);
    }
  }

  /** The filter types in scanline data are those that the strategy asks for, line by line and pass by pass. */
  ghost predicate StrategyFollowed(data: seq<Byte>, w: nat, h: nat, bpp: nat, interlaced: bool, strategy: Strategy)
    requires bpp > 0 && |data| == DataSize(w, h, bpp, interlaced)
  {
    if interlaced then PassesChosen(data, w, h, bpp, PASSES, strategy) else TypesChosen(data, w, h, bpp, strategy)
  }

  lemma PassesFilteredNext(before: seq<Byte>, now: seq<Byte>, packed: seq<Bit>, w: nat, h: nat, bpp: nat, i: nat, strategy: Strategy)
    requires bpp > 0 && i < PASSES && StrategyOk(strategy, h) && PassesFiltered(before, packed, w, h, bpp, i, strategy)
    requires PassFiltered(now, packed, w, h, bpp, i, PassGoodTypes(strategy, w, h, i))
    requires OnlyAt(before, now, FilteredStart(w, h, bpp, i), FilteredBytes(PassW(w, h, i), PassH(w, h, i), bpp))
    ensures PassesFiltered(now, packed, w, h, bpp, i + 1, strategy)
  {
    hide StrategyOk;
    hide PassGoodTypes;
    hide PassFiltered;
    hide OnlyAt;
    forall j: nat | j < i ensures PassFiltered(now, packed, w, h, bpp, j, PassGoodTypes(strategy, w, h, j)) {
      PassFilteredKept(before, now, packed, w, h, bpp, i, j, PassGoodTypes(strategy, w, h, j));
    }
  }

  /** The first n passes mean their packed bits. */
  ghost predicate PassesPacked(data: seq<Byte>, packed: seq<Bit>, w: nat, h: nat, bpp: nat, n: nat)
    requires bpp > 0 && n <= PASSES
  {
    forall j: nat :: j < n ==> PassPacked(data, packed, w, h, bpp, j)
  }

  method FilterPasses(out: array<Byte>, adam7: array<Byte>, w: nat, h: nat, bpp: nat, l: Layout, strategy: Strategy)
    requires out != adam7 && LegalBpp(bpp) && LayoutOf(l, w, h, bpp) && StrategyOk(strategy, h)
    requires out.Length == FilteredStart(w, h, bpp, PASSES) && adam7.Length == PackedStart(w, h, bpp, PASSES)
    modifies out
    ensures PassesFiltered(out[..], Unpack(adam7[..]), w, h, bpp, PASSES, strategy)
    ensures PassesChosen(out[..], w, h, bpp, PASSES, strategy)
  {
    hide PassChosen;
    hide StrategyOk;
    hide PassGoodTypes;
    hide LayoutOf;
    hide Unpack;
    hide PassFiltered;
    hide FilteredStart;
    hide PackedStart;
    hide OnlyAt;
    for i := 0 to PASSES
      invariant PassesFiltered(out[..], Unpack(adam7[..]), w, h, bpp, i, strategy)
      invariant PassesChosen(out[..], w, h, bpp, i, strategy)
    {
      ghost var before := out[..];
      FilterPass(out, adam7, w, h, bpp, l, i, strategy);
      PassesFilteredNext(before, out[..], Unpack(adam7[..]), w, h, bpp, i, strategy);
      PassesChosenNext(before, out[..], w, h, bpp, i, strategy);
    }
  }

  /** Good types give passes that mean their bits; a bad one spoils its pass. */
  lemma FilteredPasses(data: seq<Byte>, packed: seq<Bit>, w: nat, h: nat, bpp: nat, strategy: Strategy)
    requires bpp > 0 && StrategyOk(strategy, h) && PassesFiltered(data, packed, w, h, bpp, PASSES, strategy)
    ensures if GoodFilters(strategy, w, h, true) then PassesPacked(data, packed, w, h, bpp, PASSES)
            else !WellFiltered(data, w, h, bpp, true)
  {
    hide StrategyOk;
    hide PassGoodTypes;
    hide Meaning;
    hide PassData;
    hide FilteredStart;
    hide PackedStart;
    hide PassW;
    hide PassH;
    hide AreaAt;
    forall j: nat | j < PASSES
      ensures if PassGoodTypes(strategy, w, h, j) then PassPacked(data, packed, w, h, bpp, j) else !PassGood(data, w, h, bpp, j)
    {
      assert PassFiltered(data, packed, w, h, bpp, j, PassGoodTypes(strategy, w, h, j));
    }
  }

  method PreInterlaced(input: array<Byte>, w: nat, h: nat, bpp: nat, strategy: Strategy) returns (out: array<Byte>)
    requires LegalBpp(bpp) && PixelBits(w, h, bpp) <= 8 * input.Length && StrategyOk(strategy, h)
    ensures fresh(out)
    ensures Encoded(out[..], w, h, bpp, true, Unpack(input[..])[..PixelBits(w, h, bpp)], GoodFilters(strategy, w, h, true))
    ensures out.Length == DataSize(w, h, bpp, true) && StrategyFollowed(out[..], w, h, bpp, true, strategy)
  {
    GridsOk(w, h, bpp);
    hide GridOk;
    hide Interlaced;
    hide StrategyOk;
    hide GoodFilters;
    hide Unpack;
    hide PassPacked;
    hide PassesFiltered;
    hide PassesChosen;
    hide Represents;
    hide WellFiltered;
    hide FilteredStart;
    hide PackedStart;
    hide PixelBits;
    hide BitGrid;
    var l := GetPassValues(w, h, bpp);
    out := new Byte[l.filtered[PASSES]];
    var adam7 := new Byte[l.packed[PASSES]];
    Interlace(adam7, input, w, h, bpp, l);
    FilterPasses(out, adam7, w, h, bpp, l, strategy);
    FilteredPasses(out[..], Unpack(adam7[..]), w, h, bpp, strategy);
    if GoodFilters(strategy, w, h, true) { PackedRepresents(out[..], Unpack(adam7[..]), w, h, bpp, Unpack(input[..])); }
  }

  /** Turns pixel bits into filtered, padded and possibly interlaced scanlines that represent them,
    or that no decoder accepts if a filter type given in advance is none of the five. */
  method PreProcessScanlines(input: array<Byte>, w: nat, h: nat, bpp: nat, interlaced: bool, strategy: Strategy)
    returns (out: array<Byte>)
    requires LegalBpp(bpp) && w > 0 && PixelBits(w, h, bpp) <= 8 * input.Length && StrategyOk(strategy, h)
    ensures fresh(out)
    ensures Encoded(out[..], w, h, bpp, interlaced, Unpack(input[..])[..PixelBits(w, h, bpp)],
                    GoodFilters(strategy, w, h, interlaced))
    ensures out.Length == DataSize(w, h, bpp, interlaced) && StrategyFollowed(out[..], w, h, bpp, interlaced, strategy)
  {
    hide StrategyFollowed;
    hide Encoded;
    hide GoodFilters;
    hide StrategyOk;
    hide PixelBits;
    hide Unpack;
    if interlaced {
      out := PreInterlaced(input, w, h, bpp, strategy);
    } else {
      out := PrePlain(input, w, h, bpp, strategy);
    }
  }

  // ---- decoding ----

  /** Reconstructs one image or reduced image; the result may lie over the filtered data, but not after them. */
  method UnfilterImage(out: array<Byte>, oo: nat, input: array<Byte>, io: nat, w: nat, h: nat, bpp: nat) returns (error: int)
    requires bpp > 0 && (h > 0 ==> w > 0) && (out == input ==> oo <= io)
    requires oo + Times(LineBytes(bpp, w), h) <= out.Length && io + FilteredBytes(w, h, bpp) <= input.Length
    modifies out
    ensures error == 0 <==> Meaning(DataAt(old(input[..]), io, w, h, bpp), w, h, bpp).Some?
    ensures error == 0 ==> OnlyAt(old(out[..]), out[..], oo, Times(LineBytes(bpp, w), h))
    ensures error == 0 ==>
              Meaning(DataAt(old(input[..]), io, w, h, bpp), w, h, bpp) == Some(UnpadLines(LinesAt(out[..], oo, w, h, bpp), w, h, bpp))
  {
    if h > 0 { PixelFits(w, bpp); }
    var linebytes, bytewidth := LineBytes(bpp, w), ByteWidth(bpp);
    assert bytewidth > 0 && FilteredBytes(w, h, bpp) == Times(1 + linebytes, h);
    hide Times;
    hide LineBytes;
    hide LineBits;
    hide Written;
    hide TypesOk;
    hide UnfilteredImage;
    ghost var before, data := out[..], DataAt(input[..], io, w, h, bpp);
    assert data == input[..][io..io + Times(1 + linebytes, h)];
    error := UnfilterLines(out, oo, input, io, linebytes, bytewidth, h);
    MeaningIs(data, w, h, bpp);
    if error == 0 {
      UnfilteredPlace(before, out[..], oo, data, w, h, bpp);
    }
  }

  lemma MeaningIs(data: seq<Byte>, w: nat, h: nat, bpp: nat)
    requires bpp > 0 && |data| == FilteredBytes(w, h, bpp)
    ensures Meaning(data, w, h, bpp).Some? <==> TypesOk(data, LineBytes(bpp, w), h)
  {
  }

  lemma UnfilteredPlace(before: seq<Byte>, now: seq<Byte>, oo: nat, data: seq<Byte>, w: nat, h: nat, bpp: nat)
    requires bpp > 0 && |data| == FilteredBytes(w, h, bpp) && TypesOk(data, LineBytes(bpp, w), h)
    requires Written(before, now, oo, UnfilteredImage(data, LineBytes(bpp, w), ByteWidth(bpp), h))
    ensures OnlyAt(before, now, oo, Times(LineBytes(bpp, w), h))
    ensures Meaning(data, w, h, bpp) == Some(UnpadLines(LinesAt(now, oo, w, h, bpp), w, h, bpp))
  {
    hide Times;
    hide LineBytes;
    hide TypesOk;
    hide UnfilteredImage;
    hide Unpadded;
    hide Unpack;
    var u := UnfilteredImage(data, LineBytes(bpp, w), ByteWidth(bpp), h);
    assert LinesAt(now, oo, w, h, bpp) == u;
  }

  /** Nothing has changed outside n bits. */
  ghost predicate OnlyBitsAt(before: seq<Bit>, now: seq<Bit>, at: nat, n: nat)
  {
    && |now| == |before| && at + n <= |now|
    && now[..at] == before[..at] && now[at + n..] == before[at + n..]
  }

  /** Packs padded lines, also towards the front of the same buffer. */
  method PackLines(out: array<Byte>, oo: nat, input: array<Byte>, io: nat, w: nat, h: nat, bpp: nat)
    requires out == input ==> oo <= io
    requires 8 * oo + Times(LineBits(bpp, w), h) <= 8 * out.Length && io + Times(LineBytes(bpp, w), h) <= input.Length
    modifies out
    ensures OnlyBitsAt(old(Unpack(out[..])), Unpack(out[..]), 8 * oo, Times(LineBits(bpp, w), h))
    ensures AreaAt(Unpack(out[..]), oo, w, h, bpp) == UnpadLines(LinesAt(old(input[..]), io, w, h, bpp), w, h, bpp)
  {
    LinesFit(input[..], io, w, h, bpp);
    LinesUnpack(input[..], io, w, h, bpp);
    ghost var before, lines := Unpack(out[..]), LinesAt(input[..], io, w, h, bpp);
    assert UnpadLines(lines, w, h, bpp) == Unpadded(Unpack(lines), LineBits(bpp, w), 8 * LineBytes(bpp, w), h);
    hide *;
    PackBits(out, oo, input, io, LineBits(bpp, w), LineBytes(bpp, w), h, Unpack(lines));
    AreaPlace(before, Unpack(out[..]), oo, UnpadLines(lines, w, h, bpp), w, h, bpp);
  }

  /** Drops the padding of h lines of linebytes bytes. */
  method PackBits(out: array<Byte>, oo: nat, input: array<Byte>, io: nat, linebits: nat, linebytes: nat, h: nat,
                  ghost padded: seq<Bit>)
    requires linebits <= 8 * linebytes && (out == input ==> oo <= io)
    requires 8 * oo + Times(linebits, h) <= 8 * out.Length && 8 * io + Times(8 * linebytes, h) <= 8 * input.Length
    requires padded == Unpack(input[..])[8 * io..8 * io + Times(8 * linebytes, h)]
    modifies out
    ensures Written(old(Unpack(out[..])), Unpack(out[..]), 8 * oo, Unpadded(padded, linebits, 8 * linebytes, h))
  {
    hide *;
    RemovePaddingBits(out, oo, input, io, linebits, 8 * linebytes, h);
  }

  lemma LinesFit(mem: seq<Byte>, io: nat, w: nat, h: nat, bpp: nat)
    requires io + Times(LineBytes(bpp, w), h) <= |mem|
    ensures LineBits(bpp, w) <= 8 * LineBytes(bpp, w) && Times(8 * LineBytes(bpp, w), h) == 8 * Times(LineBytes(bpp, w), h)
  {
    TimesEight(LineBytes(bpp, w), h);
  }

  lemma LinesUnpack(mem: seq<Byte>, io: nat, w: nat, h: nat, bpp: nat)
    requires io + Times(LineBytes(bpp, w), h) <= |mem|
    requires Times(8 * LineBytes(bpp, w), h) == 8 * Times(LineBytes(bpp, w), h)
    ensures Unpack(mem)[8 * io..8 * io + Times(8 * LineBytes(bpp, w), h)] == Unpack(LinesAt(mem, io, w, h, bpp))
  {
    hide Times;
    hide LineBytes;
    hide Unpack;
    UnpackSlice(mem, io, Times(LineBytes(bpp, w), h));
  }

  lemma AreaPlace(before: seq<Bit>, now: seq<Bit>, oo: nat, area: seq<Bit>, w: nat, h: nat, bpp: nat)
    requires |area| == Times(LineBits(bpp, w), h) && Written(before, now, 8 * oo, area)
    ensures OnlyBitsAt(before, now, 8 * oo, Times(LineBits(bpp, w), h)) && AreaAt(now, oo, w, h, bpp) == area
  {
  }

  /** Decodes an image without interlacing. */
  method PostPlain(out: array<Byte>, input: array<Byte>, w: nat, h: nat, bpp: nat) returns (error: int)
    requires out != input && LegalBpp(bpp) && w > 0
    requires input.Length == FilteredBytes(w, h, bpp) && PixelBits(w, h, bpp) <= 8 * out.Length
    modifies out, input
    ensures error == 0 <==> Meaning(old(input[..]), w, h, bpp).Some?
    ensures error == 0 ==> Represents(old(input[..]), w, h, bpp, false, Unpack(out[..])[..PixelBits(w, h, bpp)])
  {
    NeedsPadding(w, bpp);
    TimesAssoc(bpp, w, h);
    TimesEight(LineBytes(bpp, w), h);
    FilterBytes(LineBytes(bpp, w), h);
    ghost var data := input[..];
    assert DataAt(data, 0, w, h, bpp) == data;
    hide Times;
    hide LineBits;
    hide LineBytes;
    hide Unpack;
    hide Meaning;
    hide UnpadLines;
    hide AreaAt;
    hide LinesAt;
    hide DataAt;
    hide Represents;
    hide OnlyAt;
    hide OnlyBitsAt;
    var linebits, linebytes := LineBits(bpp, w), LineBytes(bpp, w);
    if bpp < 8 && linebits != 8 * linebytes {
      error := UnfilterImage(input, 0, input, 0, w, h, bpp);
      if error != 0 { return; }
      PackLines(out, 0, input, 0, w, h, bpp);
    } else {
      error := UnfilterImage(out, 0, input, 0, w, h, bpp);
      if error != 0 { return; }
      WholeLines(out[..], 0, w, h, bpp);
    }
    PlainRepresents(data, w, h, bpp, Unpack(out[..]));
  }

  // ---- decoding in place, pass by pass ----

  /** The data of the passes from byte p on have not been touched. */
  ghost predicate Ahead(mem: seq<Byte>, data: seq<Byte>, p: nat)
  {
    p <= |mem| == |data| && mem[p..] == data[p..]
  }

  lemma AheadBytes(before: seq<Byte>, now: seq<Byte>, data: seq<Byte>, p: nat, q: nat, at: nat, n: nat)
    requires Ahead(before, data, p) && OnlyAt(before, now, at, n) && p <= q <= |data| && at + n <= q
    ensures Ahead(now, data, q)
  {
    assert now[q..] == now[at + n..][q - (at + n)..];
    assert before[q..] == before[at + n..][q - (at + n)..];
    assert before[q..] == before[p..][q - p..] && data[q..] == data[p..][q - p..];
  }

  /** The same when bits have changed. */
  lemma AheadBits(before: seq<Byte>, now: seq<Byte>, data: seq<Byte>, q: nat, at: nat, n: nat)
    requires Ahead(before, data, q) && OnlyBitsAt(Unpack(before), Unpack(now), at, n) && at + n <= 8 * q
    ensures Ahead(now, data, q)
  {
    assert |now| == |before|;
    UnpackSlice(before, q, |before| - q);
    UnpackSlice(now, q, |now| - q);
    var a, b := Unpack(now), Unpack(before);
    hide Unpack;
    assert a[8 * q..] == a[at + n..][8 * q - (at + n)..];
    assert b[8 * q..] == b[at + n..][8 * q - (at + n)..];
    assert a[8 * q..8 * |now|] == a[8 * q..] && b[8 * q..8 * |before|] == b[8 * q..];
    UnpackInjective(now[q..|now|], before[q..|before|]);
    assert now[q..|now|] == now[q..] && before[q..|before|] == before[q..];
  }

  /** The bits before p have not been touched. */
  ghost predicate Behind(before: seq<Bit>, now: seq<Bit>, p: nat)
  {
    p <= |before| == |now| && now[..p] == before[..p]
  }

  lemma BehindBytes(before: seq<Byte>, now: seq<Byte>, p: nat, at: nat, n: nat)
    requires OnlyAt(before, now, at, n) && p <= at
    ensures Behind(Unpack(before), Unpack(now), 8 * p)
  {
    assert now[0..p] == now[..at][..p] && before[0..p] == before[..at][..p];
    UnpackSlice(before, 0, p);
    UnpackSlice(now, 0, p);
    var a, b := Unpack(now), Unpack(before);
    hide Unpack;
    assert a[0..8 * p] == a[..8 * p] && b[0..8 * p] == b[..8 * p];
  }

  /** A pass that is already packed stays so. */
  lemma PackedBehind(data: seq<Byte>, before: seq<Bit>, now: seq<Bit>, w: nat, h: nat, bpp: nat, i: nat, j: nat)
    requires LegalBpp(bpp) && j < i < PASSES && PassPacked(data, before, w, h, bpp, j)
    requires Behind(before, now, 8 * PackedStart(w, h, bpp, i))
    ensures PassPacked(data, now, w, h, bpp, j)
  {
    AreaEnds(w, h, bpp, i, j);
    hide PassW;
    hide PassH;
    hide Times;
    hide LineBits;
    hide Meaning;
    hide PassData;
    hide PackedStart;
    hide FilteredStart;
    hide Behind;
    hide AreaAt;
    AreaBehind(before, now, PackedStart(w, h, bpp, j), PassW(w, h, j), PassH(w, h, j), bpp, 8 * PackedStart(w, h, bpp, i));
  }

  lemma AreaEnds(w: nat, h: nat, bpp: nat, i: nat, j: nat)
    requires j < i <= PASSES
    ensures 8 * PackedStart(w, h, bpp, j) + Times(LineBits(bpp, PassW(w, h, j)), PassH(w, h, j)) <= 8 * PackedStart(w, h, bpp, i)
  {
    PassBits(w, h, bpp, j);
    StartsGrow(w, h, bpp, j + 1, i);
    hide PassW;
    hide PassH;
    hide PassCells;
    hide Times;
    hide LineBits;
  }

  lemma AreaBehind(before: seq<Bit>, now: seq<Bit>, at: nat, w: nat, h: nat, bpp: nat, p: nat)
    requires Behind(before, now, p) && 8 * at + Times(LineBits(bpp, w), h) <= p
    ensures |now| == |before| >= p && AreaAt(now, at, w, h, bpp) == AreaAt(before, at, w, h, bpp)
  {
    var a, n := 8 * at, Times(LineBits(bpp, w), h);
    hide Times;
    hide LineBits;
    SliceOfSlice(before, 0, p, a, n);
    SliceOfSlice(now, 0, p, a, n);
    assert before[0..p] == before[..p] && now[0..p] == now[..p];
  }

  lemma PassesPackedBehind(data: seq<Byte>, before: seq<Bit>, now: seq<Bit>, w: nat, h: nat, bpp: nat, i: nat)
    requires LegalBpp(bpp) && i < PASSES && PassesPacked(data, before, w, h, bpp, i) && PassPacked(data, now, w, h, bpp, i)
    requires Behind(before, now, 8 * PackedStart(w, h, bpp, i))
    ensures PassesPacked(data, now, w, h, bpp, i + 1)
  {
    hide PassPacked;
    hide Behind;
    forall j: nat | j < i ensures PassPacked(data, now, w, h, bpp, j) {
      PackedBehind(data, before, now, w, h, bpp, i, j);
    }
  }

  /** Where pass i is reconstructed and packed: behind what is still to be read, ahead of what is done. */
  lemma PassOrderIn(w: nat, h: nat, bpp: nat, l: Layout, i: nat)
    requires LegalBpp(bpp) && LayoutOf(l, w, h, bpp) && i < PASSES
    ensures l.packed[i] <= l.padded[i] <= l.filtered[i]
    ensures l.padded[i] + Times(LineBytes(bpp, PassW(w, h, i)), PassH(w, h, i)) <= FilteredStart(w, h, bpp, i + 1)
    ensures 8 * l.packed[i] + Times(LineBits(bpp, PassW(w, h, i)), PassH(w, h, i)) <= 8 * FilteredStart(w, h, bpp, i + 1)
  {
    StartsOrdered(w, h, bpp, i);
    StartsOrdered(w, h, bpp, i + 1);
    PassBits(w, h, bpp, i);
    hide PassW;
    hide PassH;
    hide PassCells;
    hide Times;
  }

  /** The data of pass i, if they have not been touched. */
  lemma DataAhead(mem: seq<Byte>, data: seq<Byte>, w: nat, h: nat, bpp: nat, i: nat)
    requires i < PASSES && Ahead(mem, data, FilteredStart(w, h, bpp, i)) && FilteredStart(w, h, bpp, i + 1) <= |data|
    ensures FilteredStart(w, h, bpp, i) + FilteredBytes(PassW(w, h, i), PassH(w, h, i), bpp) <= |mem|
    ensures DataAt(mem, FilteredStart(w, h, bpp, i), PassW(w, h, i), PassH(w, h, i), bpp) == PassData(data, w, h, bpp, i)
  {
    var p, n := FilteredStart(w, h, bpp, i), FilteredBytes(PassW(w, h, i), PassH(w, h, i), bpp);
    assert FilteredStart(w, h, bpp, i + 1) == p + n;
    hide FilteredStart;
    hide FilteredBytes;
    assert mem[p..p + n] == mem[p..][..n] && data[p..p + n] == data[p..][..n];
  }

  /** Reconstructs and packs pass i inside the buffer that holds all passes. */
  method UnfilterPass(input: array<Byte>, w: nat, h: nat, bpp: nat, l: Layout, i: nat, ghost data: seq<Byte>)
    returns (error: int)
    requires LegalBpp(bpp) && LayoutOf(l, w, h, bpp) && i < PASSES && |data| == FilteredStart(w, h, bpp, PASSES)
    requires Ahead(input[..], data, FilteredStart(w, h, bpp, i)) && FilteredStart(w, h, bpp, i + 1) <= |data|
    modifies input
    ensures error == 0 <==> Meaning(PassData(data, w, h, bpp, i), PassW(w, h, i), PassH(w, h, i), bpp).Some?
    ensures error == 0 ==> Ahead(input[..], data, FilteredStart(w, h, bpp, i + 1))
    ensures error == 0 ==> Behind(old(Unpack(input[..])), Unpack(input[..]), 8 * PackedStart(w, h, bpp, i))
    ensures error == 0 ==> PassPacked(data, Unpack(input[..]), w, h, bpp, i)
  {
    PassFits(w, h, bpp, l, i);
    PassOrderIn(w, h, bpp, l, i);
    DataAhead(input[..], data, w, h, bpp, i);
    var pw, ph, filtered, padded, start := l.passw[i], l.passh[i], l.filtered[i], l.padded[i], l.packed[i];
    ghost var before, next := input[..], FilteredStart(w, h, bpp, i + 1);
    assert |before| == |data|;
    hide LayoutOf;
    hide PassW;
    hide PassH;
    hide Times;
    hide LineBits;
    hide LineBytes;
    hide FilteredBytes;
    hide FilteredStart;
    hide PackedStart;
    hide PaddedStart;
    hide PassData;
    hide Unpack;
    hide Meaning;
    hide UnpadLines;
    hide AreaAt;
    hide LinesAt;
    hide DataAt;
    hide OnlyAt;
    hide Ahead;
    hide Behind;
    hide PassPacked;
    error := UnfilterImage(input, padded, input, filtered, pw, ph, bpp);
    if error != 0 { return; }
    ghost var mid := input[..];
    AheadBytes(before, mid, data, filtered, next, padded, Times(LineBytes(bpp, pw), ph));
    BehindBytes(before, mid, start, padded, Times(LineBytes(bpp, pw), ph));
    PackPass(input, w, h, bpp, i, padded, start, data);
    BehindTwice(Unpack(before), Unpack(mid), Unpack(input[..]), 8 * start);
  }

  /** Packs the reconstructed lines of pass i; whole-byte pixels are in place already. */
  method PackPass(input: array<Byte>, w: nat, h: nat, bpp: nat, i: nat, padded: nat, start: nat, ghost data: seq<Byte>)
    requires LegalBpp(bpp) && i < PASSES && start == PackedStart(w, h, bpp, i) <= padded == PaddedStart(w, h, bpp, i)
    requires FilteredStart(w, h, bpp, i + 1) <= |data| && Ahead(input[..], data, FilteredStart(w, h, bpp, i + 1))
    requires padded + Times(LineBytes(bpp, PassW(w, h, i)), PassH(w, h, i)) <= input.Length
    requires 8 * start + Times(LineBits(bpp, PassW(w, h, i)), PassH(w, h, i)) <= 8 * FilteredStart(w, h, bpp, i + 1)
    requires Meaning(PassData(data, w, h, bpp, i), PassW(w, h, i), PassH(w, h, i), bpp)
          == Some(UnpadLines(LinesAt(input[..], padded, PassW(w, h, i), PassH(w, h, i), bpp), PassW(w, h, i), PassH(w, h, i), bpp))
    modifies input
    ensures Ahead(input[..], data, FilteredStart(w, h, bpp, i + 1))
    ensures Behind(old(Unpack(input[..])), Unpack(input[..]), 8 * PackedStart(w, h, bpp, i))
    ensures PassPacked(data, Unpack(input[..]), w, h, bpp, i)
  {
    ghost var before, next := input[..], FilteredStart(w, h, bpp, i + 1);
    var pw, ph := PassW(w, h, i), PassH(w, h, i);
    assert |before| == |data|;
    hide PassW;
    hide PassH;
    hide Times;
    hide LineBits;
    hide LineBytes;
    hide FilteredStart;
    hide PackedStart;
    hide PaddedStart;
    hide PassData;
    hide Unpack;
    hide Meaning;
    hide UnpadLines;
    hide AreaAt;
    hide LinesAt;
    hide Ahead;
    if bpp < 8 {
      PackLines(input, start, input, padded, pw, ph, bpp);
      AheadBits(before, input[..], data, next, 8 * start, Times(LineBits(bpp, pw), ph));
    } else {
      WholePass(w, h, bpp, i);
      WholeLines(input[..], padded, pw, ph, bpp);
    }
  }

  lemma BehindTwice(a: seq<Bit>, b: seq<Bit>, c: seq<Bit>, p: nat)
    requires Behind(a, b, p) && Behind(b, c, p)
    ensures Behind(a, c, p)
  {
  }

  /** Reconstructs and packs all passes. */
  method UnfilterPasses(input: array<Byte>, w: nat, h: nat, bpp: nat, l: Layout) returns (error: int)
    requires LegalBpp(bpp) && LayoutOf(l, w, h, bpp) && input.Length == FilteredStart(w, h, bpp, PASSES)
    modifies input
    ensures error == 0 <==> WellFiltered(old(input[..]), w, h, bpp, true)
    ensures error == 0 ==> PassesPacked(old(input[..]), Unpack(input[..]), w, h, bpp, PASSES)
  {
    hide LayoutOf;
    hide PassW;
    hide PassH;
    hide Unpack;
    hide PassPacked;
    hide PackedStart;
    hide Meaning;
    hide PassData;
    ghost var data := input[..];
    error := 0;
    NothingRead(data, Unpack(data), w, h, bpp);
    hide FilteredStart;
    hide Ahead;
    hide Behind;
    hide PassesPacked;
    hide PassesGood;
    hide WellFiltered;
    for i := 0 to PASSES
      invariant Ahead(input[..], data, FilteredStart(w, h, bpp, i))
      invariant PassesPacked(data, Unpack(input[..]), w, h, bpp, i)
      invariant PassesGood(data, w, h, bpp, i)
      invariant i == PASSES ==> WellFiltered(data, w, h, bpp, true)
    {
      ghost var before := Unpack(input[..]);
      StartsGrow(w, h, bpp, i + 1, PASSES);
      error := UnfilterPass(input, w, h, bpp, l, i, data);
      GoodNext(data, w, h, bpp, i);
      if error != 0 { return; }
      PassesPackedBehind(data, before, Unpack(input[..]), w, h, bpp, i);
    }
  }

  method PostInterlaced(out: array<Byte>, input: array<Byte>, w: nat, h: nat, bpp: nat) returns (error: int)
    requires out != input && LegalBpp(bpp)
    requires input.Length == FilteredStart(w, h, bpp, PASSES) && PixelBits(w, h, bpp) <= 8 * out.Length
    modifies out, input
    ensures error == 0 <==> WellFiltered(old(input[..]), w, h, bpp, true)
    ensures error == 0 ==> Represents(old(input[..]), w, h, bpp, true, Unpack(out[..])[..PixelBits(w, h, bpp)])
  {
    ghost var data := input[..];
    var l := GetPassValues(w, h, bpp);
    GridsOk(w, h, bpp);
    StartsOrdered(w, h, bpp, PASSES);
    hide GridOk;
    hide Interlaced;
    hide LayoutOf;
    hide Unpack;
    hide PassPacked;
    hide Represents;
    hide PackedStart;
    hide PaddedStart;
    hide FilteredStart;
    hide PixelBits;
    hide BitGrid;
    hide WellFiltered;
    error := UnfilterPasses(input, w, h, bpp, l);
    if error == 0 {
      Deinterlace(out, input, w, h, bpp, l);
      PackedRepresents(data, Unpack(input[..]), w, h, bpp, Unpack(out[..]));
    }
  }

  ghost predicate PassesGood(data: seq<Byte>, w: nat, h: nat, bpp: nat, n: nat)
    requires bpp > 0 && n <= PASSES
  {
    forall i: nat :: i < n ==> PassGood(data, w, h, bpp, i)
  }

  /** One more good pass, or a bad one that spoils the whole. */
  lemma GoodNext(data: seq<Byte>, w: nat, h: nat, bpp: nat, i: nat)
    requires bpp > 0 && i < PASSES && PassesGood(data, w, h, bpp, i) && FilteredStart(w, h, bpp, i + 1) <= |data|
    ensures var good := Meaning(PassData(data, w, h, bpp, i), PassW(w, h, i), PassH(w, h, i), bpp).Some?;
            && (good ==> PassesGood(data, w, h, bpp, i + 1))
            && (good && i + 1 == PASSES ==> WellFiltered(data, w, h, bpp, true))
            && (!good ==> !WellFiltered(data, w, h, bpp, true))
  {
    hide Meaning;
    hide PassData;
    hide FilteredStart;
    assert PassGood(data, w, h, bpp, i) == Meaning(PassData(data, w, h, bpp, i), PassW(w, h, i), PassH(w, h, i), bpp).Some?;
  }

  lemma NothingRead(data: seq<Byte>, bits: seq<Bit>, w: nat, h: nat, bpp: nat)
    requires bpp > 0
    ensures PassesGood(data, w, h, bpp, 0)
    ensures Ahead(data, data, FilteredStart(w, h, bpp, 0)) && PassesPacked(data, bits, w, h, bpp, 0)
  {
  }

  ghost predicate PassGood(data: seq<Byte>, w: nat, h: nat, bpp: nat, i: nat)
    requires bpp > 0 && i < PASSES
  {
    && FilteredStart(w, h, bpp, i + 1) <= |data|
    && Meaning(PassData(data, w, h, bpp, i), PassW(w, h, i), PassH(w, h, i), bpp).Some?
  }

  /** The right size, and known filter types throughout. */
  ghost predicate WellFiltered(data: seq<Byte>, w: nat, h: nat, bpp: nat, interlaced: bool)
    requires bpp > 0
  {
    if interlaced then forall i: nat :: i < PASSES ==> PassGood(data, w, h, bpp, i) else Meaning(data, w, h, bpp).Some?
  }

  /** Turns scanline data into the pixel bits they represent; the only error is an unknown filter type. */
  method PostProcessScanlines(out: array<Byte>, input: array<Byte>, w: nat, h: nat, bpp: nat, interlaced: bool)
    returns (error: int)
    requires out != input && LegalBpp(bpp) && w > 0
    requires input.Length == DataSize(w, h, bpp, interlaced) && PixelBits(w, h, bpp) <= 8 * out.Length
    modifies out, input
    ensures error == 0 <==> WellFiltered(old(input[..]), w, h, bpp, interlaced)
    ensures error == 0 ==> Represents(old(input[..]), w, h, bpp, interlaced, Unpack(out[..])[..PixelBits(w, h, bpp)])
  {
    hide PixelBits;
    hide Represents;
    hide Meaning;
    hide PassGood;
    if interlaced {
      error := PostInterlaced(out, input, w, h, bpp);
    } else {
      error := PostPlain(out, input, w, h, bpp);
    }
  }

  // ---- round trip ----

  lemma RepresentsWell(data: seq<Byte>, w: nat, h: nat, bpp: nat, interlaced: bool, bits: seq<Bit>)
    requires bpp > 0 && Represents(data, w, h, bpp, interlaced, bits)
    ensures WellFiltered(data, w, h, bpp, interlaced) && |data| == DataSize(w, h, bpp, interlaced)
  {
    hide Meaning;
    hide PassShows;
    if interlaced {
      forall i: nat | i < PASSES ensures PassGood(data, w, h, bpp, i) {
        assert PassIs(data, w, h, bpp, i, bits);
      }
    }
  }

  /** Decoding undoes encoding on every pixel bit, interlaced or not, whatever filter each line got;
    it fails exactly when a filter type given in advance for a line is none of the five. */
  method ImageRoundTrip(input: array<Byte>, w: nat, h: nat, bpp: nat, interlaced: bool, strategy: Strategy)
    returns (error: int, raw: array<Byte>)
    requires LegalBpp(bpp) && w > 0 && PixelBits(w, h, bpp) <= 8 * input.Length && StrategyOk(strategy, h)
    ensures raw.Length == RawSize(w, h, bpp) && PixelBits(w, h, bpp) <= 8 * raw.Length
    ensures error == 0 <==> GoodFilters(strategy, w, h, interlaced)
    ensures error == 0 ==> Unpack(raw[..])[..PixelBits(w, h, bpp)] == Unpack(input[..])[..PixelBits(w, h, bpp)]
  {
    RawFits(w, h, bpp);
    hide Represents;
    hide WellFiltered;
    hide StrategyFollowed;
    hide StrategyOk;
    hide GoodFilters;
    hide Unpack;
    hide RawSize;
    hide PixelBits;
    var data := PreProcessScanlines(input, w, h, bpp, interlaced, strategy);
    ghost var scanlines, bits := data[..], Unpack(input[..])[..PixelBits(w, h, bpp)];
    if GoodFilters(strategy, w, h, interlaced) { RepresentsWell(scanlines, w, h, bpp, interlaced, bits); }
    raw := new Byte[RawSize(w, h, bpp)](_ => 0);
    error := PostProcessScanlines(raw, data, w, h, bpp, interlaced);
    if error == 0 {
      RepresentsOne(scanlines, w, h, bpp, interlaced, bits, Unpack(raw[..])[..PixelBits(w, h, bpp)]);
    }
  }

  lemma RawFits(w: nat, h: nat, bpp: nat)
    ensures PixelBits(w, h, bpp) <= 8 * RawSize(w, h, bpp)
  {
    RawSizeIs(w, h, bpp);
  }
}
