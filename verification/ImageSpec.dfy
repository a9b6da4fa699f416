/** What filtered, padded and possibly interlaced scanlines mean: the reference decoder for pixel bits. */
module ImageSpec {
  import opened Bits
  import opened MsbBits
  import opened ImageFilter
  import opened Padding
  import opened Adam7
  import opened PassLayout
  import opened Interlacing
  import opened InterlaceImage
  import opened InflateSpec

  /** Bytes per pixel for the filters, at least one. */
  function ByteWidth(bpp: nat): nat
  {
    (bpp + 7) / 8
  }

  /** A pixel's and a line's bytes are as few as hold their bits. */
  lemma FewestBytes(w: nat, bpp: nat)
    requires w > 0 && bpp > 0
    ensures 8 * (ByteWidth(bpp) - 1) < bpp <= 8 * ByteWidth(bpp)
    ensures 8 * (LineBytes(bpp, w) - 1) < w * bpp <= 8 * LineBytes(bpp, w)
  {
    assert LineBits(bpp, w) == w * bpp;
  }

  function FilteredBytes(w: nat, h: nat, bpp: nat): nat
  {
    Times(1 + LineBytes(bpp, w), h)
  }

  /** The pixel bits of one image: lines reconstructed, then their padding dropped. */
  function ImageBits(data: seq<Byte>, w: nat, h: nat, bpp: nat): (r: seq<Bit>)
    requires |data| == FilteredBytes(w, h, bpp) && bpp > 0
    ensures |r| == Times(LineBits(bpp, w), h)
  {
    TimesEight(LineBytes(bpp, w), h);
    Unpadded(Unpack(UnfilteredImage(data, LineBytes(bpp, w), ByteWidth(bpp), h)),
             LineBits(bpp, w), 8 * LineBytes(bpp, w), h)
  }

  ghost predicate ImageOk(data: seq<Byte>, w: nat, h: nat, bpp: nat)
    requires |data| == FilteredBytes(w, h, bpp)
  {
    TypesOk(data, LineBytes(bpp, w), h)
  }

  /** The lines x without their padding. */
  ghost function UnpadLines(x: seq<Byte>, w: nat, h: nat, bpp: nat): (r: seq<Bit>)
    requires |x| == Times(LineBytes(bpp, w), h)
    ensures |r| == Times(LineBits(bpp, w), h)
  {
    TimesEight(LineBytes(bpp, w), h);
    Unpadded(Unpack(x), LineBits(bpp, w), 8 * LineBytes(bpp, w), h)
  }

  /** What filtered data mean, if their size and filter types are right. */
  ghost function Meaning(data: seq<Byte>, w: nat, h: nat, bpp: nat): (r: Option<seq<Bit>>)
    requires bpp > 0
  {
    if |data| == FilteredBytes(w, h, bpp) && ImageOk(data, w, h, bpp) then Some(ImageBits(data, w, h, bpp)) else None
  }

  /** The filtered bytes, the padded lines and the packed bits of an image that starts at byte at. */
  function DataAt(mem: seq<Byte>, at: nat, w: nat, h: nat, bpp: nat): (r: seq<Byte>)
    requires at + FilteredBytes(w, h, bpp) <= |mem|
    ensures |r| == FilteredBytes(w, h, bpp)
  {
    mem[at..at + FilteredBytes(w, h, bpp)]
  }

  function LinesAt(mem: seq<Byte>, at: nat, w: nat, h: nat, bpp: nat): (r: seq<Byte>)
    requires at + Times(LineBytes(bpp, w), h) <= |mem|
    ensures |r| == Times(LineBytes(bpp, w), h)
  {
    mem[at..at + Times(LineBytes(bpp, w), h)]
  }

  function AreaAt(mem: seq<Bit>, at: nat, w: nat, h: nat, bpp: nat): (r: seq<Bit>)
    requires 8 * at + Times(LineBits(bpp, w), h) <= |mem|
    ensures |r| == Times(LineBits(bpp, w), h)
  {
    mem[8 * at..8 * at + Times(LineBits(bpp, w), h)]
  }

  /** The filtered bytes of pass i. */
  function PassData(data: seq<Byte>, w: nat, h: nat, bpp: nat, i: nat): (r: seq<Byte>)
    requires i < PASSES && FilteredStart(w, h, bpp, i + 1) <= |data|
    ensures |r| == FilteredBytes(PassW(w, h, i), PassH(w, h, i), bpp)
  {
    DataAt(data, FilteredStart(w, h, bpp, i), PassW(w, h, i), PassH(w, h, i), bpp)
  }

  /** The pixels of pass i, in scan order, are those of the image. */
  ghost predicate PassShows(p: seq<Bit>, g: Grid, i: nat, bits: seq<Bit>)
    requires i < PASSES
  {
    forall y: nat, x: nat :: PixelShows(p, g, i, y, x, bits)
  }

  ghost predicate PixelShows(p: seq<Bit>, g: Grid, i: nat, y: nat, x: nat, bits: seq<Bit>)
    requires i < PASSES
  {
    InPass(g.w, g.h, i, y, x) ==>
      var s, q := Times(g.k, Times(PassW(g.w, g.h, i), y) + x), Pixel(g, i, y, x);
      s + g.k <= |p| && q + g.k <= |bits| && p[s..s + g.k] == bits[q..q + g.k]
  }

  /** Every pass is well-formed and shows its pixels of the image. */
  ghost predicate PassIs(data: seq<Byte>, w: nat, h: nat, bpp: nat, i: nat, bits: seq<Bit>)
    requires bpp > 0 && i < PASSES
  {
    && FilteredStart(w, h, bpp, i + 1) <= |data|
    && match Meaning(PassData(data, w, h, bpp, i), PassW(w, h, i), PassH(w, h, i), bpp)
       case None => false
       case Some(p) => PassShows(p, BitGrid(w, h, bpp), i, bits)
  }

  function PixelBits(w: nat, h: nat, bpp: nat): nat
  {
    Times(bpp, Times(w, h))
  }

  function DataSize(w: nat, h: nat, bpp: nat, interlaced: bool): nat
  {
    if interlaced then FilteredStart(w, h, bpp, PASSES) else FilteredBytes(w, h, bpp)
  }

  /** The scanline data stand for the pixel bits of a w by h image. */
  ghost predicate Represents(data: seq<Byte>, w: nat, h: nat, bpp: nat, interlaced: bool, bits: seq<Bit>)
    requires bpp > 0
  {
    && |bits| == PixelBits(w, h, bpp) && |data| == DataSize(w, h, bpp, interlaced)
    && if interlaced then
         forall i: nat :: i < PASSES ==> PassIs(data, w, h, bpp, i, bits)
       else
         Meaning(data, w, h, bpp) == Some(bits)
  }

  // ---- the meaning is unique ----

  /** One cell of the image is shown by one pixel of one pass. */
  lemma CellShown(w: nat, h: nat, bpp: nat, c: nat) returns (i: nat, y: nat, x: nat, b: nat)
    requires c < PixelBits(w, h, bpp)
    ensures InPass(w, h, i, y, x) && b < bpp && c == Pixel(BitGrid(w, h, bpp), i, y, x) + b
    ensures BitGrid(w, h, bpp).w == w && BitGrid(w, h, bpp).h == h && BitGrid(w, h, bpp).k == bpp
  {
    var p;
    p, b := SplitTimes(c, bpp, Times(w, h));
    var line, col := SplitTimes(p, w, h);
    i, y, x := PassCovers(w, h, col, line);
  }

  lemma SameCell(data: seq<Byte>, w: nat, h: nat, bpp: nat, a: seq<Bit>, b: seq<Bit>, c: nat)
    requires bpp > 0 && Represents(data, w, h, bpp, true, a) && Represents(data, w, h, bpp, true, b)
    requires c < PixelBits(w, h, bpp)
    ensures a[c] == b[c]
  {
    var i, y, x, o := CellShown(w, h, bpp, c);
    hide InPass;
    hide Times;
    hide PassShows;
    hide PixelShows;
    hide Meaning;
    hide PassData;
    hide FilteredStart;
    hide BitGrid;
    hide DataSize;
    hide PixelBits;
    var g := BitGrid(w, h, bpp);
    assert PassIs(data, w, h, bpp, i, a) && PassIs(data, w, h, bpp, i, b);
    var p := Meaning(PassData(data, w, h, bpp, i), PassW(w, h, i), PassH(w, h, i), bpp).value;
    SamePixel(p, g, i, y, x, a, b, o);
  }

  lemma SamePixel(p: seq<Bit>, g: Grid, i: nat, y: nat, x: nat, a: seq<Bit>, b: seq<Bit>, o: nat)
    requires i < PASSES && PassShows(p, g, i, a) && PassShows(p, g, i, b) && InPass(g.w, g.h, i, y, x) && o < g.k
    ensures var c := Pixel(g, i, y, x) + o; c < |a| && c < |b| && a[c] == b[c]
  {
    hide InPass;
    hide Times;
    assert PixelShows(p, g, i, y, x, a) && PixelShows(p, g, i, y, x, b);
    var q := Pixel(g, i, y, x);
    assert a[q..q + g.k][o] == b[q..q + g.k][o];
  }

  /** Scanline data stand for at most one image. */
  lemma RepresentsOne(data: seq<Byte>, w: nat, h: nat, bpp: nat, interlaced: bool, a: seq<Bit>, b: seq<Bit>)
    requires bpp > 0 && Represents(data, w, h, bpp, interlaced, a) && Represents(data, w, h, bpp, interlaced, b)
    ensures a == b
  {
    hide PassIs;
    hide Meaning;
    if interlaced {
      forall c | 0 <= c < PixelBits(w, h, bpp) ensures a[c] == b[c] {
        SameCell(data, w, h, bpp, a, b, c);
      }
    }
  }

  // ---- from memory to meaning ----

  /** Filtered lines mean the padded bits they were made from. */
  lemma FilteredMeans(x: seq<Byte>, w: nat, h: nat, bpp: nat, types: seq<Byte>)
    requires bpp > 0 && |x| == Times(LineBytes(bpp, w), h) && |types| == h && forall y :: 0 <= y < h ==> types[y] <= 4
    ensures Meaning(FilteredImage(x, LineBytes(bpp, w), ByteWidth(bpp), types), w, h, bpp) == Some(UnpadLines(x, w, h, bpp))
  {
    var lb, bw := LineBytes(bpp, w), ByteWidth(bpp);
    hide Times;
    hide LineBytes;
    hide FilteredImage;
    hide UnfilteredImage;
    hide Unpack;
    hide Unpadded;
    var data := FilteredImage(x, lb, bw, types);
    UnfilterFilter(x, lb, bw, types, []);
    assert data + [] == data && x[..|x|] == x;
    forall y: nat | y < h ensures TypeAt(data, lb, h, y) <= 4 {
      FilteredTypes(x, lb, bw, types, [], y);
    }
  }

  /** Without padding bits, dropping them changes nothing. */
  lemma {:induction false} NothingDropped(bits: seq<Bit>, il: nat, h: nat)
    requires Times(il, h) <= |bits|
    ensures Unpadded(bits, il, il, h) == bits[..Times(il, h)]
    decreases h
  {
    NextRow(il, 0);
    if h > 0 {
      NextRow(il, h - 1);
      var a := Times(il, h - 1);
      NothingDropped(bits, il, h - 1);
      assert bits[..a] + bits[a..a + il] == bits[..a + il];
    }
  }

  /** A packed pass shows its pixels if the packed image does. */
  lemma PackedShows(packed: seq<Bit>, g: Grid, i: nat, bits: seq<Bit>)
    requires i < PASSES && GridOk(g) && Interlaced(g, packed, bits)
    requires g.starts[i] + PassCells(g, i) <= |packed|
    ensures PassShows(packed[g.starts[i]..g.starts[i] + PassCells(g, i)], g, i, bits)
  {
    hide PassW;
    hide PassH;
    hide Same;
    hide PixelShows;
    hide PassCells;
    hide Slot;
    var p := packed[g.starts[i]..g.starts[i] + PassCells(g, i)];
    forall y: nat, x: nat ensures PixelShows(p, g, i, y, x, bits) {
      assert Same(g, packed, bits, i, y, x);
      PackedPixel(packed, g, i, y, x, bits);
    }
  }

  lemma PackedPixel(packed: seq<Bit>, g: Grid, i: nat, y: nat, x: nat, bits: seq<Bit>)
    requires i < PASSES && GridOk(g) && Same(g, packed, bits, i, y, x)
    requires g.starts[i] + PassCells(g, i) <= |packed|
    ensures PixelShows(packed[g.starts[i]..g.starts[i] + PassCells(g, i)], g, i, y, x, bits)
  {
    hide PassW;
    hide PassH;
    if InPass(g.w, g.h, i, y, x) {
      SlotInside(g, i, y, x);
      hide Times;
      hide GridOk;
      hide InPass;
      hide PassCells;
      var s := Times(g.k, Times(PassW(g.w, g.h, i), y) + x);
      SliceOfSlice(packed, g.starts[i], PassCells(g, i), s, g.k);
    }
  }
}
