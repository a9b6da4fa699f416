/** Interlacing and deinterlacing in memory, with the source's two branches: bit by bit, and by whole bytes. */
module InterlaceImage {
  import opened Bits
  import opened ImageFilter
  import opened MsbBits
  import opened Adam7
  import opened PassLayout
  import opened Interlacing

  /** Bits per pixel of the colour modes of PNG. */
  predicate LegalBpp(bpp: nat)
  {
    bpp == 1 || bpp == 2 || bpp == 4 || bpp == 8 || bpp == 16 || bpp == 24 || bpp == 32 || bpp == 48 || bpp == 64
  }

  function BitGrid(w: nat, h: nat, bpp: nat): Grid
  {
    Grid(w, h, bpp, seq(PASSES + 1, i requires 0 <= i <= PASSES => 8 * PackedStart(w, h, bpp, i)))
  }

  function ByteGrid(w: nat, h: nat, bpp: nat): Grid
  {
    Grid(w, h, bpp / 8, seq(PASSES + 1, i requires 0 <= i <= PASSES => PackedStart(w, h, bpp, i)))
  }

  lemma TimesAssoc(a: nat, b: nat, c: nat)
    ensures Times(Times(a, b), c) == Times(a, Times(b, c))
  {
    assert (a * b) * c == a * (b * c);
  }

  /** The bits of a packed pass. */
  lemma PassBits(w: nat, h: nat, bpp: nat, i: nat)
    requires i < PASSES
    ensures Times(LineBits(bpp, PassW(w, h, i)), PassH(w, h, i)) == PassCells(BitGrid(w, h, bpp), i)
    ensures PassCells(BitGrid(w, h, bpp), i) <= 8 * PackedSize(w, h, bpp, i)
    ensures bpp % 8 == 0 ==> 8 * PassCells(ByteGrid(w, h, bpp), i) == PassCells(BitGrid(w, h, bpp), i)
    ensures bpp % 8 == 0 ==> PackedSize(w, h, bpp, i) == PassCells(ByteGrid(w, h, bpp), i)
  {
    hide PassW;
    hide PassH;
    var pw, ph := PassW(w, h, i), PassH(w, h, i);
    TimesAssoc(bpp, pw, ph);
    TimesEight(bpp / 8, Times(pw, ph));
  }

  lemma GridsOk(w: nat, h: nat, bpp: nat)
    requires LegalBpp(bpp)
    ensures GridOk(BitGrid(w, h, bpp)) && (bpp >= 8 ==> GridOk(ByteGrid(w, h, bpp)))
  {
    hide PassCells;
    hide PackedSize;
    forall i: nat | i < PASSES
      ensures var g := BitGrid(w, h, bpp); g.starts[i] + PassCells(g, i) <= g.starts[i + 1]
      ensures var g := ByteGrid(w, h, bpp); bpp >= 8 ==> g.starts[i] + PassCells(g, i) <= g.starts[i + 1]
    {
      PassBits(w, h, bpp, i);
    }
  }

  /** Moves n whole bytes. */
  method CopyBytes(out: array<Byte>, to: nat, input: array<Byte>, from: nat, n: nat)
    requires out != input && to + n <= out.Length && from + n <= input.Length
    modifies out
    ensures out[..] == old(out[..])[..to] + input[from..from + n] + old(out[..])[to + n..]
  {
    ghost var before := out[..];
    ghost var piece := input[from..from + n];
    hide Blit;
    BlitEnds(before, to, piece);
    for b := 0 to n
      invariant out[..] == Blit(before, to, piece, b)
    {
      BlitStep(before, to, piece, b);
      out[to + b] := input[from + b];
    }
  }

  /** Every place is inside its buffer. */
  lemma PlaceInside(g: Grid, i: nat, y: nat, x: nat, end: nat)
    requires GridOk(g) && InPass(g.w, g.h, i, y, x) && end == g.starts[PASSES]
    ensures Slot(g, i, y, x) + g.k <= end && Pixel(g, i, y, x) + g.k <= Times(g.k, Times(g.w, g.h))
  {
    hide PassCells;
    SlotInside(g, i, y, x);
    StartsAscend(g, i + 1, PASSES);
    PixelInside(g, i, y, x);
  }

  method PackPixelBits(out: array<Byte>, input: array<Byte>, w: nat, h: nat, bpp: nat, l: Layout, i: nat, y: nat, x: nat)
    requires out != input && LegalBpp(bpp) && bpp < 8 && LayoutOf(l, w, h, bpp) && GridOk(BitGrid(w, h, bpp))
    requires PackedStart(w, h, bpp, PASSES) <= out.Length && Times(bpp, Times(w, h)) <= 8 * input.Length
    requires i < PASSES && y < l.passh[i] && x < l.passw[i]
    requires SameBefore(BitGrid(w, h, bpp), Unpack(out[..]), Unpack(input[..]), i, y, x)
    modifies out
    ensures SameBefore(BitGrid(w, h, bpp), Unpack(out[..]), Unpack(input[..]), i, y, x + 1)
  {
    hide SameBefore;
    hide GridOk;
    hide PassW;
    hide PassH;
    hide Unpack;
    ghost var g, before := BitGrid(w, h, bpp), Unpack(out[..]);
    PlaceInside(g, i, y, x, 8 * PackedStart(w, h, bpp, PASSES));
    hide Times;
    var slot := 8 * l.packed[i] + Times(bpp, Times(l.passw[i], y) + x);
    var pixel := Times(bpp, Times(w, StartY(i) + y * StepY(i)) + StartX(i) + x * StepX(i));
    assert slot == Slot(g, i, y, x) && pixel == Pixel(g, i, y, x);
    hide Slot;
    hide Pixel;
    CopyBits(out, slot, input, pixel, bpp);
    PackStep(g, before, Unpack(input[..]), Unpack(out[..]), i, y, x);
  }

  method UnpackPixelBits(out: array<Byte>, input: array<Byte>, w: nat, h: nat, bpp: nat, l: Layout, i: nat, y: nat, x: nat)
    requires out != input && LegalBpp(bpp) && bpp < 8 && LayoutOf(l, w, h, bpp) && GridOk(BitGrid(w, h, bpp))
    requires PackedStart(w, h, bpp, PASSES) <= input.Length && Times(bpp, Times(w, h)) <= 8 * out.Length
    requires i < PASSES && y < l.passh[i] && x < l.passw[i]
    requires SameBefore(BitGrid(w, h, bpp), Unpack(input[..]), Unpack(out[..]), i, y, x)
    modifies out
    ensures SameBefore(BitGrid(w, h, bpp), Unpack(input[..]), Unpack(out[..]), i, y, x + 1)
  {
    hide SameBefore;
    hide GridOk;
    hide PassW;
    hide PassH;
    hide Unpack;
    ghost var g, before := BitGrid(w, h, bpp), Unpack(out[..]);
    PlaceInside(g, i, y, x, 8 * PackedStart(w, h, bpp, PASSES));
    hide Times;
    var slot := 8 * l.packed[i] + Times(bpp, Times(l.passw[i], y) + x);
    var pixel := Times(bpp, Times(w, StartY(i) + y * StepY(i)) + StartX(i) + x * StepX(i));
    assert slot == Slot(g, i, y, x) && pixel == Pixel(g, i, y, x);
    hide Slot;
    hide Pixel;
    CopyBits(out, pixel, input, slot, bpp);
    UnpackStep(g, Unpack(input[..]), before, Unpack(out[..]), i, y, x);
  }

  method PackPixelBytes(out: array<Byte>, input: array<Byte>, w: nat, h: nat, bpp: nat, l: Layout, i: nat, y: nat, x: nat)
    requires out != input && LegalBpp(bpp) && bpp >= 8 && LayoutOf(l, w, h, bpp) && GridOk(ByteGrid(w, h, bpp))
    requires PackedStart(w, h, bpp, PASSES) <= out.Length && Times(bpp / 8, Times(w, h)) <= input.Length
    requires i < PASSES && y < l.passh[i] && x < l.passw[i]
    requires SameBefore(ByteGrid(w, h, bpp), out[..], input[..], i, y, x)
    modifies out
    ensures SameBefore(ByteGrid(w, h, bpp), out[..], input[..], i, y, x + 1)
  {
    hide SameBefore;
    hide GridOk;
    hide PassW;
    hide PassH;
    hide Unpack;
    ghost var g, before := ByteGrid(w, h, bpp), out[..];
    PlaceInside(g, i, y, x, PackedStart(w, h, bpp, PASSES));
    hide Times;
    var slot := l.packed[i] + Times(bpp / 8, Times(l.passw[i], y) + x);
    var pixel := Times(bpp / 8, Times(w, StartY(i) + y * StepY(i)) + StartX(i) + x * StepX(i));
    assert slot == Slot(g, i, y, x) && pixel == Pixel(g, i, y, x);
    hide Slot;
    hide Pixel;
    CopyBytes(out, slot, input, pixel, bpp / 8);
    PackStep(g, before, input[..], out[..], i, y, x);
  }

  method UnpackPixelBytes(out: array<Byte>, input: array<Byte>, w: nat, h: nat, bpp: nat, l: Layout, i: nat, y: nat, x: nat)
    requires out != input && LegalBpp(bpp) && bpp >= 8 && LayoutOf(l, w, h, bpp) && GridOk(ByteGrid(w, h, bpp))
    requires PackedStart(w, h, bpp, PASSES) <= input.Length && Times(bpp / 8, Times(w, h)) <= out.Length
    requires i < PASSES && y < l.passh[i] && x < l.passw[i]
    requires SameBefore(ByteGrid(w, h, bpp), input[..], out[..], i, y, x)
    modifies out
    ensures SameBefore(ByteGrid(w, h, bpp), input[..], out[..], i, y, x + 1)
  {
    hide SameBefore;
    hide GridOk;
    hide PassW;
    hide PassH;
    hide Unpack;
    ghost var g, before := ByteGrid(w, h, bpp), out[..];
    PlaceInside(g, i, y, x, PackedStart(w, h, bpp, PASSES));
    hide Times;
    var slot := l.packed[i] + Times(bpp / 8, Times(l.passw[i], y) + x);
    var pixel := Times(bpp / 8, Times(w, StartY(i) + y * StepY(i)) + StartX(i) + x * StepX(i));
    assert slot == Slot(g, i, y, x) && pixel == Pixel(g, i, y, x);
    hide Slot;
    hide Pixel;
    CopyBytes(out, pixel, input, slot, bpp / 8);
    UnpackStep(g, input[..], before, out[..], i, y, x);
  }

  /** Pixels of less than a byte, with bit pointers. */
  method InterlaceBits(out: array<Byte>, input: array<Byte>, w: nat, h: nat, bpp: nat, l: Layout)
    requires out != input && LegalBpp(bpp) && bpp < 8 && LayoutOf(l, w, h, bpp) && GridOk(BitGrid(w, h, bpp))
    requires PackedStart(w, h, bpp, PASSES) <= out.Length && Times(bpp, Times(w, h)) <= 8 * input.Length
    modifies out
    ensures Interlaced(BitGrid(w, h, bpp), Unpack(out[..]), Unpack(input[..]))
  {
    ghost var g := BitGrid(w, h, bpp);
    hide GridOk;
    hide SameBefore;
    hide Interlaced;
    hide Unpack;
    hide Times;
    hide PassW;
    hide PassH;
    NothingDone(g, Unpack(out[..]), Unpack(input[..]));
    for i := 0 to PASSES
      invariant SameBefore(g, Unpack(out[..]), Unpack(input[..]), i, 0, 0)
    {
      for y := 0 to l.passh[i]
        invariant SameBefore(g, Unpack(out[..]), Unpack(input[..]), i, y, 0)
      {
        for x := 0 to l.passw[i]
          invariant SameBefore(g, Unpack(out[..]), Unpack(input[..]), i, y, x)
        {
          PackPixelBits(out, input, w, h, bpp, l, i, y, x);
        }
        RowDone(g, Unpack(out[..]), Unpack(input[..]), i, y, l.passw[i]);
      }
      PassDone(g, Unpack(out[..]), Unpack(input[..]), i, l.passh[i]);
    }
    AllDone(g, Unpack(out[..]), Unpack(input[..]));
  }

  /** The other way round. */
  method DeinterlaceBits(out: array<Byte>, input: array<Byte>, w: nat, h: nat, bpp: nat, l: Layout)
    requires out != input && LegalBpp(bpp) && bpp < 8 && LayoutOf(l, w, h, bpp) && GridOk(BitGrid(w, h, bpp))
    requires PackedStart(w, h, bpp, PASSES) <= input.Length && Times(bpp, Times(w, h)) <= 8 * out.Length
    modifies out
    ensures Interlaced(BitGrid(w, h, bpp), Unpack(input[..]), Unpack(out[..]))
  {
    ghost var g := BitGrid(w, h, bpp);
    hide GridOk;
    hide SameBefore;
    hide Interlaced;
    hide Unpack;
    hide Times;
    hide PassW;
    hide PassH;
    NothingDone(g, Unpack(input[..]), Unpack(out[..]));
    for i := 0 to PASSES
      invariant SameBefore(g, Unpack(input[..]), Unpack(out[..]), i, 0, 0)
    {
      for y := 0 to l.passh[i]
        invariant SameBefore(g, Unpack(input[..]), Unpack(out[..]), i, y, 0)
      {
        for x := 0 to l.passw[i]
          invariant SameBefore(g, Unpack(input[..]), Unpack(out[..]), i, y, x)
        {
          UnpackPixelBits(out, input, w, h, bpp, l, i, y, x);
        }
        RowDone(g, Unpack(input[..]), Unpack(out[..]), i, y, l.passw[i]);
      }
      PassDone(g, Unpack(input[..]), Unpack(out[..]), i, l.passh[i]);
    }
    AllDone(g, Unpack(input[..]), Unpack(out[..]));
  }

  /** Pixels of whole bytes. */
  method InterlaceBytes(out: array<Byte>, input: array<Byte>, w: nat, h: nat, bpp: nat, l: Layout)
    requires out != input && LegalBpp(bpp) && bpp >= 8 && LayoutOf(l, w, h, bpp) && GridOk(ByteGrid(w, h, bpp))
    requires PackedStart(w, h, bpp, PASSES) <= out.Length && Times(bpp / 8, Times(w, h)) <= input.Length
    modifies out
    ensures Interlaced(ByteGrid(w, h, bpp), out[..], input[..])
  {
    ghost var g := ByteGrid(w, h, bpp);
    hide GridOk;
    hide SameBefore;
    hide Interlaced;
    hide Unpack;
    hide Times;
    hide PassW;
    hide PassH;
    NothingDone(g, out[..], input[..]);
    for i := 0 to PASSES
      invariant SameBefore(g, out[..], input[..], i, 0, 0)
    {
      for y := 0 to l.passh[i]
        invariant SameBefore(g, out[..], input[..], i, y, 0)
      {
        for x := 0 to l.passw[i]
          invariant SameBefore(g, out[..], input[..], i, y, x)
        {
          PackPixelBytes(out, input, w, h, bpp, l, i, y, x);
        }
        RowDone(g, out[..], input[..], i, y, l.passw[i]);
      }
      PassDone(g, out[..], input[..], i, l.passh[i]);
    }
    AllDone(g, out[..], input[..]);
  }

  /** The other way round. */
  method DeinterlaceBytes(out: array<Byte>, input: array<Byte>, w: nat, h: nat, bpp: nat, l: Layout)
    requires out != input && LegalBpp(bpp) && bpp >= 8 && LayoutOf(l, w, h, bpp) && GridOk(ByteGrid(w, h, bpp))
    requires PackedStart(w, h, bpp, PASSES) <= input.Length && Times(bpp / 8, Times(w, h)) <= out.Length
    modifies out
    ensures Interlaced(ByteGrid(w, h, bpp), input[..], out[..])
  {
    ghost var g := ByteGrid(w, h, bpp);
    hide GridOk;
    hide SameBefore;
    hide Interlaced;
    hide Unpack;
    hide Times;
    hide PassW;
    hide PassH;
    NothingDone(g, input[..], out[..]);
    for i := 0 to PASSES
      invariant SameBefore(g, input[..], out[..], i, 0, 0)
    {
      for y := 0 to l.passh[i]
        invariant SameBefore(g, input[..], out[..], i, y, 0)
      {
        for x := 0 to l.passw[i]
          invariant SameBefore(g, input[..], out[..], i, y, x)
        {
          UnpackPixelBytes(out, input, w, h, bpp, l, i, y, x);
        }
        RowDone(g, input[..], out[..], i, y, l.passw[i]);
      }
      PassDone(g, input[..], out[..], i, l.passh[i]);
    }
    AllDone(g, input[..], out[..]);
  }
}
