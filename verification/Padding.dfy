/** Padding bits between lines whose length is not a whole number of bytes. */
module Padding {
  import opened Bits
  import opened MsbBits
  import opened ImageFilter

  // ---- specification ----

  /** h lines of il bits with their last il - ol bits dropped. */
  function Unpadded(bits: seq<Bit>, ol: nat, il: nat, h: nat): (r: seq<Bit>)
    requires ol <= il && Times(il, h) <= |bits|
    ensures |r| == Times(ol, h)
  {
    NextRow(ol, 0);
    if h == 0 then []
    else
      NextRow(ol, h - 1);
      NextRow(il, h - 1);
      Unpadded(bits, ol, il, h - 1) + bits[Times(il, h - 1)..Times(il, h - 1) + ol]
  }

  /** h lines of il bits, each followed by ol - il zeros. */
  function Padded(bits: seq<Bit>, ol: nat, il: nat, h: nat): (r: seq<Bit>)
    requires il <= ol && Times(il, h) <= |bits|
    ensures |r| == Times(ol, h)
  {
    NextRow(ol, 0);
    if h == 0 then []
    else
      NextRow(ol, h - 1);
      NextRow(il, h - 1);
      Padded(bits, ol, il, h - 1) + (bits[Times(il, h - 1)..Times(il, h - 1) + il] + ZeroBits(ol - il))
  }

  /** Removing the padding undoes adding it. */
  lemma {:induction false} UnpaddedPadded(bits: seq<Bit>, ol: nat, il: nat, h: nat, rest: seq<Bit>)
    requires il <= ol && Times(il, h) <= |bits|
    ensures Unpadded(Padded(bits, ol, il, h) + rest, il, ol, h) == bits[..Times(il, h)]
    decreases h
  {
    NextRow(il, 0);
    if h > 0 {
      NextRow(il, h - 1);
      NextRow(ol, h - 1);
      var a, b := Times(il, h - 1), Times(ol, h - 1);
      var above := Padded(bits, ol, il, h - 1);
      var line := bits[a..a + il] + ZeroBits(ol - il);
      UnpaddedPadded(bits, ol, il, h - 1, line + rest);
      var all := Padded(bits, ol, il, h) + rest;
      assert all == above + (line + rest);
      assert all[b..b + il] == bits[a..a + il];
      assert bits[..a] + bits[a..a + il] == bits[..a + il];
    }
  }

  lemma {:induction false} TimesMonotone(a: nat, b: nat, n: nat)
    requires a <= b
    ensures Times(a, n) <= Times(b, n)
  {
    if n > 0 {
      NextRow(a, n - 1);
      NextRow(b, n - 1);
      TimesMonotone(a, b, n - 1);
    }
  }

  // ---- in memory ----

  /** The line to be read has not been written over. */
  lemma LineIntact(before: seq<Bit>, now: seq<Bit>, same: bool, input: seq<Bit>, obp: nat, done: seq<Bit>,
                   ibp: nat, bits: seq<Bit>, at: nat, n: nat)
    requires Written(before, now, obp, done) && (same ==> now == input && obp + |done| <= ibp + at)
    requires ibp + |bits| <= |input| && bits == (if same then before else input)[ibp..ibp + |bits|]
    requires at + n <= |bits|
    ensures input[ibp + at..ibp + at + n] == bits[at..at + n]
  {
    var w, d := input[ibp + at..ibp + at + n], bits[at..at + n];
    forall k | 0 <= k < n ensures w[k] == d[k] {
      assert bits[at + k] == (if same then before else input)[ibp..ibp + |bits|][at + k];
    }
  }

  lemma NoLines(mem: seq<Bit>, at: nat, bits: seq<Bit>, ol: nat, il: nat)
    requires at <= |mem|
    ensures Times(il, 0) == 0 == Times(ol, 0)
    ensures ol <= il ==> Written(mem, mem, at, Unpadded(bits, ol, il, 0))
    ensures il <= ol ==> Written(mem, mem, at, Padded(bits, ol, il, 0))
  {
  }

  /** Also within one array, when the output starts no later than the input. */
  method RemovePaddingBits(out: array<Byte>, oo: nat, input: array<Byte>, io: nat, olinebits: nat, ilinebits: nat, h: nat)
    requires olinebits <= ilinebits && (out == input ==> oo <= io)
    requires 8 * oo + Times(olinebits, h) <= 8 * out.Length && 8 * io + Times(ilinebits, h) <= 8 * input.Length
    modifies out
    ensures Written(old(Unpack(out[..])), Unpack(out[..]), 8 * oo,
                    Unpadded(old(Unpack(input[..]))[8 * io..8 * io + Times(ilinebits, h)], olinebits, ilinebits, h))
  {
    hide Unpack;
    hide Written;
    ghost var before := Unpack(out[..]);
    ghost var bits := Unpack(input[..])[8 * io..8 * io + Times(ilinebits, h)];
    NoLines(before, 8 * oo, bits, olinebits, ilinebits);
    var diff := ilinebits - olinebits;
    var ibp, obp := 8 * io, 8 * oo;
    for y := 0 to h
      invariant Times(ilinebits, y) <= |bits| && obp == 8 * oo + Times(olinebits, y) && ibp == 8 * io + Times(ilinebits, y)
      invariant Written(before, Unpack(out[..]), 8 * oo, Unpadded(bits, olinebits, ilinebits, y))
      invariant out != input ==> bits == Unpack(input[..])[8 * io..8 * io + Times(ilinebits, h)]
    {
      RowInside(olinebits, y, h);
      RowInside(ilinebits, y, h);
      NextRow(olinebits, y);
      NextRow(ilinebits, y);
      TimesMonotone(olinebits, ilinebits, y);
      hide Times;
      RemoveLine(out, oo, input, io, obp, ibp, olinebits, ilinebits, y, before, bits);
      obp := obp + olinebits;
      ibp := ibp + olinebits + diff;
    }
  }

  method RemoveLine(out: array<Byte>, ghost oo: nat, input: array<Byte>, ghost io: nat, obp: nat, ibp: nat, olinebits: nat,
                    ghost ilinebits: nat, ghost y: nat, ghost before: seq<Bit>, ghost bits: seq<Bit>)
    requires olinebits <= ilinebits && Times(ilinebits, y + 1) == Times(ilinebits, y) + ilinebits <= |bits|
    requires obp == 8 * oo + Times(olinebits, y) && ibp == 8 * io + Times(ilinebits, y)
    requires obp + olinebits <= 8 * out.Length && ibp + ilinebits <= 8 * input.Length && 8 * io + |bits| <= 8 * input.Length
    requires out == input ==> obp <= ibp
    requires Written(before, Unpack(out[..]), 8 * oo, Unpadded(bits, olinebits, ilinebits, y))
    requires bits == (if out == input then before else Unpack(input[..]))[8 * io..8 * io + |bits|]
    modifies out
    ensures Written(before, Unpack(out[..]), 8 * oo, Unpadded(bits, olinebits, ilinebits, y + 1))
    ensures out != input ==> input[..] == old(input[..])
  {
    hide Unpack;
    hide Written;
    hide Times;
    ghost var now, done := Unpack(out[..]), Unpadded(bits, olinebits, ilinebits, y);
    LineIntact(before, now, out == input, Unpack(input[..]), 8 * oo, done, 8 * io, bits, Times(ilinebits, y), olinebits);
    CopyBits(out, obp, input, ibp, olinebits);
    WrittenPlace(before, now, 8 * oo, done);
    WrittenMore(before, now, 8 * oo, done, bits[Times(ilinebits, y)..Times(ilinebits, y) + olinebits], Unpack(out[..]));
  }

  method AddLine(out: array<Byte>, input: array<Byte>, ghost io: nat, obp: nat, ibp: nat, olinebits: nat, ilinebits: nat,
                 ghost y: nat, ghost before: seq<Bit>, ghost bits: seq<Bit>)
    requires ilinebits <= olinebits && out != input
    requires Times(ilinebits, y + 1) == Times(ilinebits, y) + ilinebits <= |bits|
    requires obp == Times(olinebits, y) && ibp == 8 * io + Times(ilinebits, y) && obp + olinebits <= 8 * out.Length
    requires 8 * io + |bits| <= 8 * input.Length && bits == Unpack(input[..])[8 * io..8 * io + |bits|]
    requires Written(before, Unpack(out[..]), 0, Padded(bits, olinebits, ilinebits, y))
    modifies out
    ensures Written(before, Unpack(out[..]), 0, Padded(bits, olinebits, ilinebits, y + 1))
  {
    hide Unpack;
    hide Written;
    hide Times;
    hide ZeroBits;
    ghost var now, done := Unpack(out[..]), Padded(bits, olinebits, ilinebits, y);
    var diff := olinebits - ilinebits;
    ghost var line := bits[Times(ilinebits, y)..Times(ilinebits, y) + ilinebits];
    SliceOfSlice(Unpack(input[..]), 8 * io, |bits|, Times(ilinebits, y), ilinebits);
    CopyBits(out, obp, input, ibp, ilinebits);
    ghost var mid := Unpack(out[..]);
    ClearBits(out, obp + ilinebits, diff);
    WrittenPlace(before, now, 0, done);
    TwoPieces(now, mid, obp, line, ZeroBits(diff), Unpack(out[..]));
    WrittenMore(before, now, 0, done, line + ZeroBits(diff), Unpack(out[..]));
  }

  /** The opposite; the padding is cleared. */
  method AddPaddingBits(out: array<Byte>, input: array<Byte>, io: nat, olinebits: nat, ilinebits: nat, h: nat)
    requires ilinebits <= olinebits && out != input
    requires Times(olinebits, h) <= 8 * out.Length && 8 * io + Times(ilinebits, h) <= 8 * input.Length
    modifies out
    ensures Written(old(Unpack(out[..])), Unpack(out[..]), 0,
                    Padded(Unpack(input[..])[8 * io..8 * io + Times(ilinebits, h)], olinebits, ilinebits, h))
  {
    hide Unpack;
    hide Written;
    ghost var before := Unpack(out[..]);
    ghost var bits := Unpack(input[..])[8 * io..8 * io + Times(ilinebits, h)];
    NoLines(before, 0, bits, olinebits, ilinebits);
    var diff := olinebits - ilinebits;
    var ibp, obp := 8 * io, 0;
    for y := 0 to h
      invariant Times(ilinebits, y) <= |bits| && obp == Times(olinebits, y) && ibp == 8 * io + Times(ilinebits, y)
      invariant Written(before, Unpack(out[..]), 0, Padded(bits, olinebits, ilinebits, y))
    {
      RowInside(olinebits, y, h);
      RowInside(ilinebits, y, h);
      NextRow(olinebits, y);
      NextRow(ilinebits, y);
      hide Times;
      AddLine(out, input, io, obp, ibp, olinebits, ilinebits, y, before, bits);
      obp := obp + ilinebits + diff;
      ibp := ibp + ilinebits;
    }
  }

  lemma TwoPieces(now: seq<Bit>, mid: seq<Bit>, at: nat, a: seq<Bit>, b: seq<Bit>, after: seq<Bit>)
    requires at + |a| + |b| <= |now|
    requires mid == now[..at] + a + now[at + |a|..] && after == mid[..at + |a|] + b + mid[at + |a| + |b|..]
    ensures after == now[..at] + (a + b) + now[at + |a + b|..]
  {
    assert mid[..at + |a|] == now[..at] + a;
    assert mid[at + |a| + |b|..] == now[at + |a| + |b|..];
  }
}
