/** What it means for written bits to be blocks that add given bytes, for each kind of block. */
module DeflateBlocks {
  import opened Bits
  import opened Canonical
  import opened InflateSpec
  import opened InflateTrees
  import opened DeflateSpec
  import opened DynamicHeader
  import opened InflateStream

  /** The bits from |before| to |after| are blocks that turn out0 into out1, whatever follows them. */
  ghost predicate Appends(before: seq<Bit>, out0: seq<Byte>, after: seq<Bit>, out1: seq<Byte>, final: bool)
  {
    && before <= after
    && forall s: seq<Bit>, ignore: bool {:trigger Blocks(s, |before|, out0, ignore)} :: after <= s ==>
         Blocks(s, |before|, out0, ignore) == if final then Some(out1) else Blocks(s, |after|, out1, ignore)
  }

  lemma AppendsNothing(bits: seq<Bit>, out: seq<Byte>)
    ensures Appends(bits, out, bits, out, false)
  {
    hide Blocks;
  }

  lemma AppendsMore(a: seq<Bit>, out0: seq<Byte>, b: seq<Bit>, out1: seq<Byte>, c: seq<Bit>, out2: seq<Byte>, final: bool)
    requires Appends(a, out0, b, out1, false) && Appends(b, out1, c, out2, final)
    ensures Appends(a, out0, c, out2, final)
  {
    hide Blocks;
  }

  /** The three bits before every block: final flag, then type. */
  function TypeBits(final: bool, btype: nat): (r: seq<Bit>)
    requires btype <= 2
  {
    [if final then 1 else 0, btype % 2, btype / 2]
  }

  lemma TypeDecode(final: bool, btype: nat, bits: seq<Bit>, pos: nat)
    requires btype <= 2 && At(bits, pos, TypeBits(final, btype))
    ensures pos + 3 <= |bits|
    ensures Peek(bits, pos, 1) == (if final then 1 else 0) && Peek(bits, pos + 1, 2) == btype
  {
    var w := bits[pos..pos + 3];
    assert bits[pos] == w[0] && bits[pos + 1] == w[1] && bits[pos + 2] == w[2];
    assert Peek(bits, pos, 1) == BitAt(bits, pos) + 2 * Peek(bits, pos + 1, 0);
    assert Peek(bits, pos + 2, 1) == BitAt(bits, pos + 2) + 2 * Peek(bits, pos + 3, 0);
  }

  /** Wherever body occurs at pos, it is the body of a block that turns out0 into out1. */
  ghost predicate Reads(pos: nat, out0: seq<Byte>, body: seq<Bit>, out1: seq<Byte>, btype: nat)
  {
    forall s: seq<Bit>, ignore: bool {:trigger Block(s, pos, btype, out0, ignore)} ::
      At(s, pos, body) ==> Block(s, pos, btype, out0, ignore) == Some((pos + |body|, out1))
  }

  /** One block, whose body the reference decoder takes from out0 to out1 wherever it occurs. */
  lemma BlockAppends(before: seq<Bit>, out0: seq<Byte>, body: seq<Bit>, out1: seq<Byte>, final: bool, btype: nat)
    requires btype <= 2
    requires Reads(|before| + 3, out0, body, out1, btype)
    ensures Appends(before, out0, before + TypeBits(final, btype) + body, out1, final)
  {
    hide Blocks;
    hide Block;
    hide Peek;
    hide TypeBits;
    var head := TypeBits(final, btype);
    assert |head| == 3 by { TypeBitsThree(final, btype); }
    var after := before + head + body;
    forall s: seq<Bit>, ignore: bool | after <= s
      ensures Blocks(s, |before|, out0, ignore) == if final then Some(out1) else Blocks(s, |after|, out1, ignore)
    {
      assert s[|before|..|before| + |head + body|] == head + body by { assert after[|before|..] == head + body; }
      AtConcat(s, |before|, head, body);
      TypeDecode(final, btype, s, |before|);
      BlocksUnfold(s, |before|, out0, ignore);
    }
  }

  lemma TypeBitsThree(final: bool, btype: nat)
    requires btype <= 2
    ensures |TypeBits(final, btype)| == 3
  {
  }

  // ---- compressed blocks ----

  ghost function DataBits(ll: seq<nat>, d: seq<nat>, values: seq<nat>): (r: seq<Bit>)
    requires Coded(ll, d, values) && |ll| > 256
  {
    ValuesBits(ll, d, values) + SymBits(ll, 256)
  }

  lemma FixedAppends(before: seq<Bit>, out0: seq<Byte>, values: seq<nat>, final: bool)
    requires Lz77.Expand(values, out0).Some? && Coded(FixedLitLen(), FixedDistance(), values)
    ensures Appends(before, out0, before + TypeBits(final, 1) + DataBits(FixedLitLen(), FixedDistance(), values),
                    Lz77.Expand(values, out0).value, final)
  {
    hide Symbols;
    hide ValuesBits;
    hide SymBits;
    hide Coded;
    hide Kraft;
    hide TypeBits;
    hide Appends;
    hide Lz77.Expand;
    var ll, d := FixedLitLen(), FixedDistance();
    var pos, body := |before| + 3, DataBits(ll, d, values);
    FixedLitLenAcceptable();
    FixedDistanceAcceptable();
    forall s: seq<Bit>, ignore: bool | At(s, pos, body)
      ensures Block(s, pos, 1, out0, ignore) == Some((pos + |body|, Lz77.Expand(values, out0).value))
    {
      SymbolsDecode(ll, d, values, s, pos, out0);
    }
    BlockAppends(before, out0, body, Lz77.Expand(values, out0).value, final, 1);
  }

  lemma DynamicBody(ll: seq<nat>, d: seq<nat>, cl: seq<nat>, n: nat, e: seq<nat>, values: seq<nat>,
                    bits: seq<Bit>, pos: nat, out: seq<Byte>, ignore: bool)
    requires HeaderOk(ll, d, cl, n, e) && Coded(ll, d, values) && Lz77.Expand(values, out).Some?
    requires At(bits, pos, HeaderBits(ll, d, cl, n, e) + DataBits(ll, d, values))
    ensures Block(bits, pos, 2, out, ignore)
         == Some((pos + |HeaderBits(ll, d, cl, n, e) + DataBits(ll, d, values)|, Lz77.Expand(values, out).value))
  {
    hide Symbols;
    hide ValuesBits;
    hide SymBits;
    hide Coded;
    hide Kraft;
    hide HeaderBits;
    hide DynamicTrees;
    hide RunsCoded;
    hide Lz77.Expand;
    var header := HeaderBits(ll, d, cl, n, e);
    AtConcat(bits, pos, header, DataBits(ll, d, values));
    HeaderDecode(ll, d, cl, n, e, bits, pos);
    ValuesBitsZeros(ll, NUM_LITLEN - |ll|, d, NUM_DISTANCE - |d|, values);
    SymBitsZeros(ll, NUM_LITLEN - |ll|, 256);
    PaddedAcceptable(ll, NUM_LITLEN);
    PaddedAcceptable(d, NUM_DISTANCE);
    SymbolsDecode(Padded(ll, NUM_LITLEN), Padded(d, NUM_DISTANCE), values, bits, pos + |header|, out);
  }

  lemma DynamicAppends(before: seq<Bit>, out0: seq<Byte>, ll: seq<nat>, d: seq<nat>, cl: seq<nat>, n: nat, e: seq<nat>,
                       values: seq<nat>, final: bool)
    requires HeaderOk(ll, d, cl, n, e) && Coded(ll, d, values) && Lz77.Expand(values, out0).Some?
    ensures Appends(before, out0,
                    before + TypeBits(final, 2) + (HeaderBits(ll, d, cl, n, e) + DataBits(ll, d, values)),
                    Lz77.Expand(values, out0).value, final)
  {
    hide Block;
    hide ValuesBits;
    hide SymBits;
    hide Coded;
    hide Decodable;
    hide Trimmed;
    hide RunsCoded;
    hide HeaderBits;
    hide TypeBits;
    hide Appends;
    hide Lz77.Expand;
    var pos, body := |before| + 3, HeaderBits(ll, d, cl, n, e) + DataBits(ll, d, values);
    forall s: seq<Bit>, ignore: bool | At(s, pos, body)
      ensures Block(s, pos, 2, out0, ignore) == Some((pos + |body|, Lz77.Expand(values, out0).value))
    {
      DynamicBody(ll, d, cl, n, e, values, s, pos, out0, ignore);
    }
    BlockAppends(before, out0, body, Lz77.Expand(values, out0).value, final, 2);
  }

  // ---- stored blocks ----

  /** A stored block as bytes: flags, length and its complement, then the data. */
  function StoredHead(n: nat, final: bool): (r: seq<Byte>)
    requires n <= 65535
    ensures |r| == 5
  {
    [if final then 1 else 0, n % 256, n / 256, (65535 - n) % 256, (65535 - n) / 256]
  }

  function StoredBlock(block: seq<Byte>, final: bool): (r: seq<Byte>)
    requires |block| <= 65535
    ensures |r| == 5 + |block|
  {
    StoredHead(|block|, final) + block
  }

  lemma {:induction false} StreamConcat(a: seq<Byte>, b: seq<Byte>)
    ensures Stream(a + b) == Stream(a) + Stream(b)
  {
    hide BitsOf;
    if a == [] {
      assert a + b == b;
    } else {
      assert (a + b)[1..] == a[1..] + b;
      StreamConcat(a[1..], b);
    }
  }

  /** What is read inside a prefix does not depend on what follows it. */
  lemma PeekPrefix(t: seq<Bit>, s: seq<Bit>, pos: nat, n: nat)
    requires t <= s && pos + n <= |t|
    ensures Peek(s, pos, n) == Peek(t, pos, n)
  {
    hide Peek;
    forall k | pos <= k < pos + n ensures BitAt(s, k) == BitAt(t, k - pos + pos) {
    }
    PeekAgree(s, pos, t, pos, n);
  }

  lemma ByteOfPrefix(t: seq<Bit>, s: seq<Bit>, k: nat)
    requires t <= s && 8 * k + 8 <= |t|
    ensures ByteOf(s, k) == ByteOf(t, k)
  {
    hide Peek;
    PeekPrefix(t, s, 8 * k, 8);
  }

  lemma StoredBytesPrefix(t: seq<Bit>, s: seq<Bit>, bytepos: nat, n: nat)
    requires t <= s && 8 * (bytepos + n) <= |t|
    ensures StoredBytes(s, bytepos, n) == StoredBytes(t, bytepos, n)
  {
    hide ByteOf;
    var x, y := StoredBytes(s, bytepos, n), StoredBytes(t, bytepos, n);
    forall i | 0 <= i < n ensures x[i] == y[i] {
      ByteOfPrefix(t, s, bytepos + i);
    }
    assert x == y;
  }

  lemma StoredHeader(a: seq<Byte>, block: seq<Byte>, final: bool, s: seq<Bit>)
    requires |block| <= 65535 && Stream(a + StoredBlock(block, final)) <= s
    ensures var pos := 8 * |a|;
            && Peek(s, pos, 1) == (if final then 1 else 0) && Peek(s, pos + 1, 2) == 0
            && Peek(s, pos + 8, 16) == |block| && Peek(s, pos + 24, 16) == 65535 - |block|
  {
    hide Peek;
    hide Stream;
    var data, k := a + StoredBlock(block, final), |a|;
    var t := Stream(data);
    PeekByte(data, k);
    TwoByteValue(data, k + 1);
    TwoByteValue(data, k + 3);
    PeekPrefix(t, s, 8 * k, 1);
    PeekPrefix(t, s, 8 * k + 1, 2);
    PeekPrefix(t, s, 8 * k + 8, 16);
    PeekPrefix(t, s, 8 * k + 24, 16);
    FlagByte(t, 8 * k, final);
  }

  /** A byte that is 0 or 1: its low bit is that, the two next are clear. */
  lemma FlagByte(t: seq<Bit>, pos: nat, final: bool)
    requires Peek(t, pos, 8) == if final then 1 else 0
    ensures Peek(t, pos, 1) == (if final then 1 else 0) && Peek(t, pos + 1, 2) == 0
  {
    PeekLow(t, pos, 8, 1);
    PeekLow(t, pos, 8, 3);
    PeekSplit(t, pos, 1, 2);
    PeekBound(t, pos, 1);
    Pow2Small();
  }

  /** A stored block is read back, provided it is not empty. */
  lemma StoredAppends(a: seq<Byte>, out0: seq<Byte>, block: seq<Byte>, final: bool)
    requires 0 < |block| <= 65535
    ensures Appends(Stream(a), out0, Stream(a + StoredBlock(block, final)), out0 + block, final)
  {
    hide Peek;
    hide Stream;
    hide Blocks;
    var data := a + StoredBlock(block, final);
    StreamConcat(a, StoredBlock(block, final));
    var pos := 8 * |a|;
    forall s: seq<Bit>, ignore: bool | Stream(data) <= s
      ensures Blocks(s, pos, out0, ignore)
           == if final then Some(out0 + block) else Blocks(s, 8 * |data|, out0 + block, ignore)
    {
      StoredHeader(a, block, final, s);
      BlocksUnfold(s, pos, out0, ignore);
      StoredBytesPrefix(Stream(data), s, |a| + 5, |block|);
      StoredBytesAre(data, |a| + 5, |block|);
      assert data[|a| + 5..|a| + 5 + |block|] == block;
      assert (pos + 3 + 7) / 8 == |a| + 1;
      assert 8 * (|a| + 1) == pos + 8 && 8 * (|a| + 1 + 2) == pos + 24;
    }
  }
}
