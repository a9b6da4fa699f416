/** Pixel bits, most significant bit of each byte first. */
module MsbBits {
  import opened Bits

  /** Bit n of a number, counted from the bottom. */
  function BitOf(b: nat, n: nat): Bit
  {
    Shr(b, n) % 2
  }

  /** Clearing bit n with a mask, or setting it. */
  function WithBit(b: nat, n: nat, v: Bit): int
  {
    if v == 0 then b - BitOf(b, n) * Pow2(n) else b + (1 - BitOf(b, n)) * Pow2(n)
  }

  lemma {:induction false} WithBitStep(b: nat, n: nat, v: Bit)
    requires n > 0
    ensures WithBit(b, n, v) == 2 * WithBit(b / 2, n - 1, v) + b % 2
  {
    Pow2Step(n - 1);
    var x := BitOf(b, n);
    assert x == BitOf(b / 2, n - 1);
    assert x == 0 || x == 1;
  }

  /** Only bit n changes, and the number stays in range. */
  lemma {:induction false} WithBitIs(b: nat, n: nat, v: Bit, m: nat)
    requires n < m && b < Pow2(m)
    ensures 0 <= WithBit(b, n, v) < Pow2(m)
    ensures forall j: nat :: BitOf(WithBit(b, n, v), j) == if j == n then v else BitOf(b, j)
    decreases n
  {
    Pow2Step(m - 1);
    if n > 0 {
      WithBitStep(b, n, v);
      WithBitIs(b / 2, n - 1, v, m - 1);
      hide WithBit;
      var w, h := WithBit(b, n, v), WithBit(b / 2, n - 1, v);
      assert w / 2 == h && w % 2 == b % 2;
      forall j: nat ensures BitOf(w, j) == if j == n then v else BitOf(b, j) {
        if j > 0 { assert BitOf(h, j - 1) == if j - 1 == n - 1 then v else BitOf(b / 2, j - 1); }
      }
    } else {
      var w := WithBit(b, 0, v);
      assert w / 2 == b / 2 && w % 2 == v;
      forall j: nat ensures BitOf(w, j) == if j == 0 then v else BitOf(b, j) {
      }
    }
  }

  /** m bits determine a number below 2^m. */
  lemma {:induction false} SameBits(a: nat, b: nat, m: nat)
    requires a < Pow2(m) && b < Pow2(m)
    requires forall j: nat :: j < m ==> BitOf(a, j) == BitOf(b, j)
    ensures a == b
  {
    if m > 0 {
      assert BitOf(a, 0) == BitOf(b, 0);
      forall j: nat | j < m - 1 ensures BitOf(a / 2, j) == BitOf(b / 2, j) {
        assert BitOf(a, j + 1) == BitOf(b, j + 1);
      }
      SameBits(a / 2, b / 2, m - 1);
    }
  }

  /** Bit k of a byte, counted from the top. */
  function MsbBit(b: Byte, k: nat): Bit
    requires k < 8
  {
    BitOf(b, 7 - k)
  }

  function SetBit(b: Byte, k: nat, v: Bit): (r: Byte)
    requires k < 8
    ensures forall j: nat :: j < 8 ==> MsbBit(r, j) == if j == k then v else MsbBit(b, j)
  {
    Pow2Small();
    WithBitIs(b, 7 - k, v, 8);
    WithBit(b, 7 - k, v)
  }

  /** All bits of a byte string. */
  function Unpack(data: seq<Byte>): (r: seq<Bit>)
    ensures |r| == 8 * |data|
  {
    seq<Bit>(8 * |data|, p requires 0 <= p < 8 * |data| => MsbBit(data[p / 8], p % 8))
  }

  lemma UnpackInjective(a: seq<Byte>, b: seq<Byte>)
    requires Unpack(a) == Unpack(b)
    ensures a == b
  {
    hide BitOf;
    assert |a| == |b|;
    forall i | 0 <= i < |a| ensures a[i] == b[i] {
      forall j: nat | j < 8 ensures BitOf(a[i], j) == BitOf(b[i], j) {
        var k := 7 - j;
        assert Unpack(a)[8 * i + k] == MsbBit(a[i], k) == Unpack(b)[8 * i + k] == MsbBit(b[i], k);
      }
      Pow2Small();
      SameBits(a[i], b[i], 8);
    }
  }

  lemma UnpackSlice(data: seq<Byte>, i: nat, n: nat)
    requires i + n <= |data|
    ensures Unpack(data)[8 * i..8 * (i + n)] == Unpack(data[i..i + n])
  {
    hide MsbBit;
    var a, b := Unpack(data)[8 * i..8 * (i + n)], Unpack(data[i..i + n]);
    forall p | 0 <= p < 8 * n ensures a[p] == b[p] {
      assert (8 * i + p) / 8 == i + p / 8 && (8 * i + p) % 8 == p % 8;
    }
  }

  lemma UnpackUpdate(data: seq<Byte>, p: nat, v: Bit)
    requires p < 8 * |data|
    ensures Unpack(data[p / 8 := SetBit(data[p / 8], p % 8, v)]) == Unpack(data)[p := v]
  {
    hide MsbBit;
    hide SetBit;
    var after := data[p / 8 := SetBit(data[p / 8], p % 8, v)];
    forall q | 0 <= q < 8 * |data| ensures Unpack(after)[q] == Unpack(data)[p := v][q] {
      if q / 8 == p / 8 && q != p {
        assert q % 8 != p % 8;
      }
    }
  }

  // ---- in memory ----

  method ReadBitReversed(data: array<Byte>, bp: nat) returns (bit: Bit)
    requires bp < 8 * data.Length
    ensures bit == Unpack(data[..])[bp]
  {
    bit := MsbBit(data[bp / 8], bp % 8);
  }

  method SetBitReversed(data: array<Byte>, bp: nat, bit: Bit)
    requires bp < 8 * data.Length
    modifies data
    ensures Unpack(data[..]) == old(Unpack(data[..]))[bp := bit]
  {
    UnpackUpdate(data[..], bp, bit);
    ghost var before := data[..];
    data[bp / 8] := SetBit(data[bp / 8], bp % 8, bit);
    assert data[..] == before[bp / 8 := data[bp / 8]];
  }

  /** Moves n bits, one at a time; within one array only towards the front. */
  method CopyBits(out: array<Byte>, obp: nat, input: array<Byte>, ibp: nat, n: nat)
    requires obp + n <= 8 * out.Length && ibp + n <= 8 * input.Length && (out == input ==> obp <= ibp)
    modifies out
    ensures Unpack(out[..]) == old(Unpack(out[..]))[..obp] + old(Unpack(input[..]))[ibp..ibp + n]
                               + old(Unpack(out[..]))[obp + n..]
  {
    hide Unpack;
    ghost var before, source, bytes := Unpack(out[..]), Unpack(input[..]), input[..];
    ghost var piece := source[ibp..ibp + n];
    hide Blit;
    BlitEnds(before, obp, piece);
    for x := 0 to n
      invariant Unpack(out[..]) == Blit(before, obp, piece, x)
      invariant out != input ==> input[..] == bytes
    {
      BlitStep(before, obp, piece, x);
      if out == input { BlitAhead(before, obp, piece, x, ibp + x); }
      var bit := ReadBitReversed(input, ibp + x);
      assert bit == source[ibp + x] == piece[x];
      SetBitReversed(out, obp + x, bit);
    }
  }

  function ZeroBits(n: nat): (r: seq<Bit>)
    ensures |r| == n
  {
    seq<Bit>(n, _ => 0)
  }

  /** Clears n bits. */
  method ClearBits(out: array<Byte>, obp: nat, n: nat)
    requires obp + n <= 8 * out.Length
    modifies out
    ensures Unpack(out[..]) == old(Unpack(out[..]))[..obp] + ZeroBits(n) + old(Unpack(out[..]))[obp + n..]
  {
    hide Unpack;
    ghost var before := Unpack(out[..]);
    for x := 0 to n
      invariant Unpack(out[..]) == before[..obp] + ZeroBits(x) + before[obp + x..]
    {
      SetBitReversed(out, obp + x, 0);
    }
  }
}
