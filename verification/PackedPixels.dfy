/** Pixels of 1, 2 or 4 bits, several to a byte, the first in the highest bits. */
module PackedPixels {
  import opened Bits
  import opened MsbBits

  /** The pixel sizes that share bytes. */
  predicate Packs(bits: nat)
  {
    bits == 1 || bits == 2 || bits == 4
  }

  function PerByte(bits: nat): (r: nat)
    requires Packs(bits)
    ensures r > 1 && r * bits == 8
  {
    8 / bits
  }

  /** How far above the bottom of its byte pixel j lies. */
  function Offset(bits: nat, j: nat): (r: nat)
    requires Packs(bits)
    ensures r + bits <= 8
  {
    bits * (PerByte(bits) - 1 - j % PerByte(bits))
  }

  function Cell(bits: nat, j: nat): nat
    requires Packs(bits)
  {
    j / PerByte(bits)
  }

  /** The bytes that n pixels take. */
  function PackedBytes(bits: nat, n: nat): nat
    requires Packs(bits)
  {
    (n * bits + 7) / 8
  }

  lemma CellIs(bits: nat, j: nat)
    requires Packs(bits)
    ensures j * bits / 8 == Cell(bits, j)
    ensures j * bits % 8 == 8 - Offset(bits, j) - bits
  {
    var n := PerByte(bits);
    assert j == n * (j / n) + j % n;
    assert j * bits == 8 * (j / n) + bits * (j % n);
  }

  lemma CellWithin(bits: nat, j: nat, n: nat)
    requires Packs(bits) && j < n
    ensures Cell(bits, j) < PackedBytes(bits, n)
  {
    CellIs(bits, j);
  }

  /** Pixel j. */
  function Packed(data: seq<Byte>, bits: nat, j: nat): (r: nat)
    requires Packs(bits) && Cell(bits, j) < |data|
    ensures r < Pow2(bits)
  {
    LowBound(Shr(data[Cell(bits, j)], Offset(bits, j)), bits);
    Low(Shr(data[Cell(bits, j)], Offset(bits, j)), bits)
  }

  // ---- reading ----

  /** n bits from pos, the first the most significant. */
  function MsbValue(bits: seq<Bit>, pos: nat, n: nat): nat
    requires pos + n <= |bits|
  {
    if n == 0 then 0 else 2 * MsbValue(bits, pos, n - 1) + bits[pos + n - 1]
  }

  /** Bits k to k + n - 1 of a byte from the top are a shifted and masked byte. */
  lemma {:induction false} MsbValueIs(data: seq<Byte>, i: nat, k: nat, n: nat)
    requires i < |data| && k + n <= 8
    ensures MsbValue(Unpack(data), 8 * i + k, n) == Low(Shr(data[i], 8 - k - n), n)
  {
    hide Unpack;
    hide Shr;
    hide Low;
    LowUnfold(data[i], 8 - k - n, n);
    if n > 0 {
      MsbValueIs(data, i, k, n - 1);
      BitAtPlace(data, i, k + n - 1);
    }
  }

  lemma LowUnfold(b: nat, s: nat, n: nat)
    ensures Low(Shr(b, s), n) == if n == 0 then 0 else Shr(b, s) % 2 + 2 * Low(Shr(b, s + 1), n - 1)
  {
    ShrShr(b, s, 1);
    assert Shr(Shr(b, s), 1) == Shr(b, s) / 2;
  }

  lemma BitAtPlace(data: seq<Byte>, i: nat, k: nat)
    requires i < |data| && k < 8
    ensures Unpack(data)[8 * i + k] == Shr(data[i], 7 - k) % 2
  {
    assert (8 * i + k) / 8 == i && (8 * i + k) % 8 == k;
  }

  method ReadBitsReversed(data: array<Byte>, bp: nat, n: nat) returns (result: nat)
    requires bp + n <= 8 * data.Length
    ensures result == MsbValue(Unpack(data[..]), bp, n)
  {
    hide Unpack;
    result := 0;
    for i := 0 to n
      invariant result == MsbValue(Unpack(data[..]), bp, i)
    {
      var bit := ReadBitReversed(data, bp + i);
      result := 2 * result + bit;
    }
  }

  /** Reading bits at pixel j's position reads the pixel. */
  method ReadPacked(data: array<Byte>, bits: nat, j: nat) returns (value: nat)
    requires Packs(bits) && Cell(bits, j) < data.Length
    ensures value == Packed(data[..], bits, j)
  {
    CellIs(bits, j);
    MsbValueIs(data[..], Cell(bits, j), 8 - Offset(bits, j) - bits, bits);
    value := ReadBitsReversed(data, j * bits, bits);
  }

  // ---- writing ----

  /** Bitwise or. */
  function Or(a: nat, b: nat): nat
  {
    if a == 0 then b
    else if b == 0 then a
    else Max(a % 2, b % 2) + 2 * Or(a / 2, b / 2)
  }

  /** Or on words that share no bit adds them. */
  lemma {:induction false} OrDisjoint(a: nat, k: nat, hi: nat, lo: nat)
    requires lo < Pow2(k) && a == Pow2(k) * hi
    ensures Or(a, lo) == a + lo && Or(0, lo) == lo
  {
    if k > 0 && lo > 0 && a > 0 {
      HalfOf(a, Pow2(k - 1), hi);
      OrDisjoint(a / 2, k - 1, hi, lo / 2);
    }
  }

  lemma HalfOf(a: nat, p: nat, hi: nat)
    requires a == (2 * p) * hi
    ensures a % 2 == 0 && a / 2 == p * hi
  {
    assert a == 2 * (p * hi);
  }

  /** The byte of pixel i is still clear from that pixel on. */
  ghost predicate ClearFrom(data: seq<Byte>, bits: nat, i: nat)
    requires Packs(bits)
  {
    i % PerByte(bits) != 0 ==> Cell(bits, i) < |data| && Low(data[Cell(bits, i)], Offset(bits, i) + bits) == 0
  }

  /** A byte with one more pixel or-ed in. */
  lemma {:induction false} PixelAdded(b: Byte, bits: nat, v: nat, s: nat)
    requires s + bits <= 8 && v < Pow2(bits) && Low(b, s + bits) == 0
    ensures Shl(v, s) < Pow2(s + bits) && Or(b, Shl(v, s)) < 256
    ensures var r := Or(b, Shl(v, s));
            && Low(Shr(r, s), bits) == v && Low(r, s) == 0
            && forall t: nat :: t >= s + bits ==> Shr(r, t) == Shr(b, t)
  {
    hide Low;
    hide Shr;
    hide Or;
    hide Pow2;
    Pow2Small();
    var hi := Shr(b, s + bits);
    LowShr(b, s + bits);
    ShrBound(b, s + bits, 8);
    Pow2Add(s, bits);
    Pow2Add(s + bits, 8 - s - bits);
    MulStrict(Pow2(s), v, Pow2(bits));
    MulStrict(Pow2(s + bits), hi, Pow2(8 - s - bits));
    var r := Or(b, Shl(v, s));
    OrDisjoint(Pow2(s + bits) * hi, s + bits, hi, Shl(v, s));
    assert b == Pow2(s + bits) * hi;
    assert r == Shl(v, s) + Pow2(s + bits) * hi;
    ThreeParts(v, hi, s, bits);
    SplitUnique(0, v + Pow2(bits) * hi, s);
    SplitUnique(v, hi, bits);
    SplitUnique(Shl(v, s), hi, s + bits);
    forall t: nat | t >= s + bits ensures Shr(r, t) == Shr(b, t) {
      ShrShr(r, s + bits, t - s - bits);
      ShrShr(b, s + bits, t - s - bits);
    }
  }

  lemma ThreeParts(v: nat, hi: nat, s: nat, bits: nat)
    ensures Shl(v, s) + Pow2(s + bits) * hi == Pow2(s) * (v + Pow2(bits) * hi)
  {
    Pow2Add(s, bits);
    ProductParts(v, hi, Pow2(s), Pow2(bits));
  }

  lemma ProductParts(v: nat, hi: nat, p: nat, q: nat)
    ensures v * p + (p * q) * hi == p * (v + q * hi)
  {
  }

  /** What or-ing pixel i into its byte does to the pixels. */
  lemma PixelPlaced(before: seq<Byte>, after: seq<Byte>, bits: nat, i: nat, v: nat)
    requires Packs(bits) && v < Pow2(bits) && Cell(bits, i) < |before| && ClearFrom(before, bits, i)
    requires var was := if i % PerByte(bits) == 0 then 0 else before[Cell(bits, i)];
             Or(was, Shl(v, Offset(bits, i))) < 256 && after == before[Cell(bits, i) := Or(was, Shl(v, Offset(bits, i)))]
    ensures Packed(after, bits, i) == v && ClearFrom(after, bits, i + 1)
    ensures forall j: nat :: j < i && Cell(bits, j) < |before| ==> Packed(after, bits, j) == Packed(before, bits, j)
  {
    hide Or;
    hide Shr;
    hide Low;
    hide Offset;
    var c, s := Cell(bits, i), Offset(bits, i);
    var was := if i % PerByte(bits) == 0 then 0 else before[c];
    LowZero(s + bits);
    PixelAdded(was, bits, v, s);
    if (i + 1) % PerByte(bits) != 0 { NextOffset(bits, i); }
    forall j: nat | j < i && Cell(bits, j) < |before| ensures Packed(after, bits, j) == Packed(before, bits, j) {
      EarlierOffset(bits, j, i);
    }
  }

  lemma {:induction false} LowZero(k: nat)
    ensures Low(0, k) == 0
  {
    if k > 0 { LowZero(k - 1); }
  }

  lemma NextOffset(bits: nat, i: nat)
    requires Packs(bits) && (i + 1) % PerByte(bits) != 0
    ensures Cell(bits, i + 1) == Cell(bits, i) && Offset(bits, i + 1) + bits == Offset(bits, i)
  {
    if bits == 1 {
      assert (i + 1) / 8 == i / 8 && (i + 1) % 8 == i % 8 + 1;
    } else if bits == 2 {
      assert (i + 1) / 4 == i / 4 && (i + 1) % 4 == i % 4 + 1;
    } else {
      assert (i + 1) / 2 == i / 2 && (i + 1) % 2 == i % 2 + 1;
    }
  }

  /** An earlier pixel of the same byte lies higher up. */
  lemma EarlierOffset(bits: nat, j: nat, i: nat)
    requires Packs(bits) && j < i
    ensures Cell(bits, j) == Cell(bits, i) ==> i % PerByte(bits) != 0 && Offset(bits, j) >= Offset(bits, i) + bits
  {
    if Cell(bits, j) == Cell(bits, i) {
      if bits == 1 {
        assert j / 8 == i / 8 ==> j % 8 < i % 8;
      } else if bits == 2 {
        assert j / 4 == i / 4 ==> j % 4 < i % 4;
      } else {
        assert j / 2 == i / 2 ==> j % 2 < i % 2;
      }
    }
  }

  /** Adds the low bits of a value as pixel number index. */
  method AddColorBits(out: array<Byte>, index: nat, bits: nat, value: nat)
    requires Packs(bits) && Cell(bits, index) < out.Length && ClearFrom(out[..], bits, index)
    modifies out
    ensures Packed(out[..], bits, index) == Low(value, bits) && ClearFrom(out[..], bits, index + 1)
    ensures forall j: nat :: j < index && Cell(bits, j) < out.Length ==> Packed(out[..], bits, j) == old(Packed(out[..], bits, j))
  {
    hide Or;
    hide Shr;
    hide Low;
    hide Offset;
    hide Packed;
    ghost var before := out[..];
    var m := if bits == 1 then 7 else if bits == 2 then 3 else 1;
    var p := index % (m + 1);
    ghost var cell := index * bits / 8;
    CellIs(bits, index);
    OffsetIs(bits, index, m, p);
    LowBound(value, bits);
    LowZero(bits * (m - p) + bits);
    var shifted := Shl(Low(value, bits), bits * (m - p));
    if p == 0 {
      PixelAdded(0, bits, Low(value, bits), bits * (m - p));
      OrDisjoint(0, 8, 0, shifted);
      out[index * bits / 8] := shifted;
    } else {
      PixelAdded(before[cell], bits, Low(value, bits), bits * (m - p));
      out[index * bits / 8] := Or(out[index * bits / 8], shifted);
    }
    assert shifted == Shl(Low(value, bits), Offset(bits, index));
    assert out[..] == before[cell := out[cell]];
    PixelPlaced(before, out[..], bits, index, Low(value, bits));
  }

  lemma OffsetIs(bits: nat, i: nat, m: nat, p: nat)
    requires Packs(bits) && m == (if bits == 1 then 7 else if bits == 2 then 3 else 1) && p == i % (m + 1)
    ensures m + 1 == PerByte(bits) && p <= m && Offset(bits, i) == bits * (m - p)
  {
  }
}
