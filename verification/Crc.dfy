/** The CRC of PNG chunks (PNG specification, section 5.5): slicing by eight equals one bit at a time. */
module Crc {
  import opened Bits

  // ---- exclusive or of words ----

  /** a ^ b */
  function Xor(a: nat, b: nat): nat
    decreases a + b
  {
    if a == 0 then b
    else if b == 0 then a
    else (a + b) % 2 + 2 * Xor(a / 2, b / 2)
  }

  lemma {:induction false} XorDigit(a: nat, b: nat)
    ensures Xor(a, b) % 2 == (a + b) % 2 && Xor(a, b) / 2 == Xor(a / 2, b / 2)
  {
  }

  lemma {:induction false} XorBound(a: nat, b: nat, n: nat)
    requires a < Pow2(n) && b < Pow2(n)
    ensures Xor(a, b) < Pow2(n)
    decreases n
  {
    if n > 0 { XorBound(a / 2, b / 2, n - 1); }
  }

  lemma {:induction false} XorCommutes(a: nat, b: nat)
    ensures Xor(a, b) == Xor(b, a)
    decreases a + b
  {
    if a > 0 && b > 0 { XorCommutes(a / 2, b / 2); }
  }

  /** Words with the same low bit and the same rest are the same. */
  lemma SameWord(x: nat, y: nat)
    requires x % 2 == y % 2 && x / 2 == y / 2
    ensures x == y
  {
  }

  lemma NoXor(a: nat)
    ensures Xor(0, a) == a && Xor(a, 0) == a
  {
  }

  lemma {:induction false} XorAssociates(a: nat, b: nat, c: nat)
    ensures Xor(Xor(a, b), c) == Xor(a, Xor(b, c))
    decreases a + b + c
  {
    hide Xor;
    if a + b + c == 0 {
      NoXor(0);
    } else {
      XorAssociates(a / 2, b / 2, c / 2);
      XorDigit(a, b);
      XorDigit(b, c);
      XorDigit(Xor(a, b), c);
      XorDigit(a, Xor(b, c));
      Parity(Xor(a, b), a + b, c);
      Parity(Xor(b, c), b + c, a);
      SameWord(Xor(Xor(a, b), c), Xor(a, Xor(b, c)));
    }
  }

  lemma Parity(p: nat, q: nat, c: nat)
    requires p % 2 == q % 2
    ensures (p + c) % 2 == (q + c) % 2
  {
  }

  lemma {:induction false} XorSelf(a: nat)
    ensures Xor(a, a) == 0
  {
    if a > 0 { XorSelf(a / 2); }
  }

  lemma {:induction false} XorShr(a: nat, b: nat, k: nat)
    ensures Shr(Xor(a, b), k) == Xor(Shr(a, k), Shr(b, k))
    decreases k
  {
    if k > 0 {
      XorDigit(a, b);
      XorShr(a / 2, b / 2, k - 1);
    }
  }

  /** A word is the exclusive or of its low and its high part. */
  lemma {:induction false} XorSplit(c: nat, k: nat)
    ensures Xor(Low(c, k), Pow2(k) * Shr(c, k)) == c
    decreases k
  {
    hide Xor;
    if k == 0 {
      assert Low(c, 0) == 0 && Pow2(0) * Shr(c, 0) == c;
      NoXor(c);
    } else {
      XorSplit(c / 2, k - 1);
      var lo, p, h := Low(c / 2, k - 1), Pow2(k - 1), Shr(c / 2, k - 1);
      DoubleProduct(Pow2(k), p, h);
      assert Low(c, k) == c % 2 + 2 * lo && Shr(c, k) == h;
      hide Pow2;
      hide Low;
      hide Shr;
      XorDigit(c % 2 + 2 * lo, 2 * (p * h));
      Halves(c % 2, lo, p * h);
      SameWord(Xor(c % 2 + 2 * lo, 2 * (p * h)), c);
    }
  }

  lemma Halves(b: nat, x: nat, y: nat)
    requires b < 2
    ensures (b + 2 * x) / 2 == x && 2 * y / 2 == y && (b + 2 * x + 2 * y) % 2 == b
  {
  }

  // ---- division by the polynomial ----

  const POLYNOMIAL := 0xEDB88320

  /** One bit of the division, low bit first. */
  function Step(c: nat): nat
  {
    if c % 2 == 1 then Xor(POLYNOMIAL, c / 2) else c / 2
  }

  function Steps(c: nat, n: nat): nat
    decreases n
  {
    if n == 0 then c else Steps(Step(c), n - 1)
  }

  /** The definition: each byte enters the low end, then eight bits are divided out. */
  function Crc(r: nat, data: seq<Byte>): nat
    decreases |data|
  {
    if data == [] then r else Crc(ByteSteps(Xor(r, data[0])), data[1..])
  }

  function ByteSteps(c: nat): nat
  {
    Steps(c, 8)
  }

  /** The polynomial enters both words or neither. */
  lemma BothOdd(p: nat, x: nat, y: nat)
    ensures Xor(Xor(p, x), Xor(p, y)) == Xor(x, y)
    ensures Xor(Xor(p, x), y) == Xor(p, Xor(x, y))
    ensures Xor(x, Xor(p, y)) == Xor(p, Xor(x, y))
  {
    XorAssociates(p, x, y);
    XorAssociates(x, p, y);
    XorAssociates(p, x, Xor(p, y));
    XorAssociates(p, p, Xor(x, y));
    XorCommutes(x, p);
    XorSelf(p);
    hide Xor;
    NoXor(Xor(x, y));
  }

  lemma StepXor(a: nat, b: nat)
    ensures Step(Xor(a, b)) == Xor(Step(a), Step(b))
  {
    XorDigit(a, b);
    hide Xor;
    BothOdd(POLYNOMIAL, a / 2, b / 2);
  }

  /** Division is linear. */
  lemma {:induction false} StepsXor(a: nat, b: nat, n: nat)
    ensures Steps(Xor(a, b), n) == Xor(Steps(a, n), Steps(b, n))
    decreases n
  {
    if n > 0 {
      StepXor(a, b);
      hide Xor;
      hide Step;
      StepsXor(Step(a), Step(b), n - 1);
    }
  }

  lemma {:induction false} StepsAdd(c: nat, m: nat, n: nat)
    ensures Steps(c, m + n) == Steps(Steps(c, m), n)
    decreases m
  {
    hide Step;
    if m > 0 { StepsAdd(Step(c), m - 1, n); }
  }

  /** Clear low bits are shifted out. */
  lemma {:induction false} StepsShift(h: nat, k: nat, n: nat)
    ensures Steps(Pow2(k) * h, k + n) == Steps(h, n)
    decreases k
  {
    if k > 0 {
      DoubleProduct(Pow2(k), Pow2(k - 1), h);
      var x := Pow2(k - 1) * h;
      hide Pow2;
      assert Step(2 * x) == x;
      hide Step;
      StepsShift(h, k - 1, n);
    }
  }

  lemma StepBound(c: nat)
    requires c < Pow2(32)
    ensures Step(c) < Pow2(32)
  {
    Pow2Small();
    XorBound(POLYNOMIAL, c / 2, 32);
  }

  lemma {:induction false} StepsBound(c: nat, n: nat)
    requires c < Pow2(32)
    ensures Steps(c, n) < Pow2(32)
    decreases n
  {
    hide Step;
    hide Pow2;
    if n > 0 {
      StepBound(c);
      StepsBound(Step(c), n - 1);
    }
  }

  /** The register never outgrows 32 bits. */
  lemma {:induction false} CrcBound(r: nat, data: seq<Byte>)
    requires r < Pow2(32)
    ensures Crc(r, data) < Pow2(32)
    decreases |data|
  {
    if data != [] {
      Pow2Small();
      XorBound(r, data[0], 32);
      StepsBound(Xor(r, data[0]), 8);
      hide Pow2;
      hide Xor;
      hide Steps;
      CrcBound(ByteSteps(Xor(r, data[0])), data[1..]);
    }
  }

  /** The register's share of the result. */
  lemma {:induction false} CrcLinear(r: nat, data: seq<Byte>)
    ensures Crc(r, data) == Xor(Steps(r, 8 * |data|), Crc(0, data))
    decreases |data|
  {
    hide Steps;
    hide Xor;
    if data == [] {
      StepsNone(r);
      NoXor(r);
    } else {
      var n, d, rest := 8 * |data[1..]|, data[0], data[1..];
      assert 8 * |data| == 8 + n;
      NoXor(d);
      assert Crc(r, data) == Crc(ByteSteps(Xor(r, d)), rest) && Crc(0, data) == Crc(ByteSteps(d), rest);
      CrcLinear(ByteSteps(Xor(r, d)), rest);
      CrcLinear(ByteSteps(d), rest);
      hide Crc;
      StepsAdd(Xor(r, d), 8, n);
      StepsAdd(d, 8, n);
      StepsXor(r, d, 8 + n);
      XorAssociates(Steps(r, 8 + n), Steps(d, 8 + n), Crc(0, rest));
    }
  }

  lemma StepsNone(c: nat)
    ensures Steps(c, 0) == c
  {
  }

  // ---- the tables ----

  /** Entry n of table k: a byte divided out, and moved past k further bytes. */
  function Table(k: nat, n: nat): nat
  {
    Steps(n, 8 * (k + 1))
  }

  /** How each table follows from the one before: the recurrence that generates tables 1 to 7 from table 0. */
  lemma TableNext(k: nat, n: nat)
    ensures Table(k + 1, n) == Xor(Table(0, Low(Table(k, n), 8)), Shr(Table(k, n), 8))
  {
    StepsAdd(n, 8 * (k + 1), 8);
    ByteStep(Table(k, n));
  }

  /** Eight bits of division by one table look-up. */
  lemma ByteStep(c: nat)
    ensures Steps(c, 8) == Xor(Table(0, Low(c, 8)), Shr(c, 8))
  {
    hide Xor;
    hide Low;
    hide Shr;
    hide Pow2;
    hide Steps;
    XorSplit(c, 8);
    StepsXor(Low(c, 8), Pow2(8) * Shr(c, 8), 8);
    StepsShift(Shr(c, 8), 8, 0);
    StepsNone(Shr(c, 8));
  }

  /** The look-ups of slicing, one byte at a time; the register is shifted out underneath. */
  function Sliced(r: nat, data: seq<Byte>): nat
    decreases |data|
  {
    if data == [] then r
    else Xor(Table(|data| - 1, Xor(data[0], Low(r, 8))), Sliced(Shr(r, 8), data[1..]))
  }

  /** Slicing computes the CRC, for any number of bytes. */
  lemma {:induction false} SlicedIsCrc(r: nat, data: seq<Byte>)
    ensures Sliced(r, data) == Crc(r, data)
    decreases |data|
  {
    hide Steps;
    hide Xor;
    hide Low;
    hide Shr;
    hide Pow2;
    if data != [] {
      var n, d, rest := 8 * |data[1..]|, data[0], data[1..];
      var lo, hi := Low(r, 8), Shr(r, 8);
      assert 8 * |data| == 8 + n && 8 * (|data| - 1 + 1) == 8 + n;
      assert Sliced(r, data) == Xor(Steps(Xor(d, lo), 8 + n), Sliced(hi, rest));
      assert Crc(r, data) == Crc(ByteSteps(Xor(r, d)), rest);
      SlicedIsCrc(hi, rest);
      CrcLinear(hi, rest);
      CrcLinear(ByteSteps(Xor(r, d)), rest);
      hide Crc;
      hide Sliced;
      var h := Pow2(8) * hi;
      StepsAdd(Xor(r, d), 8, n);
      XorSplit(r, 8);
      StepsShift(hi, 8, n);
      XorCommutes(d, lo);
      XorCommutes(lo, h);
      XorAssociates(h, lo, d);
      XorCommutes(h, Xor(lo, d));
      StepsXor(Xor(lo, d), h, 8 + n);
      XorAssociates(Steps(Xor(lo, d), 8 + n), Steps(hi, n), Crc(0, rest));
    }
  }

  lemma {:induction false} CrcConcat(r: nat, a: seq<Byte>, b: seq<Byte>)
    ensures Crc(r, a + b) == Crc(Crc(r, a), b)
    decreases |a|
  {
    hide ByteSteps;
    hide Xor;
    if a == [] {
      assert a + b == b;
    } else {
      assert (a + b)[1..] == a[1..] + b;
      CrcConcat(ByteSteps(Xor(r, a[0])), a[1..], b);
    }
  }

  // ---- the source's loops ----

  /** One look-up of an eight-byte step. */
  lemma SlicedAt(r: nat, data: seq<Byte>, k: nat)
    requires k < |data|
    ensures Sliced(Shr(r, 8 * k), data[k..])
         == Xor(Table(|data| - 1 - k, Xor(data[k], Low(Shr(r, 8 * k), 8))), Sliced(Shr(r, 8 * (k + 1)), data[k + 1..]))
  {
    ShrShr(r, 8 * k, 8);
    hide Shr;
    hide Low;
    hide Xor;
    hide Table;
    assert 8 * k + 8 == 8 * (k + 1);
    assert data[k..][1..] == data[k + 1..];
  }

  /** After four bytes nothing is left of the register. */
  lemma RegisterGone(r: nat, k: nat, b: Byte)
    requires r < Pow2(32) && k >= 4
    ensures Xor(b, Low(Shr(r, 8 * k), 8)) == b && Shr(r, 8 * k) == 0
  {
    ShrBound(r, 32, 32);
    ShrShr(r, 32, 8 * k - 32);
    ShrZero(8 * k - 32);
    LowZero(8);
    NoXor(b);
  }

  lemma {:induction false} ShrZero(k: nat)
    ensures Shr(0, k) == 0
  {
    if k > 0 { ShrZero(k - 1); }
  }

  lemma {:induction false} LowZero(k: nat)
    ensures Low(0, k) == 0
  {
    if k > 0 { LowZero(k - 1); }
  }

  /** Eight bytes at once: one look-up in each table, all at the same time. */
  function Eight(r: nat, d: seq<Byte>): nat
    requires |d| == 8
  {
    Xor(Xor(Xor(Xor(Xor(Xor(Xor(
      Table(7, Xor(d[0], Low(r, 8))),
      Table(6, Xor(d[1], Low(Shr(r, 8), 8)))),
      Table(5, Xor(d[2], Low(Shr(r, 16), 8)))),
      Table(4, Xor(d[3], Low(Shr(r, 24), 8)))),
      Table(3, d[4])),
      Table(2, d[5])),
      Table(1, d[6])),
      Table(0, d[7]))
  }

  lemma EightIsCrc(r: nat, d: seq<Byte>)
    requires |d| == 8 && r < Pow2(32)
    ensures Eight(r, d) == Crc(r, d)
  {
    SlicedIsCrc(r, d);
    hide *;
    EightRight(r, d);
    Regroup(Table(7, Xor(d[0], Low(r, 8))), Table(6, Xor(d[1], Low(Shr(r, 8), 8))), Table(5, Xor(d[2], Low(Shr(r, 16), 8))),
            Table(4, Xor(d[3], Low(Shr(r, 24), 8))), Table(3, d[4]), Table(2, d[5]), Table(1, d[6]), Table(0, d[7]));
    EightIs(r, d);
  }

  lemma EightIs(r: nat, d: seq<Byte>)
    requires |d| == 8
    ensures Eight(r, d)
         == Xor(Xor(Xor(Xor(Xor(Xor(Xor(Table(7, Xor(d[0], Low(r, 8))), Table(6, Xor(d[1], Low(Shr(r, 8), 8)))),
              Table(5, Xor(d[2], Low(Shr(r, 16), 8)))), Table(4, Xor(d[3], Low(Shr(r, 24), 8)))),
              Table(3, d[4])), Table(2, d[5])), Table(1, d[6])), Table(0, d[7]))
  {
    hide Xor;
    hide Low;
    hide Shr;
    hide Table;
  }

  /** The eight look-ups, grouped to the right. */
  lemma EightRight(r: nat, d: seq<Byte>)
    requires |d| == 8 && r < Pow2(32)
    ensures Sliced(r, d)
         == Xor(Table(7, Xor(d[0], Low(r, 8))), Xor(Table(6, Xor(d[1], Low(Shr(r, 8), 8))),
              Xor(Table(5, Xor(d[2], Low(Shr(r, 16), 8))), Xor(Table(4, Xor(d[3], Low(Shr(r, 24), 8))),
              Xor(Table(3, d[4]), Xor(Table(2, d[5]), Xor(Table(1, d[6]), Xor(Table(0, d[7]), 0))))))))
  {
    SlicedEnds(r, d);
    hide *;
    RegisterGone(r, 4, d[4]);
    RegisterGone(r, 5, d[5]);
    RegisterGone(r, 6, d[6]);
    RegisterGone(r, 7, d[7]);
    SlicedAt(r, d, 0);
    SlicedAt(r, d, 1);
    SlicedAt(r, d, 2);
    SlicedAt(r, d, 3);
    SlicedAt(r, d, 4);
    SlicedAt(r, d, 5);
    SlicedAt(r, d, 6);
    SlicedAt(r, d, 7);
  }

  lemma SlicedEnds(r: nat, d: seq<Byte>)
    requires |d| == 8 && r < Pow2(32)
    ensures Shr(r, 8 * 0) == r && d[0..] == d && Sliced(Shr(r, 8 * 8), d[8..]) == 0
  {
    RegisterGone(r, 8, 0);
  }

  lemma Regroup(a: nat, b: nat, c: nat, d: nat, e: nat, f: nat, g: nat, h: nat)
    ensures Xor(Xor(Xor(Xor(Xor(Xor(Xor(a, b), c), d), e), f), g), h)
         == Xor(a, Xor(b, Xor(c, Xor(d, Xor(e, Xor(f, Xor(g, Xor(h, 0))))))))
  {
    NoXor(h);
    hide Xor;
    var r6 := Xor(g, h);
    var r5 := Xor(f, r6);
    var r4 := Xor(e, r5);
    var r3 := Xor(d, r4);
    var r2 := Xor(c, r3);
    XorAssociates(a, b, r2);
    XorAssociates(Xor(a, b), c, r3);
    XorAssociates(Xor(Xor(a, b), c), d, r4);
    XorAssociates(Xor(Xor(Xor(a, b), c), d), e, r5);
    XorAssociates(Xor(Xor(Xor(Xor(a, b), c), d), e), f, r6);
    XorAssociates(Xor(Xor(Xor(Xor(Xor(a, b), c), d), e), f), g, h);
  }

  /** The tail loop: one byte by table 0. */
  lemma OneByte(r: nat, b: Byte)
    ensures Xor(Table(0, Low(Xor(r, b), 8)), Shr(r, 8)) == ByteSteps(Xor(r, b))
  {
    ByteStep(Xor(r, b));
    XorShr(r, b, 8);
    Pow2Small();
    ShrBound(b, 8, 8);
    NoXor(Shr(r, 8));
  }

  const ONES := 0xFFFFFFFF

  /** The CRC of a chunk, eight bytes at a time and then one by one, is the bitwise CRC for every length. */
  method Crc32(data: seq<Byte>) returns (crc: nat)
    ensures crc == Xor(Crc(ONES, data), ONES) && crc < Pow2(32)
  {
    Pow2Small();
    hide Pow2;
    hide Crc;
    hide Xor;
    hide Table;
    hide ByteSteps;
    hide Eight;
    hide Low;
    hide Shr;
    var r := ONES;
    var pos: nat, length: nat := 0, |data|;
    assert data[..0] == [];
    NoData(ONES);
    while length >= 8
      invariant pos + length == |data| && r == Crc(ONES, data[..pos]) && r < Pow2(32)
    {
      var d := data[pos..pos + 8];
      EightIsCrc(r, d);
      CrcBound(r, d);
      CrcConcat(ONES, data[..pos], d);
      assert data[..pos + 8] == data[..pos] + d;
      r := Eight(r, d);
      pos, length := pos + 8, length - 8;
    }
    while length > 0
      invariant pos + length == |data| && r == Crc(ONES, data[..pos]) && r < Pow2(32)
    {
      OneMore(ONES, data, pos);
      OneByte(r, data[pos]);
      CrcBound(ONES, data[..pos + 1]);
      r := Xor(Table(0, Low(Xor(r, data[pos]), 8)), Shr(r, 8));
      pos, length := pos + 1, length - 1;
    }
    assert data[..pos] == data;
    XorBound(r, ONES, 32);
    crc := Xor(r, ONES);
  }

  lemma NoData(r: nat)
    ensures Crc(r, []) == r
  {
  }

  lemma OneMore(r: nat, data: seq<Byte>, pos: nat)
    requires pos < |data|
    ensures Crc(r, data[..pos + 1]) == ByteSteps(Xor(Crc(r, data[..pos]), data[pos]))
  {
    hide ByteSteps;
    hide Xor;
    assert data[..pos + 1] == data[..pos] + [data[pos]];
    CrcConcat(r, data[..pos], [data[pos]]);
    assert [data[pos]][1..] == [];
    NoData(ByteSteps(Xor(Crc(r, data[..pos]), data[pos])));
  }

  // ---- which polynomial, which tables ----

  /** The polynomial of section 5.5: the terms of degree 26, 23, 22, 16, 12, 11, 10, 8, 7, 5, 4, 2, 1 and 0,
    the one of degree k in bit 31 - k. */
  lemma PolynomialTerms()
    ensures POLYNOMIAL == Pow2(31 - 26) + Pow2(31 - 23) + Pow2(31 - 22) + Pow2(31 - 16) + Pow2(31 - 12) + Pow2(31 - 11)
                          + Pow2(31 - 10) + Pow2(31 - 8) + Pow2(31 - 7) + Pow2(31 - 5) + Pow2(31 - 4) + Pow2(31 - 2)
                          + Pow2(31 - 1) + Pow2(31 - 0)
  {
    Pow2Small();
    Pow2Step(31);
    Pow2Step(30);
    Pow2Step(29);
    Pow2Step(28);
    Pow2Step(27);
    Pow2Step(26);
    Pow2Step(25);
    Pow2Step(24);
    Pow2Step(23);
    Pow2Step(22);
    Pow2Step(21);
    Pow2Step(20);
    Pow2Step(19);
    Pow2Step(18);
    Pow2Step(17);
    Pow2Step(16);
    hide Pow2;
  }

  /** Half the index is one step further. */
  lemma TableHalf(i: nat)
    ensures Table(0, i) == Step(Table(0, 2 * i))
  {
    hide Step;
    StepsAdd(i, 7, 1);
    assert Steps(2 * i, 8) == Steps(Step(2 * i), 7);
    EvenStep(i);
    assert Steps(Steps(i, 7), 1) == Step(Steps(i, 7));
  }

  lemma EvenStep(i: nat)
    ensures Step(2 * i) == i
  {
  }

  /** The low n bits apart from the rest. */
  lemma {:induction false} XorParts(a: nat, b: nat, x: nat, y: nat, n: nat)
    requires x < Pow2(n) && y < Pow2(n)
    ensures Xor(Pow2(n) * a + x, Pow2(n) * b + y) == Pow2(n) * Xor(a, b) + Xor(x, y)
    decreases n
  {
    hide Xor;
    if n == 0 {
      NoXor(0);
    } else {
      DoubleProduct(Pow2(n), Pow2(n - 1), a);
      DoubleProduct(Pow2(n), Pow2(n - 1), b);
      DoubleProduct(Pow2(n), Pow2(n - 1), Xor(a, b));
      XorParts(a, b, x / 2, y / 2, n - 1);
      XorDouble(Pow2(n - 1) * a, Pow2(n - 1) * b, x, y, Pow2(n - 1) * Xor(a, b));
    }
  }

  lemma XorDouble(u: nat, w: nat, x: nat, y: nat, v: nat)
    requires Xor(u + x / 2, w + y / 2) == v + Xor(x / 2, y / 2)
    ensures Xor(2 * u + x, 2 * w + y) == 2 * v + Xor(x, y)
  {
    hide Xor;
    XorDigit(x, y);
    XorDigit(2 * u + x, 2 * w + y);
    SameWord(Xor(2 * u + x, 2 * w + y), 2 * v + Xor(x, y));
  }

  /** The entries of table 0 at the powers of two; with TableSum they give all of it, and with TableNext all tables. */
  lemma TablePowers()
    ensures Table(0, 128) == 0xEDB88320 && Table(0, 64) == 0x76DC4190 && Table(0, 32) == 0x3B6E20C8
    ensures Table(0, 16) == 0x1DB71064 && Table(0, 8) == 0x0EDB8832 && Table(0, 4) == 0x076DC419
    ensures Table(0, 2) == 0xEE0E612C && Table(0, 1) == 0x77073096
  {
    hide Xor;
    TopEntry();
    LowEntry();
    hide Table;
    TableHalf(64);
    TableHalf(32);
    TableHalf(16);
    TableHalf(8);
    TableHalf(4);
    TableHalf(2);
    TableHalf(1);
  }

  lemma TopEntry()
    ensures Table(0, 128) == POLYNOMIAL
  {
    hide Xor;
    NoXor(POLYNOMIAL);
    StepsAdd(128, 7, 1);
    assert Steps(128, 7) == 1;
  }

  lemma LowEntry()
    ensures Xor(POLYNOMIAL, 0x03B6E20C) == 0xEE0E612C
  {
    Pow2Small();
    hide Xor;
    hide Pow2;
    Digits();
    XorParts(0xE, 0x0, 0xD, 0x3, 4);
    XorParts(0xED, 0x03, 0xB, 0xB, 4);
    XorParts(0xEDB, 0x03B, 0x8, 0x6, 4);
    XorParts(0xEDB8, 0x03B6, 0x8, 0xE, 4);
    XorParts(0xEDB88, 0x03B6E, 0x3, 0x2, 4);
    XorParts(0xEDB883, 0x03B6E2, 0x2, 0x0, 4);
    XorParts(0xEDB8832, 0x03B6E20, 0x0, 0xC, 4);
  }

  lemma Digits()
    ensures Xor(0xE, 0) == 0xE && Xor(0xD, 0x3) == 0xE && Xor(0xB, 0xB) == 0 && Xor(0x8, 0x6) == 0xE
    ensures Xor(0x8, 0xE) == 0x6 && Xor(0x3, 0x2) == 0x1 && Xor(0x2, 0) == 0x2 && Xor(0, 0xC) == 0xC
  {
    hide Xor;
    NoXor(0xE);
    NoXor(2);
    NoXor(0xC);
    NoXor(1);
    NoXor(3);
    XorSelf(0xB);
    XorSelf(1);
    XorDigit(0xD, 3);
    XorDigit(6, 1);
    XorDigit(8, 6);
    XorDigit(4, 3);
    XorDigit(2, 1);
    XorDigit(8, 0xE);
    XorDigit(4, 7);
    XorDigit(2, 3);
    XorDigit(3, 2);
    assert Xor(1, 1) == 0 && Xor(1, 0) == 1;
  }

  lemma TableSum(k: nat, a: nat, b: nat)
    ensures Table(k, Xor(a, b)) == Xor(Table(k, a), Table(k, b))
  {
    StepsXor(a, b, 8 * (k + 1));
  }

  /** Four bytes of ones cancel the initial register, and the final inversion is all that is left. */
  lemma FourOnes()
    ensures Xor(Crc(ONES, [255, 255, 255, 255]), ONES) == 0xFFFFFFFF
  {
    hide Xor;
    hide Crc;
    OnesByte(0xFFFFFF, [255, 255, 255]);
    OnesByte(0xFFFF, [255, 255]);
    OnesByte(0xFF, [255]);
    OnesByte(0, []);
    assert [255] + [255, 255, 255] == [255, 255, 255, 255];
    assert [255] + [255, 255] == [255, 255, 255];
    assert [255] + [255] == [255, 255];
    assert [255] + [] == [255];
    NoData(0);
    NoXor(ONES);
  }

  lemma OnesByte(h: nat, rest: seq<Byte>)
    ensures Crc(256 * h + 255, [255] + rest) == Crc(h, rest)
  {
    hide Steps;
    hide Xor;
    Pow2Small();
    hide Pow2;
    XorParts(h, 0, 255, 255, 8);
    NoXor(h);
    XorSelf(255);
    StepsShift(h, 8, 0);
    StepsNone(h);
    assert ([255] + rest)[1..] == rest;
  }
}
