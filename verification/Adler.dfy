/** Adler-32 (RFC 1950 section 8.2), with the modulo deferred over runs of 5552 bytes. */
module Adler {
  import opened Bits

  const BASE := 65521
  const RUN := 5552
  const TWO_32 := 0x1_0000_0000

  /** The two sums of RFC 1950 section 8.2, reduced after every byte. */
  function Sums(s1: nat, s2: nat, data: seq<Byte>): (r: (nat, nat))
    decreases |data|
  {
    if data == [] then (s1, s2)
    else
      var t := (s1 + data[0]) % BASE;
      Sums(t, (s2 + t) % BASE, data[1..])
  }

  lemma {:induction false} SumsPush(s1: nat, s2: nat, data: seq<Byte>, b: Byte)
    ensures var (t1, t2) := Sums(s1, s2, data);
            var u := (t1 + b) % BASE;
            Sums(s1, s2, data + [b]) == (u, (t2 + u) % BASE)
    decreases |data|
  {
    if data == [] {
      assert [b][1..] == [];
      assert data + [b] == [b];
    } else {
      assert (data + [b])[1..] == data[1..] + [b];
      var t := (s1 + data[0]) % BASE;
      SumsPush(t, (s2 + t) % BASE, data[1..], b);
    }
  }

  lemma {:induction false} SumsBound(s1: nat, s2: nat, data: seq<Byte>)
    requires s1 < 65536 && s2 < 65536
    ensures Sums(s1, s2, data).0 < 65536 && Sums(s1, s2, data).1 < 65536
    ensures data != [] ==> Sums(s1, s2, data).0 < BASE && Sums(s1, s2, data).1 < BASE
    decreases |data|
  {
    if data != [] {
      var t := (s1 + data[0]) % BASE;
      SumsBound(t, (s2 + t) % BASE, data[1..]);
    }
  }

  /** The checksum that continues from adler. */
  function Checksum(adler: nat, data: seq<Byte>): (r: nat)
    requires adler < TWO_32
    ensures r < TWO_32
  {
    var (s1, s2) := Sums(adler % 65536, adler / 65536, data);
    SumsBound(adler % 65536, adler / 65536, data);
    s2 * 65536 + s1
  }

  /** Starting below 2^16, neither sum reaches 2^32 in i <= 5552 steps. */
  lemma RunFits(i: nat)
    requires i <= RUN
    ensures 65535 + 255 * i < TWO_32
    ensures 65535 * (i + 1) + 255 * Triangle(i) < TWO_32
  {
    TriangleMonotone(i, RUN);
    TriangleClosed(RUN);
  }

  function Triangle(i: nat): nat
  {
    if i == 0 then 0 else i + Triangle(i - 1)
  }

  lemma {:induction false} TriangleMonotone(i: nat, j: nat)
    requires i <= j
    ensures Triangle(i) <= Triangle(j)
  {
    if i < j { TriangleMonotone(i, j - 1); }
  }

  lemma {:induction false} TriangleClosed(i: nat)
    ensures 2 * Triangle(i) == i * (i + 1)
  {
    if i > 0 {
      TriangleClosed(i - 1);
      assert i * (i + 1) == (i - 1) * i + 2 * i;
    }
  }

  /** t1 and t2 are the sums of data, up to multiples of 65521. */
  predicate Congruent(s1: nat, s2: nat, data: seq<Byte>, t1: nat, t2: nat)
  {
    var (u1, u2) := Sums(s1, s2, data);
    t1 % BASE == u1 % BASE && t2 % BASE == u2 % BASE
  }

  lemma ModAdd(x: nat, y: nat, b: nat)
    requires x % BASE == y % BASE
    ensures (x + b) % BASE == (y + b) % BASE
  {
  }

  lemma ModMod(x: nat)
    ensures (x % BASE) % BASE == x % BASE
  {
  }

  lemma CongruentStep(s1: nat, s2: nat, data: seq<Byte>, t1: nat, t2: nat, b: Byte)
    requires Congruent(s1, s2, data, t1, t2)
    ensures Congruent(s1, s2, data + [b], t1 + b, t2 + (t1 + b))
  {
    hide Sums;
    SumsPush(s1, s2, data, b);
    var (u1, u2) := Sums(s1, s2, data);
    var u := (u1 + b) % BASE;
    ModAdd(t1, u1, b);
    ModMod(u1 + b);
    ModMod(u2 + u);
    ModAdd(t2, u2, u);
    ModAdd(t1 + b, u, t2);
  }

  lemma CongruentStart(s1: nat, s2: nat)
    ensures Congruent(s1, s2, [], s1, s2)
  {
  }

  /** One run without reductions: congruent to the per-byte sums, and without overflow. */
  method SumRun(s1: nat, s2: nat, data: seq<Byte>) returns (t1: nat, t2: nat)
    requires s1 < 65536 && s2 < 65536 && |data| <= RUN
    ensures t1 < TWO_32 && t2 < TWO_32 && Congruent(s1, s2, data, t1, t2)
  {
    hide Congruent;
    hide Triangle;
    t1, t2 := s1, s2;
    assert data[..0] == [];
    CongruentStart(s1, s2);
    RunFits(0);
    for i := 0 to |data|
      invariant t1 <= 65535 + 255 * i && t2 <= 65535 * (i + 1) + 255 * Triangle(i)
      invariant t1 < TWO_32 && t2 < TWO_32
      invariant Congruent(s1, s2, data[..i], t1, t2)
    {
      RunFits(i + 1);
      TriangleStep(i);
      CongruentStep(s1, s2, data[..i], t1, t2, data[i]);
      assert data[..i + 1] == data[..i] + [data[i]];
      t1 := Wrap(t1 + data[i]);
      t2 := Wrap(t2 + t1);
    }
    assert data[..|data|] == data;
  }

  /** Unsigned 32-bit arithmetic. */
  function Wrap(x: nat): (r: nat)
    ensures x < TWO_32 ==> r == x
  {
    x % TWO_32
  }

  lemma NoBytes(s1: nat, s2: nat)
    ensures Sums(s1, s2, []) == (s1, s2)
  {
  }

  lemma TriangleStep(i: nat)
    ensures Triangle(i + 1) == i + 1 + Triangle(i)
  {
  }

  lemma {:induction false} SumsConcat(s1: nat, s2: nat, a: seq<Byte>, b: seq<Byte>)
    ensures Sums(s1, s2, a + b) == Sums(Sums(s1, s2, a).0, Sums(s1, s2, a).1, b)
    decreases |a|
  {
    if a == [] {
      assert a + b == b;
    } else {
      assert (a + b)[1..] == a[1..] + b;
      var t := (s1 + a[0]) % BASE;
      SumsConcat(t, (s2 + t) % BASE, a[1..], b);
    }
  }

  /** The source's loop, in 32-bit arithmetic, computes the per-byte definition for every length. */
  method UpdateAdler32(adler: nat, data: seq<Byte>) returns (r: nat)
    requires adler < TWO_32
    ensures r == Checksum(adler, data)
  {
    hide Sums;
    var s1, s2 := adler % 65536, adler / 65536;
    var pos := 0;
    assert data[..0] == [];
    NoBytes(s1, s2);
    while pos < |data|
      invariant pos <= |data| && s1 < 65536 && s2 < 65536
      invariant (s1, s2) == Sums(adler % 65536, adler / 65536, data[..pos])
    {
      var amount := if |data| - pos > RUN then RUN else |data| - pos;
      var run := data[pos..pos + amount];
      SumsConcat(adler % 65536, adler / 65536, data[..pos], run);
      assert data[..pos + amount] == data[..pos] + run;
      ghost var from1, from2 := s1, s2;
      s1, s2 := SumRun(s1, s2, run);
      SumsBound(from1, from2, run);
      s1 := s1 % BASE;
      s2 := s2 % BASE;
      pos := pos + amount;
    }
    assert data[..|data|] == data;
    r := s2 * 65536 + s1;
  }

  /** The checksum of a buffer; its length is cut to 32 bits on the way in. */
  function Adler32(data: seq<Byte>): (r: nat)
    ensures r < TWO_32
  {
    Checksum(1, data[..|data| % TWO_32])
  }

  method ComputeAdler32(data: seq<Byte>) returns (r: nat)
    ensures r == Adler32(data)
  {
    r := UpdateAdler32(1, data[..|data| % TWO_32]);
  }

  // ---- the definition without remainders ----

  ghost function ByteSum(data: seq<Byte>): nat
    decreases |data|
  {
    if data == [] then 0 else data[0] + ByteSum(data[1..])
  }

  /** Every byte as often as there are bytes from it to the end. */
  ghost function WeightedSum(data: seq<Byte>): nat
    decreases |data|
  {
    if data == [] then 0 else |data| * data[0] + WeightedSum(data[1..])
  }

  lemma ModTimes(x: int, n: nat, rest: int)
    ensures (n * (x % 65521) + rest) % 65521 == (n * x + rest) % 65521
  {
    var q := x / 65521;
    assert x == 65521 * q + x % 65521;
    assert n * x == 65521 * (n * q) + n * (x % 65521);
    ModShift(n * (x % 65521) + rest, n * q);
  }

  lemma ModShift(x: int, k: int)
    ensures (x + 65521 * k) % 65521 == x % 65521
  {
  }

  /** Reducing at the end gives the same as reducing after every byte. */
  lemma {:induction false} SumsMean(s1: nat, s2: nat, data: seq<Byte>)
    requires s1 < 65521 && s2 < 65521
    ensures Sums(s1, s2, data) == ((s1 + ByteSum(data)) % 65521, (s2 + |data| * s1 + WeightedSum(data)) % 65521)
    decreases |data|
  {
    if data != [] {
      var b, rest := data[0], data[1..];
      var t := (s1 + b) % 65521;
      SumsMean(t, (s2 + t) % 65521, rest);
      FirstSum(s1, b, ByteSum(rest));
      SecondSum(s1, s2, b, |rest|, WeightedSum(rest));
    }
  }

  lemma FirstSum(s1: nat, b: nat, sum: nat)
    ensures ((s1 + b) % 65521 + sum) % 65521 == (s1 + (b + sum)) % 65521
  {
    ModTimes(s1 + b, 1, sum);
  }

  lemma SecondSum(s1: nat, s2: nat, b: nat, n: nat, sum: nat)
    ensures var t := (s1 + b) % 65521;
            ((s2 + t) % 65521 + n * t + sum) % 65521 == (s2 + (n + 1) * s1 + ((n + 1) * b + sum)) % 65521
  {
    var x := s1 + b;
    var t := x % 65521;
    ModTimes(s2 + t, 1, n * t + sum);
    ModTimes(x, n + 1, s2 + sum);
    assert (n + 1) * t == n * t + t;
    assert (n + 1) * x == (n + 1) * s1 + (n + 1) * b;
  }

  /** Adler-32 in one formula: the sum of all bytes plus one, and the sum of all those partial sums, modulo 65521. */
  lemma AdlerMeans(data: seq<Byte>)
    requires |data| < 0x1_0000_0000
    ensures Adler32(data) ==
            65536 * ((|data| + WeightedSum(data)) % 65521) + (1 + ByteSum(data)) % 65521
  {
    hide Sums;
    SumsMean(1, 0, data);
    assert data[..|data|] == data;
  }
}
