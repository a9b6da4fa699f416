/** The canonical prefix code of RFC 1951 section 3.2.2, as arithmetic.

  A code of length l is an interval of size `Weight(l)` in [0, 2^15): the interval
  of all 15-bit words (first transmitted bit most significant) that begin with it.
  In canonical order the intervals are laid end to end from 0, so their total
  size, the Kraft sum, decides everything: at most 2^15 means prefix-free, and
  exactly 2^15 means that every bit pattern is decodable. */
module Canonical {
  import opened Bits

  const MAX_BITS := 15

  predicate ValidLengths(lengths: seq<nat>)
  {
    forall i :: 0 <= i < |lengths| ==> lengths[i] <= MAX_BITS
  }

  /** The number of symbols of length l. */
  function Count(lengths: seq<nat>, l: nat): (r: nat)
    ensures r <= |lengths|
  {
    if lengths == [] then 0
    else Count(lengths[..|lengths| - 1], l) + if lengths[|lengths| - 1] == l then 1 else 0
  }

  /** Step 2 of RFC 1951 section 3.2.2: the first code of length l, with bl_count[0] = 0. */
  function NextCode(lengths: seq<nat>, l: nat): nat
  {
    if l <= 1 then 0 else 2 * (NextCode(lengths, l - 1) + Count(lengths, l - 1))
  }

  /** Step 3: codes of one length are consecutive, in symbol order. */
  function Code(lengths: seq<nat>, s: nat): nat
    requires s < |lengths|
  {
    NextCode(lengths, lengths[s]) + Count(lengths[..s], lengths[s])
  }

  function Weight(l: nat): nat
    requires l <= MAX_BITS
  {
    Pow2(MAX_BITS - l)
  }

  /** The Kraft sum, scaled by 2^15. */
  function Kraft(lengths: seq<nat>): nat
    requires ValidLengths(lengths)
  {
    if lengths == [] then 0
    else
      var last := lengths[|lengths| - 1];
      Kraft(lengths[..|lengths| - 1]) + if last > 0 then Weight(last) else 0
  }

  /** The number of symbols that have a code. */
  function Present(lengths: seq<nat>): nat
  {
    |lengths| - Count(lengths, 0)
  }

  /** The part of the Kraft sum that belongs to codes shorter than l. */
  function Below(lengths: seq<nat>, l: nat): nat
    requires ValidLengths(lengths)
  {
    if lengths == [] then 0
    else
      var last := lengths[|lengths| - 1];
      Below(lengths[..|lengths| - 1], l) + if 0 < last < l then Weight(last) else 0
  }

  // ---- counting ----

  lemma {:induction false} CountPrefix(lengths: seq<nat>, i: nat, j: nat, l: nat)
    requires i <= j <= |lengths|
    ensures Count(lengths[..i], l) <= Count(lengths[..j], l)
    ensures i < j && lengths[i] == l ==> Count(lengths[..i], l) + 1 <= Count(lengths[..j], l)
    decreases j
  {
    if i < j {
      assert lengths[..j][..j - 1] == lengths[..j - 1];
      CountPrefix(lengths, i, j - 1, l);
    }
  }

  lemma {:induction false} CountAll(lengths: seq<nat>, s: nat)
    requires s < |lengths|
    ensures Count(lengths[..s], lengths[s]) + 1 <= Count(lengths, lengths[s])
  {
    assert lengths[..|lengths|] == lengths;
    CountPrefix(lengths, s, |lengths|, lengths[s]);
  }

  /** The j-th symbol of length l. */
  lemma {:induction false} NthOfLength(lengths: seq<nat>, l: nat, j: nat) returns (s: nat)
    requires j < Count(lengths, l)
    ensures s < |lengths| && lengths[s] == l && Count(lengths[..s], l) == j
  {
    var n := |lengths| - 1;
    if j < Count(lengths[..n], l) {
      s := NthOfLength(lengths[..n], l, j);
      assert lengths[..n][..s] == lengths[..s];
    } else {
      s := n;
    }
  }

  // ---- intervals ----

  lemma WeightHalf(l: nat)
    requires l < MAX_BITS
    ensures Weight(l) == 2 * Weight(l + 1)
  {
    Pow2Step(MAX_BITS - l - 1);
  }

  lemma {:induction false} BelowStep(lengths: seq<nat>, l: nat)
    requires ValidLengths(lengths) && 1 <= l <= MAX_BITS
    ensures Below(lengths, l + 1) == Below(lengths, l) + Count(lengths, l) * Weight(l)
  {
    hide Weight;
    if lengths != [] {
      BelowStep(lengths[..|lengths| - 1], l);
    }
  }

  lemma {:induction false} BelowAll(lengths: seq<nat>)
    requires ValidLengths(lengths)
    ensures Below(lengths, MAX_BITS + 1) == Kraft(lengths)
  {
    hide Weight;
    if lengths != [] { BelowAll(lengths[..|lengths| - 1]); }
  }

  lemma {:induction false} BelowOne(lengths: seq<nat>)
    requires ValidLengths(lengths)
    ensures Below(lengths, 1) == 0
  {
    if lengths != [] { BelowOne(lengths[..|lengths| - 1]); }
  }

  lemma {:induction false} BelowMonotone(lengths: seq<nat>, a: nat, b: nat)
    requires ValidLengths(lengths) && a <= b
    ensures Below(lengths, a) <= Below(lengths, b)
  {
    hide Weight;
    if lengths != [] { BelowMonotone(lengths[..|lengths| - 1], a, b); }
  }

  lemma {:induction false} NextCodeBelow(lengths: seq<nat>, l: nat)
    requires ValidLengths(lengths) && 1 <= l <= MAX_BITS
    ensures NextCode(lengths, l) * Weight(l) == Below(lengths, l)
  {
    if l == 1 {
      BelowOne(lengths);
    } else {
      NextCodeBelow(lengths, l - 1);
      BelowStep(lengths, l - 1);
      WeightHalf(l - 1);
      DoubleTimes(NextCode(lengths, l - 1), Count(lengths, l - 1), Weight(l));
    }
  }

  lemma DoubleTimes(a: int, b: int, w: int)
    ensures (2 * (a + b)) * w == a * (2 * w) + b * (2 * w)
  {
  }

  /** Where a symbol's interval lies among those of its length. */
  lemma CodeInterval(lengths: seq<nat>, s: nat)
    requires ValidLengths(lengths) && s < |lengths| && lengths[s] > 0
    ensures Code(lengths, s) * Weight(lengths[s])
         == Below(lengths, lengths[s]) + Count(lengths[..s], lengths[s]) * Weight(lengths[s])
    ensures Code(lengths, s) * Weight(lengths[s]) + Weight(lengths[s]) <= Below(lengths, lengths[s] + 1)
  {
    hide Weight;
    hide NextCode;
    hide Below;
    hide Count;
    var l := lengths[s];
    var c := Count(lengths[..s], l);
    NextCodeBelow(lengths, l);
    Distribute(NextCode(lengths, l), c, Weight(l));
    CountAll(lengths, s);
    BelowStep(lengths, l);
    MulStrict(Weight(l), c, Count(lengths, l));
  }

  lemma Distribute(a: int, b: int, w: int)
    ensures (a + b) * w == a * w + b * w
  {
  }

  /** Distinct symbols own disjoint intervals, in canonical order. */
  lemma IntervalsOrdered(lengths: seq<nat>, s: nat, t: nat)
    requires ValidLengths(lengths) && s < |lengths| && t < |lengths|
    requires 0 < lengths[s] && (lengths[s] < lengths[t] || (lengths[s] == lengths[t] && s < t))
    ensures Code(lengths, s) * Weight(lengths[s]) + Weight(lengths[s]) <= Code(lengths, t) * Weight(lengths[t])
  {
    hide Weight;
    hide NextCode;
    hide Below;
    hide Count;
    hide Code;
    CodeInterval(lengths, s);
    CodeInterval(lengths, t);
    var l := lengths[s];
    if l < lengths[t] {
      BelowMonotone(lengths, l + 1, lengths[t]);
    } else {
      CountPrefix(lengths, s, t, l);
      MulStrict(Weight(l), Count(lengths[..s], l), Count(lengths[..t], l));
    }
  }

  lemma IntervalInKraft(lengths: seq<nat>, s: nat)
    requires ValidLengths(lengths) && s < |lengths| && lengths[s] > 0
    ensures Code(lengths, s) * Weight(lengths[s]) + Weight(lengths[s]) <= Kraft(lengths)
  {
    hide Weight;
    hide Code;
    hide Below;
    CodeInterval(lengths, s);
    BelowMonotone(lengths, lengths[s] + 1, MAX_BITS + 1);
    BelowAll(lengths);
  }

  /** With a Kraft sum of at most 1 a code fits in its length: the source's mask changes nothing. */
  lemma CodeFits(lengths: seq<nat>, s: nat)
    requires ValidLengths(lengths) && s < |lengths| && lengths[s] > 0
    requires Kraft(lengths) <= Pow2(MAX_BITS)
    ensures Code(lengths, s) < Pow2(lengths[s])
  {
    hide Code;
    hide Kraft;
    hide Pow2;
    var l, c := lengths[s], Code(lengths, s);
    IntervalInKraft(lengths, s);
    Pow2Add(l, MAX_BITS - l);
    if c >= Pow2(l) { MulMonotone(Pow2(l), c, Weight(l)); }
  }

  lemma MulMonotone(a: nat, b: nat, w: nat)
    requires a <= b
    ensures a * w <= b * w
  {
  }

  /** Every word below the Kraft sum begins with some code. */
  lemma {:induction false} Tiling(lengths: seq<nat>, l: nat, u: nat) returns (s: nat)
    requires ValidLengths(lengths) && l <= MAX_BITS
    requires u < Below(lengths, l + 1)
    ensures s < |lengths| && 0 < lengths[s] <= l
    ensures Code(lengths, s) * Weight(lengths[s]) <= u < Code(lengths, s) * Weight(lengths[s]) + Weight(lengths[s])
  {
    hide Below;
    hide NextCode;
    hide Weight;
    hide Count;
    s := 0;
    if l == 0 {
      BelowOne(lengths);
      assert false;
    } else if u < Below(lengths, l) {
      s := Tiling(lengths, l - 1, u);
    } else {
      BelowStep(lengths, l);
      var d := u - Below(lengths, l);
      var j := Quotient(d, Weight(l), Count(lengths, l));
      s := NthOfLength(lengths, l, j);
      CodeInterval(lengths, s);
    }
  }

  lemma {:induction false} Quotient(d: nat, w: nat, n: nat) returns (j: nat)
    requires d < n * w
    ensures j < n && j * w <= d < j * w + w
  {
    assert n != 0;
    if d < w {
      j := 0;
    } else {
      assert n * w == (n - 1) * w + w;
      var k := Quotient(d - w, w, n - 1);
      j := k + 1;
      assert (k + 1) * w == k * w + w;
    }
  }

  // ---- matching a bit pattern ----

  /** The word v, LSB first as the reader sees it, begins with the code of s. */
  predicate Matches(lengths: seq<nat>, s: nat, v: nat)
    requires s < |lengths|
  {
    lengths[s] > 0 && Rev(v, lengths[s]) == Code(lengths, s)
  }

  lemma MatchesInterval(lengths: seq<nat>, s: nat, v: nat)
    requires ValidLengths(lengths) && s < |lengths| && lengths[s] > 0
    ensures var u, c, w := Rev(v, MAX_BITS), Code(lengths, s), Weight(lengths[s]);
            Matches(lengths, s, v) <==> c * w <= u < c * w + w
  {
    hide Code;
    hide Rev;
    hide Pow2;
    hide Shr;
    RevPrefix(v, MAX_BITS, lengths[s]);
    ShrInterval(Rev(v, MAX_BITS), MAX_BITS - lengths[s], Code(lengths, s));
  }

  /** The code is prefix-free: no word begins with the codes of two symbols. */
  lemma PrefixFree(lengths: seq<nat>, s: nat, t: nat, v: nat)
    requires ValidLengths(lengths) && s < |lengths| && t < |lengths|
    requires Matches(lengths, s, v) && Matches(lengths, t, v)
    ensures s == t
  {
    hide Code;
    hide Rev;
    hide Weight;
    MatchesInterval(lengths, s, v);
    MatchesInterval(lengths, t, v);
    if s != t {
      if lengths[s] < lengths[t] || (lengths[s] == lengths[t] && s < t) {
        IntervalsOrdered(lengths, s, t);
      } else {
        IntervalsOrdered(lengths, t, s);
      }
    }
  }

  /** A complete code: every word begins with the code of some symbol. */
  lemma Complete(lengths: seq<nat>, v: nat) returns (s: nat)
    requires ValidLengths(lengths) && Kraft(lengths) >= Pow2(MAX_BITS)
    ensures s < |lengths| && Matches(lengths, s, v)
  {
    hide Code;
    hide Rev;
    hide Weight;
    hide Below;
    RevBound(v, MAX_BITS);
    BelowAll(lengths);
    s := Tiling(lengths, MAX_BITS, Rev(v, MAX_BITS));
    MatchesInterval(lengths, s, v);
  }

  /** An incomplete code: the all-ones word begins with no code. */
  lemma Incomplete(lengths: seq<nat>, s: nat, v: nat)
    requires ValidLengths(lengths) && s < |lengths| && Kraft(lengths) <= Rev(v, MAX_BITS)
    ensures !Matches(lengths, s, v)
  {
    hide Code;
    hide Rev;
    hide Weight;
    if Matches(lengths, s, v) {
      MatchesInterval(lengths, s, v);
      IntervalInKraft(lengths, s);
    }
  }

  // ---- trailing absent symbols ----

  function Zeros(n: nat): (r: seq<nat>)
    ensures |r| == n && forall i :: 0 <= i < n ==> r[i] == 0
  {
    seq(n, _ => 0)
  }

  lemma {:induction false} CountZeros(lengths: seq<nat>, n: nat, l: nat)
    requires l > 0
    ensures Count(lengths + Zeros(n), l) == Count(lengths, l)
  {
    var longer := lengths + Zeros(n);
    if n == 0 {
      assert longer == lengths;
    } else {
      CountZeros(lengths, n - 1, l);
      assert longer[..|longer| - 1] == lengths + Zeros(n - 1);
      assert longer[|longer| - 1] == 0;
    }
  }

  lemma {:induction false} NextCodeZeros(lengths: seq<nat>, n: nat, l: nat)
    ensures NextCode(lengths + Zeros(n), l) == NextCode(lengths, l)
  {
    if l > 1 {
      NextCodeZeros(lengths, n, l - 1);
      CountZeros(lengths, n, l - 1);
    }
  }

  /** Padding the alphabet with absent symbols leaves every code as it was. */
  lemma CodeZeros(lengths: seq<nat>, n: nat, s: nat)
    requires s < |lengths|
    ensures Code(lengths + Zeros(n), s) == Code(lengths, s)
  {
    NextCodeZeros(lengths, n, lengths[s]);
    assert (lengths + Zeros(n))[..s] == lengths[..s];
  }

  lemma {:induction false} KraftZeros(lengths: seq<nat>, n: nat)
    requires ValidLengths(lengths)
    ensures ValidLengths(lengths + Zeros(n)) && Kraft(lengths + Zeros(n)) == Kraft(lengths)
  {
    hide Weight;
    var longer := lengths + Zeros(n);
    if n == 0 {
      assert longer == lengths;
    } else {
      KraftZeros(lengths, n - 1);
      assert longer[..|longer| - 1] == lengths + Zeros(n - 1);
      assert longer[|longer| - 1] == 0;
    }
  }
}
