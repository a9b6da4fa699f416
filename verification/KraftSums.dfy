/** Kraft sums of lengths within a limit, scaled to be whole. */
module KraftSums {
  import opened Bits
  import opened Canonical

  predicate AtMost(lengths: seq<nat>, depth: nat)
  {
    forall i :: 0 <= i < |lengths| ==> lengths[i] <= depth
  }

  /** The Kraft sum scaled by 2^depth. */
  function KraftAt(lengths: seq<nat>, depth: nat): nat
    requires AtMost(lengths, depth)
  {
    if lengths == [] then 0
    else
      var last := lengths[|lengths| - 1];
      KraftAt(lengths[..|lengths| - 1], depth) + if last > 0 then Pow2(depth - last) else 0
  }

  lemma {:induction false} KraftScale(lengths: seq<nat>, depth: nat)
    requires AtMost(lengths, depth) && depth <= MAX_BITS
    ensures ValidLengths(lengths) && Kraft(lengths) == Pow2(MAX_BITS - depth) * KraftAt(lengths, depth)
  {
    if lengths != [] {
      var last := lengths[|lengths| - 1];
      KraftScale(lengths[..|lengths| - 1], depth);
      hide Pow2;
      if last > 0 {
        Pow2Add(MAX_BITS - depth, depth - last);
        assert MAX_BITS - depth + (depth - last) == MAX_BITS - last;
      }
      DistributeLeft(Pow2(MAX_BITS - depth), KraftAt(lengths[..|lengths| - 1], depth), if last > 0 then Pow2(depth - last) else 0);
    }
  }

  lemma DistributeLeft(p: int, a: int, b: int)
    ensures p * (a + b) == p * a + p * b
  {
  }

  /** Giving an absent symbol a code adds that code's weight. */
  lemma {:induction false} KraftUpdate(lengths: seq<nat>, depth: nat, s: nat, l: nat)
    requires AtMost(lengths, depth) && s < |lengths| && lengths[s] == 0 && 0 < l <= depth
    ensures AtMost(lengths[s := l], depth)
    ensures KraftAt(lengths[s := l], depth) == KraftAt(lengths, depth) + Pow2(depth - l)
  {
    hide Pow2;
    var n := |lengths| - 1;
    var r := lengths[s := l];
    if s < n {
      KraftUpdate(lengths[..n], depth, s, l);
      assert r[..n] == lengths[..n][s := l];
    } else {
      assert r[..n] == lengths[..n];
    }
  }

  lemma {:induction false} KraftZeroes(n: nat, depth: nat)
    ensures AtMost(Zeros(n), depth) && KraftAt(Zeros(n), depth) == 0
  {
    if n > 0 {
      KraftZeroes(n - 1, depth);
      assert Zeros(n)[..n - 1] == Zeros(n - 1);
    }
  }
}
