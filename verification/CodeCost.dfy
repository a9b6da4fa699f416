/** The cost of code lengths: those of the full package-merge chain are the cheapest there are. */
module CodeCost {
  import opened Bits
  import Canonical
  import opened PackageMerge
  import opened PackageItems

  /** Code lengths for the leaves: each present, none above the limit. */
  predicate LengthsWithin(x: seq<nat>, limit: nat)
  {
    forall i :: 0 <= i < |x| ==> 1 <= x[i] <= limit
  }

  /** The weighted sum of the first m lengths. */
  function WeightSum(leaves: seq<Leaf>, x: seq<nat>, m: nat): int
    requires m <= |x| && m <= |leaves|
  {
    if m == 0 then 0 else WeightSum(leaves, x, m - 1) + leaves[m - 1].weight * x[m - 1]
  }

  /** The code space of the first m lengths, scaled by 2^limit. */
  function SpaceUsed(x: seq<nat>, limit: nat, m: nat): nat
    requires m <= |x| && LengthsWithin(x, limit)
  {
    if m == 0 then 0 else SpaceUsed(x, limit, m - 1) + Pow2(limit - x[m - 1])
  }

  // ---- lengths as a chain ----

  /** How many of the first m lengths are at least l. */
  function CountLong(x: seq<nat>, l: nat, m: nat): (r: nat)
    requires m <= |x|
    ensures r <= m
  {
    if m == 0 then 0 else CountLong(x, l, m - 1) + if x[m - 1] >= l then 1 else 0
  }

  /** The chain that counts, in list c, the lengths of at least limit - c. */
  function Counting(x: seq<nat>, limit: nat, c: nat): (r: Chain)
    requires c < limit
    ensures r.Node? && Depth(r) == c + 1 && Within(r, |x|)
  {
    Node(0, CountLong(x, limit - c, |x|), if c == 0 then Nil else Counting(x, limit, c - 1))
  }

  // ---- what it costs ----

  /** In how many of the lists 0 to c a length is counted. */
  function Times(v: nat, limit: nat, c: nat): nat
    requires v <= limit
  {
    if v + c >= limit then v + c + 1 - limit else 0
  }

  function CostUpTo(leaves: seq<Leaf>, x: seq<nat>, limit: nat, c: nat, m: nat): int
    requires m <= |leaves| == |x| && LengthsWithin(x, limit)
  {
    if m == 0 then 0 else CostUpTo(leaves, x, limit, c, m - 1) + leaves[m - 1].weight * Times(x[m - 1], limit, c)
  }

  /** The weight of those of the first m leaves with a length of at least l. */
  function LongSum(leaves: seq<Leaf>, x: seq<nat>, l: nat, m: nat): int
    requires m <= |leaves| == |x|
  {
    if m == 0 then 0 else LongSum(leaves, x, l, m - 1) + if x[m - 1] >= l then leaves[m - 1].weight else 0
  }

  /** The lightest leaves weigh no more than any others. */
  lemma {:induction false} LightestFirst(leaves: seq<Leaf>, x: seq<nat>, l: nat, m: nat)
    requires SortedLeaves(leaves) && m <= |leaves| == |x|
    ensures LightSum(leaves, CountLong(x, l, m)) <= LongSum(leaves, x, l, m)
  {
    if m > 0 { LightestFirst(leaves, x, l, m - 1); }
  }

  lemma {:induction false} CostOfList(leaves: seq<Leaf>, x: seq<nat>, limit: nat, c: nat, m: nat)
    requires c < limit && m <= |leaves| == |x| && LengthsWithin(x, limit)
    ensures CostUpTo(leaves, x, limit, c, m) ==
            LongSum(leaves, x, limit - c, m) + if c == 0 then 0 else CostUpTo(leaves, x, limit, c - 1, m)
  {
    if m > 0 {
      CostOfList(leaves, x, limit, c, m - 1);
      OneMoreTime(leaves[m - 1].weight, x[m - 1], limit, c);
    }
  }

  lemma OneMoreTime(w: int, v: nat, limit: nat, c: nat)
    requires 1 <= v <= limit && c < limit
    ensures w * Times(v, limit, c) == (if v >= limit - c then w else 0) + if c == 0 then 0 else w * Times(v, limit, c - 1)
  {
    if v >= limit - c && c > 0 {
      assert Times(v, limit, c) == Times(v, limit, c - 1) + 1;
      assert w * (Times(v, limit, c - 1) + 1) == w * Times(v, limit, c - 1) + w;
    }
  }

  lemma {:induction false} CountingCost(leaves: seq<Leaf>, x: seq<nat>, limit: nat, c: nat)
    requires SortedLeaves(leaves) && c < limit && |leaves| == |x| && LengthsWithin(x, limit)
    ensures Cost(leaves, Counting(x, limit, c)) <= CostUpTo(leaves, x, limit, c, |x|)
  {
    hide CostUpTo;
    hide LongSum;
    hide LightSum;
    LightestFirst(leaves, x, limit - c, |x|);
    CostOfList(leaves, x, limit, c, |x|);
    if c > 0 { CountingCost(leaves, x, limit, c - 1); }
  }

  lemma {:induction false} AllTimes(leaves: seq<Leaf>, x: seq<nat>, limit: nat, m: nat)
    requires limit > 0 && m <= |leaves| == |x| && LengthsWithin(x, limit)
    ensures CostUpTo(leaves, x, limit, limit - 1, m) == WeightSum(leaves, x, m)
  {
    if m > 0 { AllTimes(leaves, x, limit, m - 1); }
  }

  // ---- how many items it has ----

  /** The code space that the lists 0 to c give a length. */
  function Given(v: nat, limit: nat, c: nat): int
    requires v <= limit
  {
    if v + c >= limit then Pow2(c + 1) - Pow2(limit - v) else 0
  }

  function GivenUpTo(x: seq<nat>, limit: nat, c: nat, m: nat): int
    requires m <= |x| && LengthsWithin(x, limit)
  {
    if m == 0 then 0 else GivenUpTo(x, limit, c, m - 1) + Given(x[m - 1], limit, c)
  }

  lemma GivenNext(v: nat, limit: nat, c: nat)
    requires 1 <= v <= limit && c < limit
    ensures Given(v, limit, c) == (if v >= limit - c then Pow2(c) else 0) + if c == 0 then 0 else Given(v, limit, c - 1)
  {
    Pow2Step(c);
  }

  lemma {:induction false} GivenByList(x: seq<nat>, limit: nat, c: nat, m: nat)
    requires c < limit && m <= |x| && LengthsWithin(x, limit)
    ensures GivenUpTo(x, limit, c, m) ==
            CountLong(x, limit - c, m) * Pow2(c) + if c == 0 then 0 else GivenUpTo(x, limit, c - 1, m)
  {
    hide Given;
    hide Pow2;
    if m > 0 {
      GivenByList(x, limit, c, m - 1);
      GivenNext(x[m - 1], limit, c);
      Canonical.Distribute(CountLong(x, limit - c, m - 1), 1, Pow2(c));
    }
  }

  /** Rounding down loses less than one item. */
  lemma {:induction false} CountingItems(x: seq<nat>, limit: nat, c: nat)
    requires c < limit && LengthsWithin(x, limit)
    ensures GivenUpTo(x, limit, c, |x|) < Pow2(c) * (Items(Counting(x, limit, c)) + 1)
  {
    hide GivenUpTo;
    GivenByList(x, limit, c, |x|);
    var a := CountLong(x, limit - c, |x|);
    if c > 0 {
      CountingItems(x, limit, c - 1);
      Pow2Step(c - 1);
      HalfLost(Pow2(c - 1), Items(Counting(x, limit, c - 1)), a, GivenUpTo(x, limit, c - 1, |x|));
    }
  }

  lemma HalfLost(p: nat, items: nat, a: nat, given: int)
    requires given < p * (items + 1)
    ensures a * (2 * p) + given < (2 * p) * (a + items / 2 + 1)
  {
    var h := items / 2;
    MulMonotoneLeft(items + 1, 2 * h + 2, p);
    assert (2 * p) * (a + h + 1) == a * (2 * p) + p * (2 * h + 2);
  }

  lemma {:induction false} AllGiven(x: seq<nat>, limit: nat, m: nat)
    requires limit > 0 && m <= |x| && LengthsWithin(x, limit)
    ensures GivenUpTo(x, limit, limit - 1, m) == m * Pow2(limit) - SpaceUsed(x, limit, m)
  {
    hide Pow2;
    if m > 0 {
      AllGiven(x, limit, m - 1);
      Canonical.Distribute(m - 1, 1, Pow2(limit));
    }
  }

  /** Lengths that fit the code space make a chain of at least 2n - 2 items. */
  lemma {:induction false} EnoughItems(x: seq<nat>, limit: nat)
    requires limit > 0 && |x| >= 2 && LengthsWithin(x, limit) && SpaceUsed(x, limit, |x|) <= Pow2(limit)
    ensures Items(Counting(x, limit, limit - 1)) >= 2 * |x| - 2
  {
    hide Items;
    hide Counting;
    hide SpaceUsed;
    hide GivenUpTo;
    AllGiven(x, limit, |x|);
    CountingItems(x, limit, limit - 1);
    Pow2Step(limit - 1);
    Compare(Pow2(limit - 1), Items(Counting(x, limit, limit - 1)), |x|);
  }

  lemma Compare(p: nat, items: nat, n: nat)
    requires p > 0 && n >= 2 && n * (2 * p) - 2 * p < p * (items + 1)
    ensures items >= 2 * n - 2
  {
    assert n * (2 * p) - 2 * p == p * (2 * n - 2);
    if items + 1 <= 2 * n - 2 { MulMonotoneLeft(items + 1, 2 * n - 2, p); }
  }

  // ---- the cheapest lengths ----

  /** The lengths a chain gives cost what the chain costs. */
  lemma {:induction false} ChainCost(leaves: seq<Leaf>, chain: Chain, x: seq<nat>, m: nat)
    requires Within(chain, |leaves|) && m <= |leaves| == |x| && forall i :: 0 <= i < |x| ==> x[i] == LenOf(chain, i)
    ensures chain.Nil? ==> WeightSum(leaves, x, m) == 0
    ensures chain.Node? ==>
              var y := seq(|x|, i requires 0 <= i < |x| => LenOf(chain.tail, i));
              WeightSum(leaves, x, m) == LightSum(leaves, Min(chain.index, m)) + WeightSum(leaves, y, m)
  {
    if m > 0 {
      ChainCost(leaves, chain, x, m - 1);
      var w := leaves[m - 1].weight;
      if chain.Node? {
        assert w * (1 + LenOf(chain.tail, m - 1)) == w + w * LenOf(chain.tail, m - 1);
      }
    }
  }

  lemma {:induction false} ChainCosts(leaves: seq<Leaf>, chain: Chain, x: seq<nat>)
    requires Within(chain, |leaves|) && |leaves| == |x| && forall i :: 0 <= i < |x| ==> x[i] == LenOf(chain, i)
    ensures WeightSum(leaves, x, |x|) == Cost(leaves, chain)
  {
    ChainCost(leaves, chain, x, |x|);
    if chain.Node? {
      var y := seq(|x|, i requires 0 <= i < |x| => LenOf(chain.tail, i));
      ChainCosts(leaves, chain.tail, y);
    }
  }

  /** No lengths within the limit whose codes fit cost less than those of the package-merge chain. */
  lemma {:induction false} LeastWeight(leaves: seq<Leaf>, limit: nat, chain: Chain, x: seq<nat>, y: seq<nat>)
    requires SortedLeaves(leaves) && limit > 0 && |leaves| <= Pow2(limit) && |x| == |y| == |leaves|
    requires chain == ItemChain(leaves, limit - 1, 2 * |leaves| - 2) && forall i :: 0 <= i < |x| ==> x[i] == LenOf(chain, i)
    requires LengthsWithin(y, limit) && SpaceUsed(y, limit, |y|) <= Pow2(limit)
    ensures WeightSum(leaves, x, |x|) <= WeightSum(leaves, y, |y|)
  {
    hide ItemChain;
    hide Capacity;
    hide LenOf;
    hide Pow2;
    hide Counting;
    hide SpaceUsed;
    hide WeightSum;
    var k := 2 * |leaves| - 2;
    CapacityEnough(|leaves|, limit);
    ItemWithin(leaves, limit - 1, k);
    ChainCosts(leaves, chain, x);
    EnoughItems(y, limit);
    Cheapest(leaves, limit - 1, k, Counting(y, limit, limit - 1));
    CountingCost(leaves, y, limit, limit - 1);
    AllTimes(leaves, y, limit, |y|);
  }
}
