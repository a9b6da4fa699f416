/** The package-merge lists in full, and why their prefixes are the cheapest.

  Item k of list c is described by the chain that stands for the first k items. */
module PackageItems {
  import opened PackageMerge

  /** The chain of the first k items of list c: leaves and pairs of items of list c - 1, lightest first, pairs first if tied. */
  function ItemChain(leaves: seq<Leaf>, c: nat, k: nat): (r: Chain)
    requires |leaves| >= 2
    ensures k > 0 ==> r.Node?
    decreases c, k
  {
    if k == 0 then Nil
    else if k == 1 then Node(leaves[0].weight, 1, Nil)
    else if k == 2 then Node(leaves[1].weight, 2, Nil)
    else
      var before := ItemChain(leaves, c, k - 1);
      var p := Items(before.tail) / 2;
      var more := c > 0 && 2 * p + 2 <= Capacity(|leaves|, c - 1);
      var pair := if more then ItemChain(leaves, c - 1, 2 * p + 1).weight + ItemChain(leaves, c - 1, 2 * p + 2).weight else 0;
      if before.index < |leaves| && !(more && pair <= leaves[before.index].weight) then
        Node(leaves[before.index].weight, before.index + 1, before.tail)
      else if more then Node(pair, before.index, ItemChain(leaves, c - 1, 2 * p + 2))
      else before
  }

  function Weight(leaves: seq<Leaf>, c: nat, k: nat): int
    requires |leaves| >= 2 && k > 0
  {
    ItemChain(leaves, c, k).weight
  }

  /** The weight of package p of list c, counting from 1. */
  function PairWeight(leaves: seq<Leaf>, c: nat, p: nat): int
    requires |leaves| >= 2 && c > 0 && p > 0
  {
    Weight(leaves, c - 1, 2 * p - 1) + Weight(leaves, c - 1, 2 * p)
  }

  /** How many packages the first k items hold. */
  function Pairs(chain: Chain): nat
    requires chain.Node?
  {
    Items(chain.tail) / 2
  }

  /** Package p + 1 exists. */
  predicate MorePairs(leaves: seq<Leaf>, c: nat, p: nat)
  {
    c > 0 && 2 * p + 2 <= Capacity(|leaves|, c - 1)
  }

  // ---- what a prefix looks like ----

  /** The prefix of k items: a leaves and p packages, whole. */
  predicate Prefix(leaves: seq<Leaf>, c: nat, k: nat)
    requires |leaves| >= 2 && k > 0
  {
    var chain := ItemChain(leaves, c, k);
    var p := Pairs(chain);
    && 1 <= chain.index <= |leaves| && chain.index + p == k
    && Items(chain.tail) == 2 * p
    && (c == 0 ==> p == 0) && (c > 0 ==> 2 * p <= Capacity(|leaves|, c - 1))
    && chain.tail == (if p == 0 then Nil else ItemChain(leaves, c - 1, 2 * p))
  }

  /** Everything in the prefix is at most w, everything after it at least w. */
  predicate Threshold(leaves: seq<Leaf>, c: nat, a: nat, p: nat, w: int)
    requires |leaves| >= 2
  {
    && w > 0 && a <= |leaves|
    && (a > 0 ==> leaves[a - 1].weight <= w) && (a < |leaves| ==> w <= leaves[a].weight)
    && (c > 0 && p > 0 ==> PairWeight(leaves, c, p) <= w)
    && (MorePairs(leaves, c, p) ==> w <= PairWeight(leaves, c, p + 1))
  }

  /** A list in order of weight. */
  predicate Ordered(leaves: seq<Leaf>, c: nat)
    requires |leaves| >= 2
  {
    forall j, k :: 1 <= j <= k <= Capacity(|leaves|, c) ==> 0 < Weight(leaves, c, j) <= Weight(leaves, c, k)
  }

  predicate Counted(leaves: seq<Leaf>, c: nat)
    requires |leaves| >= 2
  {
    forall k :: 1 <= k <= Capacity(|leaves|, c) ==> Items(ItemChain(leaves, c, k)) == k
  }

  lemma {:induction false} PairsOrdered(leaves: seq<Leaf>, c: nat, p: nat)
    requires |leaves| >= 2 && c > 0 && p > 0 && Ordered(leaves, c - 1) && MorePairs(leaves, c, p)
    ensures 0 < PairWeight(leaves, c, p) <= PairWeight(leaves, c, p + 1)
  {
    hide ItemChain;
    hide Capacity;
    assert Weight(leaves, c - 1, 2 * p - 1) <= Weight(leaves, c - 1, 2 * p + 1);
    assert Weight(leaves, c - 1, 2 * p) <= Weight(leaves, c - 1, 2 * p + 2);
  }

  lemma {:induction false} FirstItems(leaves: seq<Leaf>, c: nat, k: nat)
    requires SortedLeaves(leaves) && 1 <= k <= 2
    ensures Split(leaves, c, k)
  {
    if c > 0 {
      assert Weight(leaves, c - 1, 1) == leaves[0].weight && Weight(leaves, c - 1, 2) == leaves[1].weight;
      assert PairWeight(leaves, c, 1) == leaves[0].weight + leaves[1].weight;
    }
  }

  predicate LeafIsNext(leaves: seq<Leaf>, c: nat, chain: Chain)
    requires |leaves| >= 2 && chain.Node?
  {
    && chain.index < |leaves|
    && !(MorePairs(leaves, c, Pairs(chain)) && PairWeight(leaves, c, Pairs(chain) + 1) <= leaves[chain.index].weight)
  }

  lemma {:induction false} NextIsLeaf(leaves: seq<Leaf>, c: nat, k: nat, chain: Chain)
    requires |leaves| >= 2 && k >= 2 && chain == ItemChain(leaves, c, k) && LeafIsNext(leaves, c, chain)
    ensures ItemChain(leaves, c, k + 1) == Node(leaves[chain.index].weight, chain.index + 1, chain.tail)
  {
  }

  lemma {:induction false} NextIsPair(leaves: seq<Leaf>, c: nat, k: nat, chain: Chain)
    requires |leaves| >= 2 && k >= 2 && chain == ItemChain(leaves, c, k) && !LeafIsNext(leaves, c, chain)
    requires MorePairs(leaves, c, Pairs(chain))
    ensures var p := Pairs(chain);
            ItemChain(leaves, c, k + 1) == Node(PairWeight(leaves, c, p + 1), chain.index, ItemChain(leaves, c - 1, 2 * p + 2))
  {
  }

  /** The prefix of k items is whole, and its last item splits the list by weight. */
  predicate Split(leaves: seq<Leaf>, c: nat, k: nat)
    requires |leaves| >= 2 && k > 0
  {
    && Prefix(leaves, c, k)
    && var chain := ItemChain(leaves, c, k);
    && Threshold(leaves, c, chain.index, Pairs(chain), chain.weight)
  }

  lemma {:induction false} SplitLeaf(leaves: seq<Leaf>, c: nat, k: nat, chain: Chain)
    requires SortedLeaves(leaves) && k >= 2 && Split(leaves, c, k) && chain == ItemChain(leaves, c, k)
    requires LeafIsNext(leaves, c, chain)
    ensures Split(leaves, c, k + 1) && Weight(leaves, c, k) <= Weight(leaves, c, k + 1)
  {
    hide ItemChain;
    hide Capacity;
    hide Items;
    hide PairWeight;
    NextIsLeaf(leaves, c, k, chain);
  }

  lemma {:induction false} SplitPair(leaves: seq<Leaf>, c: nat, k: nat, chain: Chain)
    requires SortedLeaves(leaves) && k >= 2 && Split(leaves, c, k) && chain == ItemChain(leaves, c, k)
    requires c > 0 && MorePairs(leaves, c, Pairs(chain)) && Ordered(leaves, c - 1) && Counted(leaves, c - 1)
    requires !LeafIsNext(leaves, c, chain)
    ensures Split(leaves, c, k + 1) && Weight(leaves, c, k) <= Weight(leaves, c, k + 1)
  {
    hide ItemChain;
    hide Capacity;
    hide Items;
    hide PairWeight;
    hide Ordered;
    NextIsPair(leaves, c, k, chain);
    var p := Pairs(chain);
    assert Items(ItemChain(leaves, c - 1, 2 * p + 2)) == 2 * p + 2;
    if MorePairs(leaves, c, p + 1) { PairsOrdered(leaves, c, p + 1); }
  }

  /** When the leaves are used up and the list is not, there is a package. */
  lemma RoomLeft(leaves: seq<Leaf>, c: nat, k: nat, chain: Chain)
    requires |leaves| >= 2 && 0 < k < Capacity(|leaves|, c) && Split(leaves, c, k) && chain == ItemChain(leaves, c, k)
    ensures !LeafIsNext(leaves, c, chain) ==> MorePairs(leaves, c, Pairs(chain))
  {
    hide ItemChain;
  }

  lemma {:induction false} PrefixItems(leaves: seq<Leaf>, c: nat, k: nat)
    requires |leaves| >= 2 && k > 0 && Split(leaves, c, k)
    ensures Items(ItemChain(leaves, c, k)) == k && Weight(leaves, c, k) > 0
  {
    hide ItemChain;
  }

  /** Every prefix is whole, and splits its list by weight. */
  lemma {:induction false} PrefixHolds(leaves: seq<Leaf>, c: nat, k: nat)
    requires SortedLeaves(leaves) && 1 <= k <= Capacity(|leaves|, c)
    ensures Split(leaves, c, k)
    ensures k > 1 ==> Weight(leaves, c, k - 1) <= Weight(leaves, c, k)
    decreases c, k
  {
    hide ItemChain;
    hide Prefix;
    hide Threshold;
    hide Capacity;
    hide Items;
    hide Pairs;
    hide Split;
    if c > 0 { ListOrdered(leaves, c - 1); }
    if k <= 2 {
      FirstItems(leaves, c, k);
      FirstWeights(leaves, c);
    } else {
      PrefixHolds(leaves, c, k - 1);
      var chain := ItemChain(leaves, c, k - 1);
      if LeafIsNext(leaves, c, chain) {
        SplitLeaf(leaves, c, k - 1, chain);
      } else {
        RoomLeft(leaves, c, k - 1, chain);
        SplitPair(leaves, c, k - 1, chain);
      }
    }
  }

  lemma {:induction false} FirstWeights(leaves: seq<Leaf>, c: nat)
    requires SortedLeaves(leaves)
    ensures Weight(leaves, c, 1) == leaves[0].weight <= leaves[1].weight == Weight(leaves, c, 2)
  {
  }

  lemma {:induction false} ListOrdered(leaves: seq<Leaf>, c: nat)
    requires SortedLeaves(leaves)
    ensures Ordered(leaves, c)
    ensures Counted(leaves, c)
    decreases c, Capacity(|leaves|, c) + 1
  {
    hide ItemChain;
    hide Prefix;
    hide Capacity;
    hide Items;
    forall j | 1 <= j <= Capacity(|leaves|, c)
      ensures Items(ItemChain(leaves, c, j)) == j && Weight(leaves, c, j) > 0
      ensures j > 1 ==> Weight(leaves, c, j - 1) <= Weight(leaves, c, j)
    {
      PrefixHolds(leaves, c, j);
      PrefixItems(leaves, c, j);
    }
    forall j, k | 1 <= j <= k <= Capacity(|leaves|, c) ensures 0 < Weight(leaves, c, j) <= Weight(leaves, c, k) {
      Ascends(leaves, c, j, k);
    }
  }

  lemma {:induction false} Ascends(leaves: seq<Leaf>, c: nat, j: nat, k: nat)
    requires SortedLeaves(leaves) && 1 <= j <= k
    requires forall i: nat {:trigger Weight(leaves, c, i)} :: 1 < i <= k ==> Weight(leaves, c, i - 1) <= Weight(leaves, c, i)
    ensures Weight(leaves, c, j) <= Weight(leaves, c, k)
  {
    hide Weight;
    if j < k { Ascends(leaves, c, j, k - 1); }
  }

  // ---- what a prefix costs ----

  /** The weight of the first a leaves. */
  function LightSum(leaves: seq<Leaf>, a: nat): int
    requires a <= |leaves|
  {
    if a == 0 then 0 else LightSum(leaves, a - 1) + leaves[a - 1].weight
  }

  predicate Within(chain: Chain, n: nat)
  {
    chain.Node? ==> chain.index <= n && Within(chain.tail, n)
  }

  /** The weight of all leaves a chain counts, each as often as it is counted. */
  function Cost(leaves: seq<Leaf>, chain: Chain): int
    requires Within(chain, |leaves|)
  {
    match chain
    case Nil => 0
    case Node(_, index, tail) => LightSum(leaves, index) + Cost(leaves, tail)
  }

  lemma {:induction false} ItemWithin(leaves: seq<Leaf>, c: nat, k: nat)
    requires SortedLeaves(leaves) && k <= Capacity(|leaves|, c)
    ensures Within(ItemChain(leaves, c, k), |leaves|)
    decreases c
  {
    hide ItemChain;
    hide Capacity;
    hide Items;
    if k > 0 {
      PrefixHolds(leaves, c, k);
      if c > 0 { ItemWithin(leaves, c - 1, 2 * Pairs(ItemChain(leaves, c, k))); }
      NoItems(leaves, c);
    } else {
      NoItems(leaves, c);
    }
  }

  lemma NoItems(leaves: seq<Leaf>, c: nat)
    requires |leaves| >= 2
    ensures ItemChain(leaves, c, 0) == Nil
  {
  }

  /** What the first k items of list c cost. */
  function ItemCost(leaves: seq<Leaf>, c: nat, k: nat): int
    requires SortedLeaves(leaves) && k <= Capacity(|leaves|, c)
  {
    ItemWithin(leaves, c, k);
    Cost(leaves, ItemChain(leaves, c, k))
  }

  /** What the first p packages of list c cost. */
  function PairCost(leaves: seq<Leaf>, c: nat, p: nat): int
    requires SortedLeaves(leaves) && (c == 0 ==> p == 0) && (c > 0 ==> 2 * p <= Capacity(|leaves|, c - 1))
  {
    if c == 0 then 0 else ItemCost(leaves, c - 1, 2 * p)
  }

  /** A prefix costs its leaves and its packages. */
  lemma {:induction false} CostSplit(leaves: seq<Leaf>, c: nat, k: nat, chain: Chain)
    requires SortedLeaves(leaves) && 0 < k <= Capacity(|leaves|, c) && Split(leaves, c, k)
    requires chain == ItemChain(leaves, c, k)
    ensures ItemCost(leaves, c, k) == LightSum(leaves, chain.index) + PairCost(leaves, c, Pairs(chain))
  {
    hide ItemChain;
    hide Capacity;
    hide Items;
    hide Threshold;
    ItemWithin(leaves, c, k);
    assert ItemCost(leaves, c, k) == LightSum(leaves, chain.index) + Cost(leaves, chain.tail);
    if c > 0 {
      NoItems(leaves, c - 1);
      assert chain.tail == ItemChain(leaves, c - 1, 2 * Pairs(chain));
    }
  }

  /** Every item adds its own weight. */
  lemma {:induction false} CostNext(leaves: seq<Leaf>, c: nat, k: nat)
    requires SortedLeaves(leaves) && k < Capacity(|leaves|, c)
    ensures ItemCost(leaves, c, k + 1) == ItemCost(leaves, c, k) + Weight(leaves, c, k + 1)
    decreases c
  {
    hide ItemChain;
    hide Capacity;
    hide Items;
    hide Threshold;
    hide Split;
    hide LeafIsNext;
    hide ItemCost;
    hide PairCost;
    hide PairWeight;
    if k < 2 {
      FirstCosts(leaves, c);
    } else {
      var chain := ItemChain(leaves, c, k);
      PrefixHolds(leaves, c, k);
      PrefixHolds(leaves, c, k + 1);
      CostSplit(leaves, c, k, chain);
      CostSplit(leaves, c, k + 1, ItemChain(leaves, c, k + 1));
      if LeafIsNext(leaves, c, chain) {
        CostLeaf(leaves, c, k, chain);
      } else {
        RoomLeft(leaves, c, k, chain);
        CostPair(leaves, c, k, chain);
        PairCostNext(leaves, c, Pairs(chain));
      }
    }
  }

  lemma {:induction false} FirstCosts(leaves: seq<Leaf>, c: nat)
    requires SortedLeaves(leaves)
    ensures Capacity(|leaves|, c) >= 2
    ensures ItemCost(leaves, c, 0) == 0 && ItemCost(leaves, c, 1) == Weight(leaves, c, 1)
    ensures ItemCost(leaves, c, 2) == Weight(leaves, c, 1) + Weight(leaves, c, 2)
  {
    CapacityBounds(|leaves|, c);
    assert ItemChain(leaves, c, 1) == Node(leaves[0].weight, 1, Nil) && ItemChain(leaves, c, 2) == Node(leaves[1].weight, 2, Nil);
    assert LightSum(leaves, 0) == 0 && LightSum(leaves, 1) == leaves[0].weight;
    assert LightSum(leaves, 2) == LightSum(leaves, 1) + leaves[1].weight;
  }

  lemma {:induction false} CostLeaf(leaves: seq<Leaf>, c: nat, k: nat, chain: Chain)
    requires |leaves| >= 2 && k >= 2 && chain == ItemChain(leaves, c, k) && LeafIsNext(leaves, c, chain)
    ensures var next := ItemChain(leaves, c, k + 1);
            && Pairs(next) == Pairs(chain) && next.index == chain.index + 1
            && LightSum(leaves, chain.index + 1) == LightSum(leaves, chain.index) + next.weight
  {
    hide ItemChain;
    hide Items;
    NextIsLeaf(leaves, c, k, chain);
  }

  lemma {:induction false} CostPair(leaves: seq<Leaf>, c: nat, k: nat, chain: Chain)
    requires SortedLeaves(leaves) && k >= 2 && chain == ItemChain(leaves, c, k) && !LeafIsNext(leaves, c, chain)
    requires MorePairs(leaves, c, Pairs(chain))
    ensures var next := ItemChain(leaves, c, k + 1);
            && Pairs(next) == Pairs(chain) + 1 && next.index == chain.index
            && next.weight == PairWeight(leaves, c, Pairs(chain) + 1)
  {
    hide ItemChain;
    hide PairWeight;
    hide Capacity;
    NextIsPair(leaves, c, k, chain);
    ListOrdered(leaves, c - 1);
    var p := Pairs(chain);
    assert Items(ItemChain(leaves, c - 1, 2 * p + 2)) == 2 * p + 2;
  }

  lemma {:induction false} PairCostNext(leaves: seq<Leaf>, c: nat, p: nat)
    requires SortedLeaves(leaves) && MorePairs(leaves, c, p)
    ensures PairCost(leaves, c, p + 1) == PairCost(leaves, c, p) + PairWeight(leaves, c, p + 1)
    decreases c, 0
  {
    hide ItemChain;
    hide ItemCost;
    hide Weight;
    hide Capacity;
    CostNext(leaves, c - 1, 2 * p);
    CostNext(leaves, c - 1, 2 * p + 1);
  }

  // ---- no chain is cheaper ----

  lemma {:induction false} LeavesAtLeast(leaves: seq<Leaf>, c: nat, a: nat, p: nat, w: int, b: nat)
    requires SortedLeaves(leaves) && Threshold(leaves, c, a, p, w) && b <= |leaves|
    ensures LightSum(leaves, b) - LightSum(leaves, a) >= (b - a) * w
    decreases if b > a then b - a else a - b
  {
    if b > a {
      LeavesAtLeast(leaves, c, a, p, w, b - 1);
      LeafAgainst(leaves, c, a, p, w, b - 1);
    } else if b < a {
      LeavesAtLeast(leaves, c, a, p, w, b + 1);
      LeafAgainst(leaves, c, a, p, w, b);
    }
    Steps(b - a, w);
  }

  lemma Steps(d: int, w: int)
    ensures (d - 1) * w == d * w - w && (d + 1) * w == d * w + w
  {
  }

  lemma LeafAgainst(leaves: seq<Leaf>, c: nat, a: nat, p: nat, w: int, i: nat)
    requires SortedLeaves(leaves) && Threshold(leaves, c, a, p, w) && i < |leaves|
    ensures if i < a then leaves[i].weight <= w else leaves[i].weight >= w
  {
  }

  lemma {:induction false} PairAgainst(leaves: seq<Leaf>, c: nat, a: nat, p: nat, w: int, q: nat)
    requires SortedLeaves(leaves) && Threshold(leaves, c, a, p, w) && MorePairs(leaves, c, q)
    requires 2 * p <= Capacity(|leaves|, c - 1)
    ensures if q < p then PairWeight(leaves, c, q + 1) <= w else PairWeight(leaves, c, q + 1) >= w
  {
    hide ItemChain;
    hide Capacity;
    ListOrdered(leaves, c - 1);
  }

  lemma {:induction false} PairsAtLeast(leaves: seq<Leaf>, c: nat, a: nat, p: nat, w: int, q: nat)
    requires SortedLeaves(leaves) && c > 0 && Threshold(leaves, c, a, p, w)
    requires 2 * p <= Capacity(|leaves|, c - 1) && 2 * q <= Capacity(|leaves|, c - 1)
    ensures PairCost(leaves, c, q) - PairCost(leaves, c, p) >= (q - p) * w
    decreases if q > p then q - p else p - q
  {
    hide Threshold;
    hide PairCost;
    hide PairWeight;
    hide Capacity;
    if q > p {
      PairsAtLeast(leaves, c, a, p, w, q - 1);
      PairAgainst(leaves, c, a, p, w, q - 1);
      PairCostNext(leaves, c, q - 1);
    } else if q < p {
      PairsAtLeast(leaves, c, a, p, w, q + 1);
      PairAgainst(leaves, c, a, p, w, q);
      PairCostNext(leaves, c, q);
    }
    Steps(q - p, w);
  }

  /** No chain has more items than its list. */
  lemma {:induction false} ItemsFit(chain: Chain, n: nat, c: nat)
    requires Within(chain, n) && Depth(chain) <= c + 1
    ensures Items(chain) <= Capacity(n, c)
  {
    if chain.Node? && c > 0 { ItemsFit(chain.tail, n, c - 1); }
    if chain.Node? && c == 0 { assert chain.tail == Nil; }
  }

  /** No chain of at least k items costs less than the first k items of its list. */
  lemma {:induction false} Cheapest(leaves: seq<Leaf>, c: nat, k: nat, q: Chain)
    requires SortedLeaves(leaves) && k <= Capacity(|leaves|, c)
    requires Within(q, |leaves|) && Depth(q) <= c + 1 && Items(q) >= k
    ensures ItemCost(leaves, c, k) <= Cost(leaves, q)
    decreases c
  {
    hide ItemChain;
    hide Capacity;
    hide Threshold;
    hide PairCost;
    hide ItemCost;
    if k == 0 {
      FirstCosts(leaves, c);
      CostNonNegative(leaves, q);
    } else {
      PrefixHolds(leaves, c, k);
      var chain := ItemChain(leaves, c, k);
      PrefixItems(leaves, c, k);
      var a, p, w := chain.index, Pairs(chain), chain.weight;
      CostSplit(leaves, c, k, chain);
      LeavesAtLeast(leaves, c, a, p, w, q.index);
      var r := Items(q.tail) / 2;
      if c > 0 {
        ItemsFit(q.tail, |leaves|, c - 1);
        Cheapest(leaves, c - 1, 2 * r, q.tail);
        PairCostIs(leaves, c, r);
        PairsAtLeast(leaves, c, a, p, w, r);
      } else {
        PairCostIs(leaves, c, p);
      }
      AddSteps(q.index - a, r - p, w);
    }
  }

  lemma PairCostIs(leaves: seq<Leaf>, c: nat, p: nat)
    requires SortedLeaves(leaves) && (c == 0 ==> p == 0) && (c > 0 ==> 2 * p <= Capacity(|leaves|, c - 1))
    ensures PairCost(leaves, c, p) == if c == 0 then 0 else ItemCost(leaves, c - 1, 2 * p)
  {
  }

  lemma AddSteps(x: int, y: int, w: int)
    requires x + y >= 0 && w > 0
    ensures x * w + y * w >= 0
  {
    assert x * w + y * w == (x + y) * w;
  }

  lemma {:induction false} LightSumNonNegative(leaves: seq<Leaf>, a: nat)
    requires SortedLeaves(leaves) && a <= |leaves|
    ensures LightSum(leaves, a) >= 0
  {
    if a > 0 { LightSumNonNegative(leaves, a - 1); }
  }

  lemma {:induction false} CostNonNegative(leaves: seq<Leaf>, q: Chain)
    requires SortedLeaves(leaves) && Within(q, |leaves|)
    ensures Cost(leaves, q) >= 0
  {
    if q.Node? {
      LightSumNonNegative(leaves, q.index);
      CostNonNegative(leaves, q.tail);
    }
  }
}
