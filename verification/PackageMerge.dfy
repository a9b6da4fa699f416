/** Boundary package-merge on values: what the chains are and what each step keeps.

  List c holds, in order of weight, the n leaves and the packages made of pairs of
  items of list c - 1.  A chain stands for a prefix of its list: `index` is the
  number of leaves in the prefix, and `tail` the prefix of list c - 1 whose pairs
  are the packages in it. */
module PackageMerge {
  import opened Bits

  datatype Leaf = Leaf(weight: int, index: nat)

  datatype Chain = Nil | Node(weight: int, index: nat, tail: Chain)

  /** The two newest chains of every list. */
  datatype Lists = Lists(c0: seq<Chain>, c1: seq<Chain>)

  /** Two or more leaves of positive weight in ascending order. */
  predicate SortedLeaves(leaves: seq<Leaf>)
  {
    && |leaves| >= 2
    && leaves[0].weight > 0
    && forall i, j :: 0 <= i <= j < |leaves| ==> leaves[i].weight <= leaves[j].weight
  }

  predicate Headed(l: Lists)
  {
    && |l.c0| == |l.c1|
    && (forall i :: 0 <= i < |l.c0| ==> l.c0[i].Node?)
    && (forall i :: 0 <= i < |l.c1| ==> l.c1[i].Node?)
  }

  /** Makes chain the newest of list c. */
  function Advance(l: Lists, c: nat, chain: Chain): (r: Lists)
    requires Headed(l) && c < |l.c1| && chain.Node?
    ensures Headed(r) && |r.c1| == |l.c1|
  {
    Lists(l.c0[c := l.c1[c]], l.c1[c := chain])
  }

  /** One step of the algorithm on list c. */
  function Step(leaves: seq<Leaf>, l: Lists, c: nat, num: nat): (r: Lists)
    requires Headed(l) && c < |l.c1|
    ensures Headed(r) && |r.c1| == |l.c1|
    decreases c
  {
    var last := l.c1[c].index;
    if c == 0 then
      if last >= |leaves| then l else Advance(l, c, Node(leaves[last].weight, last + 1, Nil))
    else
      var sum := l.c0[c - 1].weight + l.c1[c - 1].weight;
      if last < |leaves| && sum > leaves[last].weight then
        Advance(l, c, Node(leaves[last].weight, last + 1, l.c1[c].tail))
      else
        var packaged := Advance(l, c, Node(sum, last, l.c1[c - 1]));
        if num + 1 < 2 * |leaves| - 2 then Step(leaves, Step(leaves, packaged, c - 1, num), c - 1, num)
        else packaged
  }

  // ---- what a chain stands for ----

  /** The number of items of its list that a chain stands for. */
  function Items(chain: Chain): nat
  {
    match chain
    case Nil => 0
    case Node(_, index, tail) => index + Items(tail) / 2
  }

  /** Every package on the chain is a whole pair. */
  predicate Whole(chain: Chain)
  {
    chain.Node? ==> Items(chain.tail) % 2 == 0 && Whole(chain.tail)
  }

  /** Leaf counts do not grow along a chain and do not exceed the number of leaves. */
  predicate Descending(chain: Chain, n: nat)
  {
    chain.Node? ==>
      && chain.index <= n
      && (chain.tail.Node? ==> chain.tail.index <= chain.index)
      && Descending(chain.tail, n)
  }

  function Depth(chain: Chain): nat
  {
    match chain
    case Nil => 0
    case Node(_, _, tail) => 1 + Depth(tail)
  }

  /** The number of items list c can have: n leaves and half the items of the list before. */
  function Capacity(n: nat, c: nat): nat
  {
    if c == 0 then n else n + Capacity(n, c - 1) / 2
  }

  // ---- the invariant ----

  /** A head chain of list c. */
  predicate HeadOk(leaves: seq<Leaf>, chain: Chain, c: nat)
  {
    && chain.Node?
    && chain.weight > 0
    && Descending(chain, |leaves|)
    && Depth(chain) <= c + 1
    && Items(chain) <= Capacity(|leaves|, c)
  }

  predicate ListOk(leaves: seq<Leaf>, l: Lists, c: nat)
    requires Headed(l) && c < |l.c1|
  {
    var a, b := l.c0[c], l.c1[c];
    && HeadOk(leaves, a, c) && HeadOk(leaves, b, c)
    && a.weight <= b.weight
    && 1 <= b.index
    && leaves[b.index - 1].weight <= b.weight
    && (b.index < |leaves| ==> b.weight <= leaves[b.index].weight)
  }

  /** Packages already in list c, and the look-ahead pair waiting in list c - 1. */
  predicate LinkOk(leaves: seq<Leaf>, l: Lists, c: nat)
    requires Headed(l) && 0 < c < |l.c1|
  {
    var packages := Items(l.c1[c].tail) / 2;
    var cap := Capacity(|leaves|, c - 1);
    && l.c1[c].weight <= l.c0[c - 1].weight + l.c1[c - 1].weight
    && Items(l.c1[c].tail) <= cap
    && Items(l.c1[c - 1]) == Min(2 * packages + 2, cap)
    && (2 * packages + 2 <= cap ==> Whole(l.c1[c - 1]))
  }

  predicate Invariant(leaves: seq<Leaf>, l: Lists, top: nat)
    requires Headed(l) && top < |l.c1|
  {
    && (forall c :: 0 <= c <= top ==> ListOk(leaves, l, c))
    && (forall c :: 0 < c <= top ==> LinkOk(leaves, l, c))
  }

  /** What a step on list c does to that list. */
  predicate Stepped(leaves: seq<Leaf>, l: Lists, r: Lists, c: nat)
    requires Headed(l) && Headed(r) && c < |l.c1| == |r.c1|
  {
    && Items(r.c1[c]) == Min(Items(l.c1[c]) + 1, Capacity(|leaves|, c))
    && (Whole(l.c1[c]) && Items(l.c1[c]) < Capacity(|leaves|, c) ==> Whole(r.c1[c]))
    && l.c0[c].weight <= r.c0[c].weight && l.c1[c].weight <= r.c1[c].weight
    && ListOk(leaves, r, c)
    && forall i :: c < i < |l.c1| ==> r.c0[i] == l.c0[i] && r.c1[i] == l.c1[i]
  }

  lemma {:induction false} ItemsAtLeast(chain: Chain)
    requires chain.Node?
    ensures Items(chain) >= chain.index
  {
  }

  /** An exhausted list has used all its leaves. */
  lemma {:induction false} Exhausted(leaves: seq<Leaf>, l: Lists, c: nat)
    requires Headed(l) && c < |l.c1| && Invariant(leaves, l, c)
    requires Items(l.c1[c]) == Capacity(|leaves|, c)
    ensures l.c1[c].index == |leaves|
  {
    if c > 0 { assert LinkOk(leaves, l, c); }
    assert ListOk(leaves, l, c);
    if c == 0 { assert Depth(l.c1[c].tail) == 0; }
  }

  /** A package lighter than the next leaf has no more leaves in it than its list has. */
  lemma {:induction false} PackageDescends(leaves: seq<Leaf>, l: Lists, c: nat)
    requires SortedLeaves(leaves) && Headed(l) && 0 < c < |l.c1| && Invariant(leaves, l, c)
    requires var last, sum := l.c1[c].index, l.c0[c - 1].weight + l.c1[c - 1].weight;
             !(last < |leaves| && sum > leaves[last].weight)
    ensures l.c1[c - 1].index <= l.c1[c].index
  {
    assert ListOk(leaves, l, c - 1);
    assert ListOk(leaves, l, c);
  }

  /** Lists before c do not change when list c advances. */
  lemma {:induction false} EarlierKept(leaves: seq<Leaf>, l: Lists, c: nat, chain: Chain)
    requires Headed(l) && 0 < c < |l.c1| && Invariant(leaves, l, c) && chain.Node?
    ensures Invariant(leaves, Advance(l, c, chain), c - 1)
  {
    hide Items;
    hide Whole;
    hide Capacity;
    hide HeadOk;
    var r := Advance(l, c, chain);
    forall i | 0 <= i <= c - 1 ensures ListOk(leaves, r, i) {
      assert ListOk(leaves, l, i);
    }
    forall i | 0 < i <= c - 1 ensures LinkOk(leaves, r, i) {
      assert LinkOk(leaves, l, i);
    }
  }

  lemma {:induction false} LeafStep(leaves: seq<Leaf>, l: Lists, c: nat)
    requires SortedLeaves(leaves) && Headed(l) && c < |l.c1| && Invariant(leaves, l, c)
    requires l.c1[c].index < |leaves|
    requires c > 0 ==> l.c0[c - 1].weight + l.c1[c - 1].weight > leaves[l.c1[c].index].weight
    ensures var last := l.c1[c].index;
            var tail := if c == 0 then Nil else l.c1[c].tail;
            var r := Advance(l, c, Node(leaves[last].weight, last + 1, tail));
            Stepped(leaves, l, r, c) && Invariant(leaves, r, c)
  {
    var last := l.c1[c].index;
    var tail := if c == 0 then Nil else l.c1[c].tail;
    var r := Advance(l, c, Node(leaves[last].weight, last + 1, tail));
    assert ListOk(leaves, l, c);
    if c > 0 { assert LinkOk(leaves, l, c); }
    if c == 0 { assert Depth(l.c1[c].tail) == 0; }
    assert tail == l.c1[c].tail;
    assert ListOk(leaves, r, c);
    if c > 0 {
      assert LinkOk(leaves, r, c);
      KeptByLeaf(leaves, l, c, r);
    }
  }

  lemma {:induction false} KeptByLeaf(leaves: seq<Leaf>, l: Lists, c: nat, r: Lists)
    requires SortedLeaves(leaves) && Headed(l) && Headed(r) && 0 < c < |l.c1| == |r.c1|
    requires Invariant(leaves, l, c) && r == Advance(l, c, r.c1[c])
    requires ListOk(leaves, r, c) && LinkOk(leaves, r, c)
    ensures Invariant(leaves, r, c)
  {
    hide ListOk;
    EarlierKept(leaves, l, c, r.c1[c]);
  }

  /** A package makes its list one item longer, unless the list is exhausted. */
  lemma {:induction false} PackageItems(leaves: seq<Leaf>, l: Lists, c: nat, chain: Chain)
    requires SortedLeaves(leaves) && Headed(l) && 0 < c < |l.c1| && Invariant(leaves, l, c)
    requires chain.Node? && chain.index == l.c1[c].index && chain.tail == l.c1[c - 1]
    requires l.c1[c - 1].index <= l.c1[c].index
    ensures Items(chain) == Min(Items(l.c1[c]) + 1, Capacity(|leaves|, c))
    ensures Whole(l.c1[c]) && Items(l.c1[c]) < Capacity(|leaves|, c) ==> Whole(chain)
  {
    hide ListOk;
    var cap := Capacity(|leaves|, c - 1);
    assert LinkOk(leaves, l, c);
    IndexBound(leaves, l, c);
    if Items(l.c1[c - 1]) == cap { Exhausted(leaves, l, c - 1); }
  }

  lemma {:induction false} IndexBound(leaves: seq<Leaf>, l: Lists, c: nat)
    requires Headed(l) && c < |l.c1| && Invariant(leaves, l, c)
    ensures l.c1[c].index <= |leaves|
  {
    assert ListOk(leaves, l, c);
  }

  lemma {:induction false} PackageHead(leaves: seq<Leaf>, l: Lists, c: nat, chain: Chain)
    requires SortedLeaves(leaves) && Headed(l) && 0 < c < |l.c1| && Invariant(leaves, l, c)
    requires chain == Node(l.c0[c - 1].weight + l.c1[c - 1].weight, l.c1[c].index, l.c1[c - 1])
    requires l.c1[c].index < |leaves| ==> chain.weight <= leaves[l.c1[c].index].weight
    requires l.c1[c - 1].index <= l.c1[c].index
    requires Items(chain) <= Capacity(|leaves|, c)
    ensures ListOk(leaves, Advance(l, c, chain), c)
    ensures l.c1[c].weight <= chain.weight && l.c0[c].weight <= l.c1[c].weight
  {
    hide Items;
    hide Capacity;
    assert ListOk(leaves, l, c) && ListOk(leaves, l, c - 1) && LinkOk(leaves, l, c);
  }

  /** Appending a package: list c is one item longer, or it was exhausted. */
  lemma {:induction false} PackageStep(leaves: seq<Leaf>, l: Lists, c: nat)
    requires SortedLeaves(leaves) && Headed(l) && 0 < c < |l.c1| && Invariant(leaves, l, c)
    requires var last, sum := l.c1[c].index, l.c0[c - 1].weight + l.c1[c - 1].weight;
             !(last < |leaves| && sum > leaves[last].weight)
    ensures var sum := l.c0[c - 1].weight + l.c1[c - 1].weight;
            var r := Advance(l, c, Node(sum, l.c1[c].index, l.c1[c - 1]));
            Stepped(leaves, l, r, c) && Invariant(leaves, r, c - 1)
  {
    hide Items;
    hide Whole;
    hide Capacity;
    hide ListOk;
    hide Invariant;
    var chain := Node(l.c0[c - 1].weight + l.c1[c - 1].weight, l.c1[c].index, l.c1[c - 1]);
    PackageDescends(leaves, l, c);
    PackageItems(leaves, l, c, chain);
    PackageHead(leaves, l, c, chain);
    EarlierKept(leaves, l, c, chain);
  }

  /** The two recursive steps restore the look-ahead pair that a package used up. */
  lemma {:induction false} LookAhead(leaves: seq<Leaf>, l: Lists, packaged: Lists, l1: Lists, l2: Lists, c: nat)
    requires SortedLeaves(leaves) && Headed(l) && 0 < c < |l.c1| && Invariant(leaves, l, c)
    requires var last, sum := l.c1[c].index, l.c0[c - 1].weight + l.c1[c - 1].weight;
             packaged == Advance(l, c, Node(sum, last, l.c1[c - 1]))
    requires Headed(l1) && Headed(l2) && |l1.c1| == |l2.c1| == |l.c1|
    requires Stepped(leaves, packaged, l1, c - 1) && Stepped(leaves, l1, l2, c - 1)
    ensures LinkOk(leaves, l2, c)
    ensures forall i :: c - 1 < i < |l.c1| ==> l2.c0[i] == packaged.c0[i] && l2.c1[i] == packaged.c1[i]
  {
    assert LinkOk(leaves, l, c);
    assert l2.c1[c] == packaged.c1[c];
  }

  lemma {:induction false} StepUnfold(leaves: seq<Leaf>, l: Lists, c: nat, num: nat)
    requires Headed(l) && 0 < c < |l.c1|
    ensures var last := l.c1[c].index;
            var sum := l.c0[c - 1].weight + l.c1[c - 1].weight;
            Step(leaves, l, c, num) ==
            if last < |leaves| && sum > leaves[last].weight then
              Advance(l, c, Node(leaves[last].weight, last + 1, l.c1[c].tail))
            else
              var packaged := Advance(l, c, Node(sum, last, l.c1[c - 1]));
              if num + 1 < 2 * |leaves| - 2 then Step(leaves, Step(leaves, packaged, c - 1, num), c - 1, num)
              else packaged
  {
  }

  lemma {:induction false} StepZero(leaves: seq<Leaf>, l: Lists, num: nat)
    requires Headed(l) && 0 < |l.c1|
    ensures var last := l.c1[0].index;
            Step(leaves, l, 0, num) ==
            if last >= |leaves| then l else Advance(l, 0, Node(leaves[last].weight, last + 1, Nil))
  {
  }

  /** One step keeps the invariant of every list it touches. */
  lemma {:induction false} StepKeeps(leaves: seq<Leaf>, l: Lists, c: nat, num: nat)
    requires SortedLeaves(leaves) && Headed(l) && c < |l.c1| && Invariant(leaves, l, c)
    ensures Stepped(leaves, l, Step(leaves, l, c, num), c)
    ensures num + 1 < 2 * |leaves| - 2 ==> Invariant(leaves, Step(leaves, l, c, num), c)
    decreases c
  {
    hide Items;
    hide Whole;
    hide Capacity;
    hide ListOk;
    hide LinkOk;
    hide Invariant;
    hide Stepped;
    hide Step;
    hide Advance;
    var last := l.c1[c].index;
    if c == 0 { StepZero(leaves, l, num); } else { StepUnfold(leaves, l, c, num); }
    if last < |leaves| && (c == 0 || l.c0[c - 1].weight + l.c1[c - 1].weight > leaves[last].weight) {
      LeafStep(leaves, l, c);
    } else if c == 0 {
      StuckLeaves(leaves, l);
    } else {
      PackageStep(leaves, l, c);
      var sum := l.c0[c - 1].weight + l.c1[c - 1].weight;
      var packaged := Advance(l, c, Node(sum, last, l.c1[c - 1]));
      if num + 1 < 2 * |leaves| - 2 {
        var l1 := Step(leaves, packaged, c - 1, num);
        StepKeeps(leaves, packaged, c - 1, num);
        var l2 := Step(leaves, l1, c - 1, num);
        StepKeeps(leaves, l1, c - 1, num);
        LookAhead(leaves, l, packaged, l1, l2, c);
        Carry(leaves, l, packaged, l2, c);
      }
    }
  }

  lemma {:induction false} StuckLeaves(leaves: seq<Leaf>, l: Lists)
    requires SortedLeaves(leaves) && Headed(l) && 0 < |l.c1| && Invariant(leaves, l, 0)
    requires l.c1[0].index >= |leaves|
    ensures Stepped(leaves, l, l, 0)
  {
    assert ListOk(leaves, l, 0);
    ItemsAtLeast(l.c1[0]);
  }

  /** What was true of list c after the package is true after the recursive steps. */
  lemma {:induction false} Carry(leaves: seq<Leaf>, l: Lists, packaged: Lists, l2: Lists, c: nat)
    requires Headed(l) && Headed(packaged) && Headed(l2) && 0 < c < |l.c1| == |packaged.c1| == |l2.c1|
    requires Stepped(leaves, l, packaged, c)
    requires forall i :: c - 1 < i < |l.c1| ==> l2.c0[i] == packaged.c0[i] && l2.c1[i] == packaged.c1[i]
    requires Invariant(leaves, l2, c - 1) && LinkOk(leaves, l2, c)
    ensures Stepped(leaves, l, l2, c) && Invariant(leaves, l2, c)
  {
    hide Items;
    hide Whole;
    hide Capacity;
    assert ListOk(leaves, packaged, c);
    assert ListOk(leaves, l2, c);
  }

  // ---- whole runs ----

  function InitialLists(leaves: seq<Leaf>, listsize: nat): (r: Lists)
    requires |leaves| >= 2
    ensures Headed(r) && |r.c1| == listsize
  {
    Lists(seq(listsize, _ => Node(leaves[0].weight, 1, Nil)), seq(listsize, _ => Node(leaves[1].weight, 2, Nil)))
  }

  /** The lists after the steps numbered 2 to k - 1 on the last list. */
  function Run(leaves: seq<Leaf>, listsize: nat, k: nat): (r: Lists)
    requires |leaves| >= 2 && listsize > 0
    ensures Headed(r) && |r.c1| == listsize
  {
    if k <= 2 then InitialLists(leaves, listsize)
    else Step(leaves, Run(leaves, listsize, k - 1), listsize - 1, k - 1)
  }

  lemma {:induction false} CapacityBounds(n: nat, c: nat)
    ensures n <= Capacity(n, c) && Capacity(n, c) <= 2 * n
    ensures (2 * n - Capacity(n, c)) * Pow2(c) <= n + Pow2(c) - 1
  {
    if c > 0 {
      CapacityBounds(n, c - 1);
      var d, e := 2 * n - Capacity(n, c - 1), 2 * n - Capacity(n, c);
      assert 2 * e <= d + 1;
      CapacityStep(d, e, Pow2(c - 1), n);
    }
  }

  lemma {:induction false} CapacityStep(d: int, e: int, p: int, n: int)
    requires 2 * e <= d + 1 && p >= 1 && d * p <= n + p - 1
    ensures e * (2 * p) <= n + 2 * p - 1
  {
    assert (2 * e) * p <= (d + 1) * p;
  }

  /** Enough lists for the number of leaves: the last one can hold 2n - 2 items. */
  lemma {:induction false} CapacityEnough(n: nat, listsize: nat)
    requires listsize > 0 && 2 <= n <= Pow2(listsize)
    ensures Capacity(n, listsize - 1) >= 2 * n - 2
  {
    CapacityBounds(n, listsize - 1);
    var e, p := 2 * n - Capacity(n, listsize - 1), Pow2(listsize - 1);
    if e >= 3 { MulMonotoneLeft(3, e, p); }
  }

  lemma {:induction false} InitialInvariant(leaves: seq<Leaf>, listsize: nat)
    requires SortedLeaves(leaves) && listsize > 0
    ensures var l := InitialLists(leaves, listsize);
            Invariant(leaves, l, listsize - 1) && Items(l.c1[listsize - 1]) == 2 && Whole(l.c1[listsize - 1])
  {
    var l := InitialLists(leaves, listsize);
    forall c | 0 <= c <= listsize - 1 ensures ListOk(leaves, l, c) {
      CapacityBounds(|leaves|, c);
    }
    forall c | 0 < c <= listsize - 1 ensures LinkOk(leaves, l, c) {
      CapacityBounds(|leaves|, c - 1);
    }
  }

  /** Safety over the whole run: after k items the last chain stands for exactly k of them. */
  lemma {:induction false} RunKeeps(leaves: seq<Leaf>, listsize: nat, k: nat)
    requires SortedLeaves(leaves) && listsize > 0 && |leaves| <= Pow2(listsize)
    requires 2 <= k <= 2 * |leaves| - 2
    ensures var l := Run(leaves, listsize, k);
            && Items(l.c1[listsize - 1]) == k && Whole(l.c1[listsize - 1])
            && ListOk(leaves, l, listsize - 1)
            && (k < 2 * |leaves| - 2 ==> Invariant(leaves, l, listsize - 1))
  {
    hide Items;
    hide Whole;
    hide ListOk;
    hide LinkOk;
    hide Step;
    if k == 2 {
      InitialInvariant(leaves, listsize);
    } else {
      RunKeeps(leaves, listsize, k - 1);
      CapacityEnough(|leaves|, listsize);
      StepKeeps(leaves, Run(leaves, listsize, k - 1), listsize - 1, k - 1);
    }
  }

  // ---- the code lengths ----

  /** The code length of leaf i: the number of nodes on the chain that count it. */
  function LenOf(chain: Chain, i: nat): nat
  {
    match chain
    case Nil => 0
    case Node(_, index, tail) => (if i < index then 1 else 0) + LenOf(tail, i)
  }

  lemma {:induction false} LenOfBounds(chain: Chain, i: nat, n: nat)
    requires Descending(chain, n)
    ensures LenOf(chain, i) <= Depth(chain)
    ensures LenOf(chain, i) > 0 <==> chain.Node? && i < chain.index
  {
    if chain.Node? { LenOfBounds(chain.tail, i, n); }
  }

  lemma {:induction false} LenOfDepth(chain: Chain, i: nat, n: nat, depth: nat)
    requires Descending(chain, n) && Depth(chain) <= depth
    ensures LenOf(chain, i) <= depth
  {
    LenOfBounds(chain, i, n);
  }

  /** How much of the code space the first m leaves leave unused, one leaf at a time. */
  function Deficit(chain: Chain, depth: nat, m: nat): int
    requires forall i: nat :: LenOf(chain, i) <= depth
  {
    if m == 0 then 0
    else Deficit(chain, depth, m - 1) + Pow2(depth) - Pow2(depth - LenOf(chain, m - 1))
  }

  lemma {:induction false} AllLenOf(chain: Chain, n: nat, depth: nat)
    requires Descending(chain, n) && Depth(chain) <= depth
    ensures forall i: nat :: LenOf(chain, i) <= depth
  {
    forall i: nat ensures LenOf(chain, i) <= depth { LenOfDepth(chain, i, n, depth); }
  }

  lemma {:induction false} DeficitTail(chain: Chain, depth: nat, m: nat, n: nat)
    requires chain.Node? && Descending(chain, n) && Depth(chain) <= depth + 1
    requires forall i: nat :: LenOf(chain, i) <= depth + 1
    requires forall i: nat :: LenOf(chain.tail, i) <= depth
    ensures Deficit(chain, depth + 1, m) == Min(chain.index, m) * Pow2(depth) + Deficit(chain.tail, depth, m)
    decreases m
  {
    if m > 0 {
      DeficitTail(chain, depth, m - 1, n);
      LenOfBounds(chain.tail, m - 1, n);
      Pow2Step(depth);
      if m - 1 < chain.index {
        assert m * Pow2(depth) == (m - 1) * Pow2(depth) + Pow2(depth);
      }
    }
  }

  /** A whole chain of k items leaves exactly k half-units of code space unused. */
  lemma {:induction false} DeficitItems(chain: Chain, depth: nat, n: nat)
    requires chain.Node? && Whole(chain) && Descending(chain, n) && Depth(chain) <= depth + 1
    ensures forall i: nat :: LenOf(chain, i) <= depth + 1
    ensures Deficit(chain, depth + 1, n) == Pow2(depth) * Items(chain)
  {
    hide Deficit;
    hide LenOf;
    Pow2Half(depth);
    hide Pow2;
    AllLenOf(chain, n, depth + 1);
    AllLenOf(chain.tail, n, depth);
    DeficitTail(chain, depth, n, n);
    if chain.tail.Nil? {
      DeficitNil(depth, n);
    } else {
      DeficitItems(chain.tail, depth - 1, n);
      var half := Items(chain.tail) / 2;
      assert Items(chain.tail) == 2 * half;
      HalfTimes(Pow2(depth - 1), half, chain.index);
    }
  }

  lemma {:induction false} Pow2Half(depth: nat)
    ensures depth > 0 ==> Pow2(depth) == 2 * Pow2(depth - 1)
  {
  }

  lemma {:induction false} HalfTimes(p: int, h: int, a: int)
    ensures a * (2 * p) + p * (2 * h) == (2 * p) * (a + h)
  {
  }

  lemma {:induction false} DeficitNil(depth: nat, m: nat)
    ensures (forall i: nat :: LenOf(Nil, i) <= depth) && Deficit(Nil, depth, m) == 0
  {
    if m > 0 { DeficitNil(depth, m - 1); }
  }

  lemma {:induction false} DeficitBound(chain: Chain, depth: nat, m: nat, n: nat)
    requires chain.Node? && Descending(chain, n) && forall i: nat :: LenOf(chain, i) <= depth
    ensures Deficit(chain, depth, m) <= Min(chain.index, m) * (Pow2(depth) - 1)
    decreases m
  {
    if m > 0 {
      DeficitBound(chain, depth, m - 1, n);
      LenOfBounds(chain, m - 1, n);
      if m - 1 < chain.index {
        assert m * (Pow2(depth) - 1) == (m - 1) * (Pow2(depth) - 1) + (Pow2(depth) - 1);
      }
    }
  }

  /** A whole chain of 2n - 2 items gives every leaf a code, and the codes fill the code space. */
  lemma {:induction false} ChainIsComplete(chain: Chain, depth: nat, n: nat)
    requires chain.Node? && Whole(chain) && Descending(chain, n) && Depth(chain) <= depth
    requires n >= 2 && Items(chain) == 2 * n - 2
    ensures forall i: nat :: LenOf(chain, i) <= depth
    ensures forall i: nat :: i < n ==> LenOf(chain, i) > 0
    ensures Deficit(chain, depth, n) == (n - 1) * Pow2(depth)
  {
    hide Deficit;
    hide LenOf;
    hide Whole;
    hide Items;
    DeficitItems(chain, depth - 1, n);
    DeficitBound(chain, depth, n, n);
    HalvesOf(depth, n);
    hide Pow2;
    if chain.index < n { MulMonotoneLeft(chain.index, n - 1, Pow2(depth) - 1); }
    forall i: nat | i < n ensures LenOf(chain, i) > 0 { LenOfBounds(chain, i, n); }
  }

  lemma {:induction false} HalvesOf(depth: nat, n: nat)
    requires depth > 0 && n > 0
    ensures Pow2(depth - 1) * (2 * n - 2) == (n - 1) * Pow2(depth)
    ensures (n - 1) * (Pow2(depth) - 1) == (n - 1) * Pow2(depth) - (n - 1)
  {
    Pow2Step(depth - 1);
    var p := Pow2(depth - 1);
    assert p * (2 * n - 2) == (n - 1) * (2 * p);
  }

  lemma {:induction false} MulMonotoneLeft(a: nat, b: nat, w: nat)
    requires a <= b
    ensures a * w <= b * w
  {
  }
}
