/** Boundary package-merge, which only looks two items ahead, finds the same items as package-merge in full. */
module PackageExact {
  import opened Bits
  import opened PackageMerge
  import opened PackageItems

  /** The two newest chains of list c are its items k - 1 and k. */
  predicate ExactAt(leaves: seq<Leaf>, l: Lists, c: nat)
    requires |leaves| >= 2 && Headed(l) && c < |l.c1|
  {
    var k := Items(l.c1[c]);
    k >= 2 && l.c1[c] == ItemChain(leaves, c, k) && l.c0[c].weight == Weight(leaves, c, k - 1)
  }

  /** Wherever a pair is still to come, the look-ahead is that pair. */
  predicate Exact(leaves: seq<Leaf>, l: Lists, top: nat)
    requires |leaves| >= 2 && Headed(l) && top < |l.c1|
  {
    forall c :: 0 < c <= top && MorePairs(leaves, c, Pairs(l.c1[c])) ==> ExactAt(leaves, l, c - 1)
  }

  /** What a step on list c does to its items. */
  predicate SteppedExactly(leaves: seq<Leaf>, l: Lists, r: Lists, c: nat)
    requires |leaves| >= 2 && Headed(l) && Headed(r) && c < |l.c1| == |r.c1|
  {
    ExactAt(leaves, l, c) && Items(l.c1[c]) < Capacity(|leaves|, c) ==> ExactAt(leaves, r, c)
  }

  /** The look-ahead pair of list c is its next package. */
  lemma {:induction false} LookAheadPair(leaves: seq<Leaf>, l: Lists, c: nat)
    requires SortedLeaves(leaves) && Headed(l) && 0 < c < |l.c1| && Invariant(leaves, l, c) && Exact(leaves, l, c)
    requires MorePairs(leaves, c, Pairs(l.c1[c]))
    ensures var p := Pairs(l.c1[c]);
            && l.c0[c - 1].weight + l.c1[c - 1].weight == PairWeight(leaves, c, p + 1)
            && l.c1[c - 1] == ItemChain(leaves, c - 1, 2 * p + 2) && Items(l.c1[c - 1]) == 2 * p + 2
  {
    hide ItemChain;
    hide Capacity;
    assert LinkOk(leaves, l, c);
    assert ExactAt(leaves, l, c - 1);
  }

  /** When no pair is left the look-ahead is heavier than every leaf. */
  lemma {:induction false} NoPair(leaves: seq<Leaf>, l: Lists, c: nat, i: nat)
    requires SortedLeaves(leaves) && Headed(l) && 0 < c < |l.c1| && Invariant(leaves, l, c)
    requires !MorePairs(leaves, c, Pairs(l.c1[c])) && i < |leaves|
    ensures l.c0[c - 1].weight + l.c1[c - 1].weight > leaves[i].weight
  {
    hide Capacity;
    hide Items;
    assert LinkOk(leaves, l, c) && ListOk(leaves, l, c - 1);
    Exhausted(leaves, l, c - 1);
    assert leaves[|leaves| - 1].weight <= l.c1[c - 1].weight;
  }

  /** The algorithm takes a leaf exactly when package-merge does. */
  lemma {:induction false} SameChoice(leaves: seq<Leaf>, l: Lists, c: nat)
    requires SortedLeaves(leaves) && Headed(l) && c < |l.c1| && Invariant(leaves, l, c) && Exact(leaves, l, c)
    ensures LeafIsNext(leaves, c, l.c1[c]) <==>
            var last := l.c1[c].index;
            last < |leaves| && (c == 0 || l.c0[c - 1].weight + l.c1[c - 1].weight > leaves[last].weight)
  {
    hide Invariant;
    hide Exact;
    hide Capacity;
    hide Items;
    hide PairWeight;
    if c > 0 && l.c1[c].index < |leaves| {
      if MorePairs(leaves, c, Pairs(l.c1[c])) {
        LookAheadPair(leaves, l, c);
      } else {
        NoPair(leaves, l, c, l.c1[c].index);
      }
    }
  }

  /** The look-ahead of the other lists is untouched, and this list wants the same pair. */
  lemma {:induction false} ExactKept(leaves: seq<Leaf>, l: Lists, c: nat, chain: Chain)
    requires |leaves| >= 2 && Headed(l) && c < |l.c1| && Exact(leaves, l, c)
    requires chain.Node? && (c > 0 ==> chain.tail == l.c1[c].tail)
    ensures Exact(leaves, Advance(l, c, chain), c)
  {
    hide ItemChain;
    hide Capacity;
    hide Items;
    hide Weight;
    var r := Advance(l, c, chain);
    forall i | 0 < i <= c && MorePairs(leaves, i, Pairs(r.c1[i])) ensures ExactAt(leaves, r, i - 1) {
      assert ExactAt(leaves, l, i - 1);
    }
  }

  lemma {:induction false} FirstListTail(leaves: seq<Leaf>, l: Lists)
    requires Headed(l) && 0 < |l.c1| && Invariant(leaves, l, 0)
    ensures l.c1[0].tail == Nil
  {
    assert ListOk(leaves, l, 0);
    assert Depth(l.c1[0].tail) == 0;
  }

  lemma {:induction false} ExactLeaf(leaves: seq<Leaf>, l: Lists, c: nat, r: Lists)
    requires SortedLeaves(leaves) && Headed(l) && c < |l.c1| && Invariant(leaves, l, c) && Exact(leaves, l, c)
    requires LeafIsNext(leaves, c, l.c1[c])
    requires var last := l.c1[c].index;
             r == Advance(l, c, Node(leaves[last].weight, last + 1, if c == 0 then Nil else l.c1[c].tail))
    ensures SteppedExactly(leaves, l, r, c) && Exact(leaves, r, c)
  {
    hide ItemChain;
    hide Capacity;
    hide Invariant;
    hide Exact;
    hide MorePairs;
    hide LeafIsNext;
    if c == 0 { FirstListTail(leaves, l); }
    ExactKept(leaves, l, c, r.c1[c]);
    if ExactAt(leaves, l, c) { NextIsLeaf(leaves, c, Items(l.c1[c]), l.c1[c]); }
  }

  lemma {:induction false} ExactPackage(leaves: seq<Leaf>, l: Lists, c: nat, r: Lists)
    requires SortedLeaves(leaves) && Headed(l) && 0 < c < |l.c1| && Invariant(leaves, l, c) && Exact(leaves, l, c)
    requires !LeafIsNext(leaves, c, l.c1[c])
    requires r == Advance(l, c, Node(l.c0[c - 1].weight + l.c1[c - 1].weight, l.c1[c].index, l.c1[c - 1]))
    ensures SteppedExactly(leaves, l, r, c) && Exact(leaves, r, c - 1)
  {
    hide ItemChain;
    hide Capacity;
    hide Invariant;
    hide PairWeight;
    hide LeafIsNext;
    forall i | 0 < i <= c - 1 && MorePairs(leaves, i, Pairs(r.c1[i])) ensures ExactAt(leaves, r, i - 1) {
      assert ExactAt(leaves, l, i - 1);
    }
    if ExactAt(leaves, l, c) && Items(l.c1[c]) < Capacity(|leaves|, c) {
      var k := Items(l.c1[c]);
      PrefixHolds(leaves, c, k);
      RoomLeft(leaves, c, k, l.c1[c]);
      LookAheadPair(leaves, l, c);
      NextIsPair(leaves, c, k, l.c1[c]);
    }
  }

  /** The two recursive steps find the next pair, if there is one. */
  lemma {:induction false} ExactAhead(leaves: seq<Leaf>, l: Lists, packaged: Lists, l1: Lists, l2: Lists, c: nat)
    requires SortedLeaves(leaves) && Headed(l) && 0 < c < |l.c1| && Invariant(leaves, l, c) && Exact(leaves, l, c)
    requires packaged == Advance(l, c, Node(l.c0[c - 1].weight + l.c1[c - 1].weight, l.c1[c].index, l.c1[c - 1]))
    requires Headed(l1) && Headed(l2) && |l1.c1| == |l2.c1| == |l.c1|
    requires Stepped(leaves, packaged, l1, c - 1) && Stepped(leaves, l1, l2, c - 1)
    requires SteppedExactly(leaves, packaged, l1, c - 1) && SteppedExactly(leaves, l1, l2, c - 1)
    requires Exact(leaves, l2, c - 1)
    ensures Exact(leaves, l2, c)
  {
    hide ItemChain;
    hide Capacity;
    hide ListOk;
    hide Weight;
    var before, now := Pairs(l.c1[c]), Pairs(l2.c1[c]);
    assert l2.c1[c] == packaged.c1[c];
    if MorePairs(leaves, c, now) {
      assert LinkOk(leaves, l, c);
      assert MorePairs(leaves, c, before);
      assert ExactAt(leaves, l, c - 1);
      assert ExactAt(leaves, packaged, c - 1);
    }
  }

  /** A step on an exact list finds its next item, and keeps every look-ahead exact. */
  lemma {:induction false} StepExact(leaves: seq<Leaf>, l: Lists, c: nat, num: nat)
    requires SortedLeaves(leaves) && Headed(l) && c < |l.c1| && Invariant(leaves, l, c) && Exact(leaves, l, c)
    ensures SteppedExactly(leaves, l, Step(leaves, l, c, num), c)
    ensures num + 1 < 2 * |leaves| - 2 ==> Exact(leaves, Step(leaves, l, c, num), c)
    decreases c
  {
    hide Items;
    hide Invariant;
    hide Stepped;
    hide Exact;
    hide ExactAt;
    hide SteppedExactly;
    hide Step;
    hide Advance;
    hide LeafIsNext;
    var last := l.c1[c].index;
    SameChoice(leaves, l, c);
    if c == 0 { StepZero(leaves, l, num); } else { StepUnfold(leaves, l, c, num); }
    var r := Step(leaves, l, c, num);
    if LeafIsNext(leaves, c, l.c1[c]) {
      ExactLeaf(leaves, l, c, r);
    } else if c == 0 {
      NoLeaf(leaves, l);
    } else {
      var packaged := Advance(l, c, Node(l.c0[c - 1].weight + l.c1[c - 1].weight, last, l.c1[c - 1]));
      PackageStep(leaves, l, c);
      ExactPackage(leaves, l, c, packaged);
      if num + 1 < 2 * |leaves| - 2 {
        var l1 := Step(leaves, packaged, c - 1, num);
        StepKeeps(leaves, packaged, c - 1, num);
        StepExact(leaves, packaged, c - 1, num);
        var l2 := Step(leaves, l1, c - 1, num);
        StepKeeps(leaves, l1, c - 1, num);
        StepExact(leaves, l1, c - 1, num);
        ExactAhead(leaves, l, packaged, l1, l2, c);
        Above(leaves, l, packaged, l1, l2, c);
      }
    }
  }

  /** A first list with no leaf left is exhausted. */
  lemma {:induction false} NoLeaf(leaves: seq<Leaf>, l: Lists)
    requires SortedLeaves(leaves) && Headed(l) && 0 < |l.c1| && Invariant(leaves, l, 0)
    requires !LeafIsNext(leaves, 0, l.c1[0])
    ensures SteppedExactly(leaves, l, l, 0) && Exact(leaves, l, 0)
    ensures l.c1[0].index >= |leaves|
  {
  }

  /** The recursive steps leave list c as the package made it. */
  lemma {:induction false} Above(leaves: seq<Leaf>, l: Lists, packaged: Lists, l1: Lists, l2: Lists, c: nat)
    requires |leaves| >= 2 && Headed(l) && Headed(packaged) && Headed(l1) && Headed(l2)
    requires 0 < c < |l.c1| == |packaged.c1| == |l1.c1| == |l2.c1|
    requires Stepped(leaves, packaged, l1, c - 1) && Stepped(leaves, l1, l2, c - 1)
    requires SteppedExactly(leaves, l, packaged, c)
    ensures SteppedExactly(leaves, l, l2, c)
  {
    hide ItemChain;
    hide Capacity;
    hide ListOk;
    hide Items;
    hide Whole;
    assert l2.c1[c] == packaged.c1[c] && l2.c0[c] == packaged.c0[c];
  }

  lemma {:induction false} InitialExact(leaves: seq<Leaf>, listsize: nat)
    requires SortedLeaves(leaves) && listsize > 0
    ensures var l := InitialLists(leaves, listsize);
            Exact(leaves, l, listsize - 1) && ExactAt(leaves, l, listsize - 1)
  {
    var l := InitialLists(leaves, listsize);
    forall c | 0 <= c < listsize ensures ExactAt(leaves, l, c) {
      assert l.c1[c] == ItemChain(leaves, c, 2) && l.c0[c] == ItemChain(leaves, c, 1);
    }
  }

  /** After step k the newest chain of the last list is item k of the full list. */
  lemma {:induction false} RunExact(leaves: seq<Leaf>, listsize: nat, k: nat)
    requires SortedLeaves(leaves) && listsize > 0 && |leaves| <= Pow2(listsize)
    requires 2 <= k <= 2 * |leaves| - 2
    ensures var l := Run(leaves, listsize, k);
            && l.c1[listsize - 1] == ItemChain(leaves, listsize - 1, k)
            && ExactAt(leaves, l, listsize - 1)
            && (k < 2 * |leaves| - 2 ==> Exact(leaves, l, listsize - 1))
  {
    hide Items;
    hide Whole;
    hide Step;
    hide Invariant;
    hide Exact;
    hide SteppedExactly;
    hide Capacity;
    hide ItemChain;
    RunKeeps(leaves, listsize, k);
    if k == 2 {
      RunTwo(leaves, listsize);
      InitialExact(leaves, listsize);
    } else {
      RunKeeps(leaves, listsize, k - 1);
      RunExact(leaves, listsize, k - 1);
      CapacityEnough(|leaves|, listsize);
      StepExact(leaves, Run(leaves, listsize, k - 1), listsize - 1, k - 1);
      StepsExactly(leaves, Run(leaves, listsize, k - 1), Run(leaves, listsize, k), listsize - 1);
    }
  }

  lemma {:induction false} RunTwo(leaves: seq<Leaf>, listsize: nat)
    requires |leaves| >= 2 && listsize > 0
    ensures Run(leaves, listsize, 2) == InitialLists(leaves, listsize)
  {
  }

  lemma {:induction false} StepsExactly(leaves: seq<Leaf>, l: Lists, r: Lists, c: nat)
    requires |leaves| >= 2 && Headed(l) && Headed(r) && c < |l.c1| == |r.c1|
    requires SteppedExactly(leaves, l, r, c) && ExactAt(leaves, l, c) && Items(l.c1[c]) < Capacity(|leaves|, c)
    ensures ExactAt(leaves, r, c)
  {
    hide ItemChain;
  }
}
