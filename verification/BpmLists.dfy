/** Boundary package-merge in memory: a pool of nodes with a mark-and-collect allocator.

  Pointers are indices into the pool.  The ghost `lists` are the chains as values;
  `Rep` says that a pointer represents a chain in the pool. */
module BpmLists {
  import opened PackageMerge

  datatype Pointer = Null | Ptr(cell: nat)

  datatype BPMNode = BPMNode(weight: int, index: nat, tail: Pointer, inUse: bool)

  ghost predicate Rep(mem: seq<BPMNode>, p: Pointer, chain: Chain)
    decreases chain
  {
    match chain
    case Nil => p == Null
    case Node(weight, index, tail) =>
      && p.Ptr? && p.cell < |mem|
      && mem[p.cell].weight == weight && mem[p.cell].index == index
      && Rep(mem, mem[p.cell].tail, tail)
  }

  /** The cells a represented chain occupies. */
  ghost function Cells(mem: seq<BPMNode>, p: Pointer, chain: Chain): (r: set<nat>)
    requires Rep(mem, p, chain)
    ensures forall q :: q in r ==> q < |mem|
    ensures |r| <= Depth(chain)
    decreases chain
  {
    match chain
    case Nil => {}
    case Node(_, _, tail) => {p.cell} + Cells(mem, mem[p.cell].tail, tail)
  }

  /** Marks aside, cell q is the same in both pools. */
  predicate SameNode(m0: seq<BPMNode>, m1: seq<BPMNode>, q: nat)
  {
    q < |m0| == |m1| && m0[q].weight == m1[q].weight && m0[q].index == m1[q].index && m0[q].tail == m1[q].tail
  }

  /** Two pools that differ in their marks only. */
  ghost predicate SameLinks(m0: seq<BPMNode>, m1: seq<BPMNode>)
  {
    && |m0| == |m1|
    && forall q :: 0 <= q < |m0| ==>
         m0[q].weight == m1[q].weight && m0[q].index == m1[q].index && m0[q].tail == m1[q].tail
  }

  /** A chain survives any change outside its own cells. */
  lemma {:induction false} RepFrame(m0: seq<BPMNode>, m1: seq<BPMNode>, p: Pointer, chain: Chain)
    requires Rep(m0, p, chain) && |m0| == |m1|
    requires forall q :: q in Cells(m0, p, chain) ==> SameNode(m0, m1, q)
    ensures Rep(m1, p, chain) && Cells(m1, p, chain) == Cells(m0, p, chain)
    decreases chain
  {
    if chain.Node? {
      assert p.cell in Cells(m0, p, chain);
      RepFrame(m0, m1, m0[p.cell].tail, chain.tail);
    }
  }

  /** The first n lists are represented, list i by chains of at most i + 1 nodes. */
  ghost predicate Represented(mem: seq<BPMNode>, ch0: seq<nat>, ch1: seq<nat>, l: Lists, n: nat)
  {
    && n <= |ch0| && n <= |ch1| && n <= |l.c0| && n <= |l.c1|
    && (forall i :: 0 <= i < n ==> Rep(mem, Ptr(ch0[i]), l.c0[i]) && Depth(l.c0[i]) <= i + 1)
    && (forall i :: 0 <= i < n ==> Rep(mem, Ptr(ch1[i]), l.c1[i]) && Depth(l.c1[i]) <= i + 1)
  }

  /** All cells in use by the first n lists: at most n(n+1), half of the pool. */
  ghost function Roots(mem: seq<BPMNode>, ch0: seq<nat>, ch1: seq<nat>, l: Lists, n: nat): (r: set<nat>)
    requires Represented(mem, ch0, ch1, l, n)
    ensures forall q :: q in r ==> q < |mem|
    ensures |r| <= n * (n + 1)
    decreases n
  {
    if n == 0 then {}
    else
      RootsArith(n);
      Roots(mem, ch0, ch1, l, n - 1)
      + Cells(mem, Ptr(ch0[n - 1]), l.c0[n - 1]) + Cells(mem, Ptr(ch1[n - 1]), l.c1[n - 1])
  }

  lemma RootsArith(n: nat)
    requires n > 0
    ensures (n - 1) * n + 2 * n == n * (n + 1)
  {
  }

  lemma {:induction false} RootsContain(mem: seq<BPMNode>, ch0: seq<nat>, ch1: seq<nat>, l: Lists, n: nat, i: nat)
    requires Represented(mem, ch0, ch1, l, n) && i < n
    ensures Cells(mem, Ptr(ch0[i]), l.c0[i]) <= Roots(mem, ch0, ch1, l, n)
    ensures Cells(mem, Ptr(ch1[i]), l.c1[i]) <= Roots(mem, ch0, ch1, l, n)
    decreases n
  {
    if i < n - 1 { RootsContain(mem, ch0, ch1, l, n - 1, i); }
  }

  /** Nothing is a root that is not on some chain. */
  lemma {:induction false} RootsWithin(mem: seq<BPMNode>, ch0: seq<nat>, ch1: seq<nat>, l: Lists, n: nat, bound: set<nat>)
    requires Represented(mem, ch0, ch1, l, n)
    requires forall i :: 0 <= i < n ==> Cells(mem, Ptr(ch0[i]), l.c0[i]) <= bound
    requires forall i :: 0 <= i < n ==> Cells(mem, Ptr(ch1[i]), l.c1[i]) <= bound
    ensures Roots(mem, ch0, ch1, l, n) <= bound
    decreases n
  {
    hide Cells;
    hide Rep;
    if n > 0 { RootsWithin(mem, ch0, ch1, l, n - 1, bound); }
  }

  lemma RootsFrame(m0: seq<BPMNode>, m1: seq<BPMNode>, ch0: seq<nat>, ch1: seq<nat>, l: Lists, n: nat)
    requires Represented(m0, ch0, ch1, l, n) && |m0| == |m1|
    requires forall q :: q in Roots(m0, ch0, ch1, l, n) ==> SameNode(m0, m1, q)
    ensures Represented(m1, ch0, ch1, l, n)
    ensures Roots(m1, ch0, ch1, l, n) == Roots(m0, ch0, ch1, l, n)
  {
    hide Rep;
    hide Roots;
    hide Cells;
    forall i | 0 <= i < n
      ensures Rep(m1, Ptr(ch0[i]), l.c0[i]) && Cells(m1, Ptr(ch0[i]), l.c0[i]) == Cells(m0, Ptr(ch0[i]), l.c0[i])
      ensures Rep(m1, Ptr(ch1[i]), l.c1[i]) && Cells(m1, Ptr(ch1[i]), l.c1[i]) == Cells(m0, Ptr(ch1[i]), l.c1[i])
    {
      RootsContain(m0, ch0, ch1, l, n, i);
      RepFrame(m0, m1, Ptr(ch0[i]), l.c0[i]);
      RepFrame(m0, m1, Ptr(ch1[i]), l.c1[i]);
    }
    RootsEqual(m0, m1, ch0, ch1, l, n);
  }

  lemma {:induction false} RootsEqual(m0: seq<BPMNode>, m1: seq<BPMNode>, ch0: seq<nat>, ch1: seq<nat>, l: Lists, n: nat)
    requires Represented(m0, ch0, ch1, l, n) && Represented(m1, ch0, ch1, l, n)
    requires forall i :: 0 <= i < n ==> Cells(m1, Ptr(ch0[i]), l.c0[i]) == Cells(m0, Ptr(ch0[i]), l.c0[i])
    requires forall i :: 0 <= i < n ==> Cells(m1, Ptr(ch1[i]), l.c1[i]) == Cells(m0, Ptr(ch1[i]), l.c1[i])
    ensures Roots(m1, ch0, ch1, l, n) == Roots(m0, ch0, ch1, l, n)
    decreases n
  {
    hide Cells;
    hide Rep;
    if n > 0 { RootsEqual(m0, m1, ch0, ch1, l, n - 1); }
  }

  /** The cells the allocator may hand out: distinct, and on no chain. */
  ghost predicate FreeCells(free: seq<nat>, memsize: nat, roots: set<nat>)
  {
    && (forall k :: 0 <= k < |free| ==> free[k] < memsize && free[k] !in roots)
    && (forall i, j :: 0 <= i < j < |free| ==> free[i] != free[j])
  }

  class BPMLists {
    const listsize: nat
    const memory: array<BPMNode>
    const freelist: array<nat>
    const chains0: array<nat>
    const chains1: array<nat>
    var numfree: nat
    var nextfree: nat
    ghost var lists: Lists

    ghost predicate Shape()
      reads this
    {
      && memory.Length == freelist.Length == 2 * listsize * (listsize + 1)
      && chains0.Length == chains1.Length == |lists.c0| == |lists.c1| == listsize
      && chains0 != chains1 && chains0 != freelist && chains1 != freelist
      && listsize > 0
      && Headed(lists)
      && nextfree <= numfree <= freelist.Length
    }

    ghost predicate Chained()
      requires Shape()
      reads this, memory, chains0, chains1
    {
      Represented(memory[..], chains0[..], chains1[..], lists, listsize)
    }

    ghost function Live(): set<nat>
      requires Shape() && Chained()
      reads this, memory, chains0, chains1
    {
      Roots(memory[..], chains0[..], chains1[..], lists, listsize)
    }

    ghost predicate Valid()
      reads this, memory, freelist, chains0, chains1
    {
      && Shape() && Chained()
      && FreeCells(freelist[nextfree..numfree], memory.Length, Live())
    }

    /** Marks the nodes of one chain. */
    method MarkChain(head: nat, ghost chain: Chain)
      requires Rep(memory[..], Ptr(head), chain)
      modifies memory
      ensures SameLinks(old(memory[..]), memory[..])
      ensures forall q: nat :: q < memory.Length ==>
                (memory[q].inUse <==> old(memory[q].inUse) || q in old(Cells(memory[..], Ptr(head), chain)))
    {
      ghost var m0 := memory[..];
      ghost var rest := chain;
      var node := Ptr(head);
      while node != Null
        invariant SameLinks(m0, memory[..])
        invariant Rep(m0, node, rest)
        invariant forall q: nat :: q < memory.Length ==>
                    (memory[q].inUse || q in Cells(m0, node, rest) <==>
                     m0[q].inUse || q in Cells(m0, Ptr(head), chain))
        decreases rest
      {
        var cell := node.cell;
        memory[cell] := memory[cell].(inUse := true);
        assert Cells(m0, node, rest) == {cell} + Cells(m0, m0[cell].tail, rest.tail);
        node := memory[cell].tail;
        rest := rest.tail;
      }
    }

    method ClearMarks()
      modifies memory
      ensures SameLinks(old(memory[..]), memory[..])
      ensures forall q: nat :: q < memory.Length ==> !memory[q].inUse
    {
      ghost var m0 := memory[..];
      for i := 0 to memory.Length
        invariant SameLinks(m0, memory[..])
        invariant forall q: nat :: q < i ==> !memory[q].inUse
      {
        memory[i] := memory[i].(inUse := false);
      }
    }

    /** Marks exactly the nodes on the chains. */
    method MarkLive()
      requires Shape() && Chained()
      modifies memory
      ensures SameLinks(old(memory[..]), memory[..])
      ensures forall q: nat :: q < memory.Length ==> (memory[q].inUse <==> q in old(Live()))
    {
      hide Rep;
      hide Cells;
      ghost var m0, ch0, ch1 := memory[..], chains0[..], chains1[..];
      ClearMarks();
      RootsNone(m0, ch0, ch1, lists);
      for i := 0 to listsize
        invariant SameLinks(m0, memory[..])
        invariant forall q: nat :: q < memory.Length ==>
                    (memory[q].inUse <==> q in Roots(m0, ch0, ch1, lists, i))
      {
        LinksFrame(m0, memory[..], Ptr(ch0[i]), lists.c0[i]);
        MarkChain(chains0[i], lists.c0[i]);
        LinksFrame(m0, memory[..], Ptr(ch1[i]), lists.c1[i]);
        MarkChain(chains1[i], lists.c1[i]);
      }
    }

    /** Gathers the unmarked nodes. */
    method CollectFree(ghost live: set<nat>)
      requires memory.Length == freelist.Length
      requires forall q: nat :: q < memory.Length ==> (memory[q].inUse <==> q in live)
      modifies this`numfree, this`nextfree, freelist
      ensures nextfree == 0 && numfree <= memory.Length <= numfree + |live|
      ensures FreeCells(freelist[nextfree..numfree], memory.Length, live)
    {
      numfree := 0;
      nextfree := 0;
      ghost var marked: set<nat> := {};
      for i := 0 to memory.Length
        invariant nextfree == 0 && numfree <= i
        invariant marked <= live && (forall q :: q in marked ==> q < i) && numfree + |marked| == i
        invariant forall k :: 0 <= k < numfree ==> freelist[k] < i && freelist[k] !in live
        invariant forall j, k :: 0 <= j < k < numfree ==> freelist[j] < freelist[k]
      {
        if !memory[i].inUse {
          freelist[numfree] := i;
          numfree := numfree + 1;
        } else {
          marked := marked + {i};
        }
      }
      SubsetSize(marked, live);
    }

    /** Garbage collection: afterwards at least half of the pool is free, and none of it is live. */
    method Collect()
      requires Valid()
      modifies this`numfree, this`nextfree, memory, freelist
      ensures Valid() && nextfree == 0 && numfree >= listsize * (listsize + 1)
      ensures SameLinks(old(memory[..]), memory[..]) && Live() == old(Live())
    {
      hide Rep;
      hide Roots;
      hide Represented;
      ghost var m0 := memory[..];
      MarkLive();
      LinksRoots(m0, memory[..], chains0[..], chains1[..], lists, listsize);
      CollectFree(Live());
      assert 2 * listsize * (listsize + 1) == 2 * (listsize * (listsize + 1));
    }

    /** Fills in the next free node. */
    method Take(weight: int, index: nat, tail: Pointer, ghost tailChain: Chain) returns (result: nat)
      requires Valid() && nextfree < numfree && Rep(memory[..], tail, tailChain)
      requires Cells(memory[..], tail, tailChain) <= Live()
      modifies this`nextfree, memory
      ensures Valid() && Live() == old(Live())
      ensures result !in old(Live()) && result < memory.Length
      ensures result !in freelist[nextfree..numfree]
      ensures Rep(memory[..], Ptr(result), Node(weight, index, tailChain))
      ensures Cells(memory[..], Ptr(result), Node(weight, index, tailChain))
           == {result} + old(Cells(memory[..], tail, tailChain))
    {
      hide Roots;
      hide Represented;
      ghost var m1 := memory[..];
      ghost var free := freelist[nextfree..numfree];
      result := freelist[nextfree];
      assert free[0] == result && free[1..] == freelist[nextfree + 1..numfree];
      nextfree := nextfree + 1;
      memory[result] := memory[result].(weight := weight, index := index, tail := tail);
      OutsideFrame(m1, memory[..], result, chains0[..], chains1[..], lists, listsize, tail, tailChain);
    }

    /** A node from the pool: never one that is on a chain. */
    method Create(weight: int, index: nat, tail: Pointer, ghost tailChain: Chain) returns (result: nat)
      requires Valid() && Rep(memory[..], tail, tailChain)
      requires Cells(memory[..], tail, tailChain) <= Live()
      modifies this`numfree, this`nextfree, memory, freelist
      ensures Valid() && Live() == old(Live())
      ensures result !in old(Live()) && result < memory.Length
      ensures result !in freelist[nextfree..numfree]
      ensures Rep(memory[..], Ptr(result), Node(weight, index, tailChain))
      ensures Cells(memory[..], Ptr(result), Node(weight, index, tailChain))
           == {result} + old(Cells(memory[..], tail, tailChain))
    {
      hide Roots;
      hide Represented;
      hide Rep;
      hide Cells;
      hide FreeCells;
      ghost var m0 := memory[..];
      if nextfree >= numfree {
        Collect();
        LinksFrame(m0, memory[..], tail, tailChain);
        HalfFree(listsize);
      }
      result := Take(weight, index, tail, tailChain);
    }

    /** The pool after the first two leaves have been created and made the chains of every list. */
    constructor (leaves: seq<Leaf>, maxbitlen: nat)
      requires |leaves| >= 2 && maxbitlen > 0
      ensures Valid() && listsize == maxbitlen && lists == InitialLists(leaves, maxbitlen)
      ensures fresh(memory) && fresh(freelist) && fresh(chains0) && fresh(chains1)
    {
      listsize := maxbitlen;
      var memsize := 2 * maxbitlen * (maxbitlen + 1);
      PoolSize(maxbitlen);
      var mem, free := FirstNodes(leaves, memsize);
      memory := mem;
      freelist := free;
      numfree := memsize;
      nextfree := 2;
      chains0 := new nat[maxbitlen](_ => 0);
      chains1 := new nat[maxbitlen](_ => 1);
      lists := InitialLists(leaves, maxbitlen);
      new;
      hide Rep;
      hide Roots;
      hide Cells;
      hide Represented;
      hide FreeCells;
      InitialRoots(memory[..], chains0[..], chains1[..], lists, maxbitlen);
      hide Headed;
      FreshPool(freelist[..], memsize, Live());
      assert freelist[..][2..memsize] == freelist[2..memsize];
    }

    /** chains0[c] = chains1[c]: what only the old chain used becomes collectable. */
    method KeepLast(c: nat)
      requires Valid() && c < listsize
      modifies this`lists, chains0
      ensures Valid() && lists == Lists(old(lists).c0[c := old(lists).c1[c]], old(lists).c1)
      ensures chains1[..] == old(chains1[..])
      ensures nextfree == old(nextfree) && numfree == old(numfree)
    {
      hide Rep;
      hide Roots;
      hide Cells;
      ghost var live, mem, ch0, ch1, l0 := Live(), memory[..], chains0[..], chains1[..], lists;
      chains0[c] := chains1[c];
      lists := Lists(lists.c0[c := lists.c1[c]], lists.c1);
      forall i | 0 <= i < listsize
        ensures Cells(mem, Ptr(chains0[..][i]), lists.c0[i]) <= live
        ensures Cells(mem, Ptr(chains1[..][i]), lists.c1[i]) <= live
      {
        RootsContain(mem, ch0, ch1, l0, listsize, i);
        RootsContain(mem, ch0, ch1, l0, listsize, c);
      }
      RootsWithin(mem, chains0[..], chains1[..], lists, listsize, live);
    }

    /** Creates a node and makes it the newest chain of list c. */
    method PushChain(c: nat, weight: int, index: nat, tail: Pointer, ghost tailChain: Chain)
      requires Valid() && c < listsize && Depth(tailChain) <= c
      requires Rep(memory[..], tail, tailChain) && Cells(memory[..], tail, tailChain) <= Live()
      modifies this, memory, freelist, chains1
      ensures Valid() && lists == Lists(old(lists).c0, old(lists).c1[c := Node(weight, index, tailChain)])
    {
      hide Rep;
      hide Roots;
      hide Cells;
      var result := Create(weight, index, tail, tailChain);
      ghost var live, mem, ch0, ch1, l0 := Live(), memory[..], chains0[..], chains1[..], lists;
      Pushed(mem, ch0, ch1, l0, listsize, c, result, Node(weight, index, tailChain));
      FreeStill(freelist[nextfree..numfree], memory.Length, live,
                Roots(mem, ch0, ch1[c := result], Lists(l0.c0, l0.c1[c := Node(weight, index, tailChain)]), listsize), result);
      hide Represented;
      hide FreeCells;
      chains1[c] := result;
      lists := Lists(lists.c0, lists.c1[c := Node(weight, index, tailChain)]);
      assert memory[..] == mem && chains0[..] == ch0 && chains1[..] == ch1[c := result];
    }

    /** A leaf becomes the newest item of list c. */
    method AddLeaf(c: nat, weight: int, index: nat)
      requires Valid() && c < listsize
      modifies this, memory, freelist, chains0, chains1
      ensures Valid()
      ensures lists == Advance(old(lists), c, Node(weight, index, if c == 0 then Nil else old(lists).c1[c].tail))
    {
      hide Rep;
      hide Roots;
      hide Cells;
      ghost var l := lists;
      KeepLast(c);
      if c == 0 {
        NothingLive(memory[..]);
        PushChain(c, weight, index, Null, Nil);
      } else {
        HeadFacts(memory[..], chains0[..], chains1[..], lists, listsize, c);
        PushChain(c, weight, index, memory[chains1[c]].tail, l.c1[c].tail);
      }
    }

    /** The two newest items of list c - 1 become a package in list c. */
    method AddPackage(c: nat, sum: int, last: nat)
      requires Valid() && 0 < c < listsize
      modifies this, memory, freelist, chains0, chains1
      ensures Valid() && lists == Advance(old(lists), c, Node(sum, last, old(lists).c1[c - 1]))
    {
      hide Rep;
      hide Roots;
      hide Cells;
      ghost var l := lists;
      KeepLast(c);
      HeadFacts(memory[..], chains0[..], chains1[..], lists, listsize, c - 1);
      PushChain(c, sum, last, Ptr(chains1[c - 1]), l.c1[c - 1]);
    }

    /** One step on list c, on the pool. */
    method BoundaryPM(leaves: seq<Leaf>, c: nat, num: nat)
      requires Valid() && c < listsize
      modifies this, memory, freelist, chains0, chains1
      ensures Valid() && lists == Step(leaves, old(lists), c, num)
      decreases c
    {
      hide Rep;
      hide Roots;
      hide Cells;
      hide Step;
      hide Advance;
      ghost var l := lists;
      HeadFacts(memory[..], chains0[..], chains1[..], lists, listsize, c);
      var last := memory[chains1[c]].index;
      if c == 0 {
        StepZero(leaves, l, num);
        if last >= |leaves| { return; }
        AddLeaf(c, leaves[last].weight, last + 1);
      } else {
        StepUnfold(leaves, l, c, num);
        HeadFacts(memory[..], chains0[..], chains1[..], lists, listsize, c - 1);
        var sum := memory[chains0[c - 1]].weight + memory[chains1[c - 1]].weight;
        if last < |leaves| && sum > leaves[last].weight {
          AddLeaf(c, leaves[last].weight, last + 1);
          return;
        }
        AddPackage(c, sum, last);
        if num + 1 < 2 * |leaves| - 2 {
          BoundaryPM(leaves, c - 1, num);
          BoundaryPM(leaves, c - 1, num);
        }
      }
    }
  }

  /** Free cells stay free when only a node not among them becomes live. */
  lemma FreeStill(free: seq<nat>, memsize: nat, live: set<nat>, next: set<nat>, result: nat)
    requires FreeCells(free, memsize, live) && next <= live + {result} && result !in free
    ensures FreeCells(free, memsize, next)
  {
  }

  /** The lists after a new node has become the newest chain of list c. */
  lemma Pushed(mem: seq<BPMNode>, ch0: seq<nat>, ch1: seq<nat>, l: Lists, n: nat, c: nat, result: nat, chain: Chain)
    requires |ch0| == |ch1| == |l.c0| == |l.c1| == n && c < n && Represented(mem, ch0, ch1, l, n)
    requires Rep(mem, Ptr(result), chain) && Depth(chain) <= c + 1
    requires Cells(mem, Ptr(result), chain) <= Roots(mem, ch0, ch1, l, n) + {result}
    ensures var l1 := Lists(l.c0, l.c1[c := chain]);
            && Represented(mem, ch0, ch1[c := result], l1, n)
            && Roots(mem, ch0, ch1[c := result], l1, n) <= Roots(mem, ch0, ch1, l, n) + {result}
  {
    hide Rep;
    hide Roots;
    hide Cells;
    var l1, live := Lists(l.c0, l.c1[c := chain]), Roots(mem, ch0, ch1, l, n) + {result};
    forall i | 0 <= i < n
      ensures Cells(mem, Ptr(ch0[i]), l1.c0[i]) <= live
      ensures Cells(mem, Ptr(ch1[c := result][i]), l1.c1[i]) <= live
    {
      RootsContain(mem, ch0, ch1, l, n, i);
    }
    RootsWithin(mem, ch0, ch1[c := result], l1, n, live);
  }

  /** All cells on the free list, the first two taken for the two lightest leaves. */
  method FirstNodes(leaves: seq<Leaf>, memsize: nat) returns (mem: array<BPMNode>, free: array<nat>)
    requires |leaves| >= 2 && memsize >= 2
    ensures fresh(mem) && fresh(free) && mem.Length == free.Length == memsize
    ensures mem[0] == BPMNode(leaves[0].weight, 1, Null, false) && mem[1] == BPMNode(leaves[1].weight, 2, Null, false)
    ensures forall i :: 0 <= i < memsize ==> free[i] == i
  {
    mem := new BPMNode[memsize](_ => BPMNode(0, 0, Null, false));
    free := new nat[memsize](i => i);
    mem[free[0]] := BPMNode(leaves[0].weight, 1, Null, false);
    mem[free[1]] := BPMNode(leaves[1].weight, 2, Null, false);
  }

  lemma HalfFree(n: nat)
    requires n > 0
    ensures n * (n + 1) > 0
  {
  }

  lemma FreshPool(free: seq<nat>, memsize: nat, roots: set<nat>)
    requires |free| == memsize >= 2 && (forall i :: 0 <= i < memsize ==> free[i] == i) && roots <= {0, 1}
    ensures FreeCells(free[2..memsize], memsize, roots)
  {
  }

  lemma PoolSize(n: nat)
    requires n > 0
    ensures 2 * n * (n + 1) >= 4
  {
    assert n * (n + 1) >= 2;
    assert 2 * n * (n + 1) == 2 * (n * (n + 1));
  }

  lemma InitialRoots(mem: seq<BPMNode>, ch0: seq<nat>, ch1: seq<nat>, l: Lists, n: nat)
    requires |mem| >= 2 && n == |ch0| == |ch1| == |l.c0| == |l.c1|
    requires mem[0].tail == Null && mem[1].tail == Null
    requires forall i :: 0 <= i < n ==> ch0[i] == 0 && l.c0[i] == Node(mem[0].weight, mem[0].index, Nil)
    requires forall i :: 0 <= i < n ==> ch1[i] == 1 && l.c1[i] == Node(mem[1].weight, mem[1].index, Nil)
    ensures Represented(mem, ch0, ch1, l, n) && Roots(mem, ch0, ch1, l, n) <= {0, 1}
  {
    forall i | 0 <= i < n
      ensures Rep(mem, Ptr(ch0[i]), l.c0[i]) && Cells(mem, Ptr(ch0[i]), l.c0[i]) == {0} && Depth(l.c0[i]) == 1
      ensures Rep(mem, Ptr(ch1[i]), l.c1[i]) && Cells(mem, Ptr(ch1[i]), l.c1[i]) == {1} && Depth(l.c1[i]) == 1
    {
    }
    hide Rep;
    hide Cells;
    RootsWithin(mem, ch0, ch1, l, n, {0, 1});
  }

  /** What the head nodes of list c hold, and that their chains are live. */
  lemma HeadFacts(mem: seq<BPMNode>, ch0: seq<nat>, ch1: seq<nat>, l: Lists, n: nat, c: nat)
    requires Represented(mem, ch0, ch1, l, n) && Headed(l) && c < n
    ensures ch0[c] < |mem| && mem[ch0[c]].weight == l.c0[c].weight
    ensures ch1[c] < |mem| && mem[ch1[c]].weight == l.c1[c].weight && mem[ch1[c]].index == l.c1[c].index
    ensures Depth(l.c1[c]) <= c + 1 && Depth(l.c1[c].tail) <= c
    ensures Rep(mem, Ptr(ch1[c]), l.c1[c]) && Cells(mem, Ptr(ch1[c]), l.c1[c]) <= Roots(mem, ch0, ch1, l, n)
    ensures Rep(mem, mem[ch1[c]].tail, l.c1[c].tail)
    ensures Cells(mem, mem[ch1[c]].tail, l.c1[c].tail) <= Roots(mem, ch0, ch1, l, n)
  {
    RootsContain(mem, ch0, ch1, l, n, c);
  }

  lemma NothingLive(mem: seq<BPMNode>)
    ensures Rep(mem, Null, Nil) && Cells(mem, Null, Nil) == {} && Depth(Nil) == 0
  {
  }

  lemma RootsNone(mem: seq<BPMNode>, ch0: seq<nat>, ch1: seq<nat>, l: Lists)
    ensures Represented(mem, ch0, ch1, l, 0) && Roots(mem, ch0, ch1, l, 0) == {}
  {
  }

  lemma SubsetSize(a: set<nat>, b: set<nat>)
    requires a <= b
    ensures |a| <= |b|
  {
    if a != {} {
      var x :| x in a;
      SubsetSize(a - {x}, b - {x});
    }
  }

  lemma LinksFrame(m0: seq<BPMNode>, m1: seq<BPMNode>, p: Pointer, chain: Chain)
    requires SameLinks(m0, m1) && Rep(m0, p, chain)
    ensures Rep(m1, p, chain) && Cells(m1, p, chain) == Cells(m0, p, chain)
  {
    RepFrame(m0, m1, p, chain);
  }

  lemma LinksRoots(m0: seq<BPMNode>, m1: seq<BPMNode>, ch0: seq<nat>, ch1: seq<nat>, l: Lists, n: nat)
    requires SameLinks(m0, m1) && Represented(m0, ch0, ch1, l, n)
    ensures Represented(m1, ch0, ch1, l, n) && Roots(m1, ch0, ch1, l, n) == Roots(m0, ch0, ch1, l, n)
  {
    hide Roots;
    hide Represented;
    RootsFrame(m0, m1, ch0, ch1, l, n);
  }

  /** Writing a cell that is on no chain changes no chain. */
  lemma OutsideFrame(m0: seq<BPMNode>, m1: seq<BPMNode>, cell: nat, ch0: seq<nat>, ch1: seq<nat>, l: Lists, n: nat,
                     tail: Pointer, tailChain: Chain)
    requires cell < |m0| == |m1| && m1 == m0[cell := m1[cell]]
    requires Represented(m0, ch0, ch1, l, n) && cell !in Roots(m0, ch0, ch1, l, n)
    requires Rep(m0, tail, tailChain) && Cells(m0, tail, tailChain) <= Roots(m0, ch0, ch1, l, n)
    ensures Represented(m1, ch0, ch1, l, n) && Roots(m1, ch0, ch1, l, n) == Roots(m0, ch0, ch1, l, n)
    ensures Rep(m1, tail, tailChain) && Cells(m1, tail, tailChain) == Cells(m0, tail, tailChain)
  {
    hide Roots;
    hide Represented;
    hide Rep;
    hide Cells;
    RootsFrame(m0, m1, ch0, ch1, l, n);
    RepFrame(m0, m1, tail, tailChain);
  }
}
