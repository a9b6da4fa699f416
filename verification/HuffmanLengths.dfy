/** Length-limited code lengths from symbol frequencies. */
module HuffmanLengths {
  import opened Bits
  import opened Canonical
  import opened KraftSums
  import opened PackageMerge
  import opened LeafSort
  import opened BpmLists
  import opened SymbolCost
  import PackageExact

  // ---- leaves and symbols ----

  /** The lengths the chain gives the first k leaves, every other symbol absent. */
  function Assigned(numcodes: nat, leaves: seq<Leaf>, chain: Chain, k: nat): (r: seq<nat>)
    requires k <= |leaves| && forall i :: 0 <= i < |leaves| ==> leaves[i].index < numcodes
    ensures |r| == numcodes
  {
    if k == 0 then Zeros(numcodes)
    else Assigned(numcodes, leaves, chain, k - 1)[leaves[k - 1].index := LenOf(chain, k - 1)]
  }

  lemma {:induction false} AssignedAt(frequencies: seq<nat>, leaves: seq<Leaf>, chain: Chain, k: nat, i: nat)
    requires k <= |leaves| && i < |leaves| && LeavesOf(leaves, frequencies)
    ensures Assigned(|frequencies|, leaves, chain, k)[leaves[i].index] == if i < k then LenOf(chain, i) else 0
  {
    if k > 0 {
      AssignedAt(frequencies, leaves, chain, k - 1, i);
      if i < k - 1 { assert leaves[i].index != leaves[k - 1].index; }
      if k - 1 < i { assert leaves[k - 1].index != leaves[i].index; }
    }
  }

  lemma {:induction false} AssignedAbsent(frequencies: seq<nat>, leaves: seq<Leaf>, chain: Chain, k: nat, s: nat)
    requires k <= |leaves| && s < |frequencies| && LeavesOf(leaves, frequencies) && frequencies[s] == 0
    ensures Assigned(|frequencies|, leaves, chain, k)[s] == 0
  {
    if k > 0 { AssignedAbsent(frequencies, leaves, chain, k - 1, s); }
  }

  /** The code space the first k leaves use is what their deficit leaves over. */
  lemma {:induction false} AssignedKraft(frequencies: seq<nat>, leaves: seq<Leaf>, chain: Chain, depth: nat, k: nat)
    requires k <= |leaves| && LeavesOf(leaves, frequencies)
    requires forall i: nat :: LenOf(chain, i) <= depth
    requires forall i: nat :: i < |leaves| ==> LenOf(chain, i) > 0
    ensures var r := Assigned(|frequencies|, leaves, chain, k);
            AtMost(r, depth) && KraftAt(r, depth) == k * Pow2(depth) - Deficit(chain, depth, k)
  {
    hide LenOf;
    hide KraftAt;
    hide Pow2;
    if k == 0 {
      KraftZeroes(|frequencies|, depth);
    } else {
      AssignedKraft(frequencies, leaves, chain, depth, k - 1);
      AssignedAt(frequencies, leaves, chain, k - 1, k - 1);
      KraftUpdate(Assigned(|frequencies|, leaves, chain, k - 1), depth, leaves[k - 1].index, LenOf(chain, k - 1));
      Distribute(k - 1, 1, Pow2(depth));
    }
  }

  /** Sorting keeps the leaves the present symbols, each once. */
  lemma SortedLeavesOf(before: seq<Leaf>, after: seq<Leaf>, frequencies: seq<nat>)
    requires LeavesOf(before, frequencies) && |before| >= 2
    requires Sorted(after) && multiset(after) == multiset(before)
    ensures LeavesOf(after, frequencies) && SortedLeaves(after) && |after| == |before|
  {
    assert |after| == |multiset(after)| == |multiset(before)| == |before|;
    InMultiset(after, before);
    forall s | 0 <= s < |frequencies| && frequencies[s] > 0 ensures Leaf(frequencies[s], s) in after {
      assert Leaf(frequencies[s], s) in multiset(before);
      assert Leaf(frequencies[s], s) in multiset(after);
    }
    forall i, j | 0 <= i < j < |after| ensures after[i].index != after[j].index {
      if after[i].index == after[j].index {
        Twice(after, i, j);
        Once(before, after[i]);
      }
    }
  }

  lemma Twice(s: seq<Leaf>, i: nat, j: nat)
    requires i < j < |s| && s[i] == s[j]
    ensures multiset(s)[s[i]] >= 2
  {
    assert s == s[..j] + s[j..];
    assert s[i] in s[..j] && s[i] in s[j..];
  }

  lemma {:induction false} Once(s: seq<Leaf>, x: Leaf)
    requires forall i, j :: 0 <= i < j < |s| ==> s[i].index != s[j].index
    ensures multiset(s)[x] <= 1
  {
    if s != [] {
      assert s == [s[0]] + s[1..];
      Once(s[1..], x);
      if x == s[0] { assert x !in s[1..]; }
    }
  }

  // ---- the method ----

  method GatherLeaves(frequencies: seq<nat>) returns (leaves: seq<Leaf>)
    ensures LeavesOf(leaves, frequencies) && |leaves| <= |frequencies|
  {
    leaves := [];
    for n := 0 to |frequencies|
      invariant |leaves| <= n
      invariant forall i :: 0 <= i < |leaves| ==>
                  leaves[i].index < n && leaves[i].weight == frequencies[leaves[i].index] > 0
      invariant forall s :: 0 <= s < n && frequencies[s] > 0 ==> Leaf(frequencies[s], s) in leaves
      invariant forall i, j :: 0 <= i < j < |leaves| ==> leaves[i].index < leaves[j].index
    {
      if frequencies[n] > 0 { leaves := leaves + [Leaf(frequencies[n], n)]; }
    }
  }

  /** Adds one to the length of every leaf that a node of the final chain counts. */
  method CountChain(pool: BPMLists, leaves: seq<Leaf>, frequencies: seq<nat>, lengths: array<nat>)
    requires pool.Valid() && LeavesOf(leaves, frequencies) && lengths.Length == |frequencies|
    requires Descending(pool.lists.c1[pool.listsize - 1], |leaves|)
    requires forall s :: 0 <= s < lengths.Length ==> lengths[s] == 0
    requires lengths != pool.freelist && lengths != pool.chains0 && lengths != pool.chains1
    modifies lengths
    ensures lengths[..] == Assigned(|frequencies|, leaves, pool.lists.c1[pool.listsize - 1], |leaves|)
  {
    ghost var chain := pool.lists.c1[pool.listsize - 1];
    ghost var rest := chain;
    ghost var mem := pool.memory[..];
    var node := Ptr(pool.chains1[pool.listsize - 1]);
    while node != Null
      invariant Rep(mem, node, rest) && Descending(rest, |leaves|)
      invariant mem == pool.memory[..]
      invariant forall i :: 0 <= i < |leaves| ==> lengths[leaves[i].index] + LenOf(rest, i) == LenOf(chain, i)
      invariant forall s :: 0 <= s < lengths.Length && frequencies[s] == 0 ==> lengths[s] == 0
      decreases rest
    {
      var count := pool.memory[node.cell].index;
      assert mem == pool.memory[..];
      BumpLeaves(lengths, leaves, frequencies, count);
      node := pool.memory[node.cell].tail;
      rest := rest.tail;
    }
    forall s | 0 <= s < |frequencies|
      ensures lengths[s] == Assigned(|frequencies|, leaves, chain, |leaves|)[s]
    {
      if frequencies[s] == 0 {
        AssignedAbsent(frequencies, leaves, chain, |leaves|, s);
      } else {
        var i :| 0 <= i < |leaves| && leaves[i] == Leaf(frequencies[s], s);
        AssignedAt(frequencies, leaves, chain, |leaves|, i);
      }
    }
  }

  method BumpLeaves(lengths: array<nat>, leaves: seq<Leaf>, ghost frequencies: seq<nat>, count: nat)
    requires LeavesOf(leaves, frequencies) && lengths.Length == |frequencies| && count <= |leaves|
    modifies lengths
    ensures forall i :: 0 <= i < |leaves| ==>
              lengths[leaves[i].index] == old(lengths[leaves[i].index]) + if i < count then 1 else 0
    ensures forall s :: 0 <= s < lengths.Length && frequencies[s] == 0 ==> lengths[s] == old(lengths[s])
  {
    for k := 0 to count
      invariant forall i :: 0 <= i < |leaves| ==>
                  lengths[leaves[i].index] == old(lengths[leaves[i].index]) + if i < k then 1 else 0
      invariant forall s :: 0 <= s < lengths.Length && frequencies[s] == 0 ==> lengths[s] == old(lengths[s])
    {
      lengths[leaves[k].index] := lengths[leaves[k].index] + 1;
    }
  }

  /** The lengths form a complete code for (at least) the present symbols. */
  ghost predicate CompleteFor(lengths: seq<nat>, frequencies: seq<nat>, depth: nat)
  {
    && |lengths| == |frequencies|
    && AtMost(lengths, depth) && KraftAt(lengths, depth) == Pow2(depth)
    && forall s :: 0 <= s < |frequencies| && frequencies[s] > 0 ==> lengths[s] > 0
  }

  ghost predicate TwoPresent(frequencies: seq<nat>)
  {
    exists s, t :: 0 <= s < t < |frequencies| && frequencies[s] > 0 && frequencies[t] > 0
  }

  ghost predicate ExactlyPresent(lengths: seq<nat>, frequencies: seq<nat>)
    requires |lengths| == |frequencies|
  {
    forall s :: 0 <= s < |frequencies| ==> (lengths[s] > 0 <==> frequencies[s] > 0)
  }

  /** Runs the algorithm to the end on a fresh pool. */
  method RunPool(leaves: seq<Leaf>, maxbitlen: nat) returns (pool: BPMLists)
    requires |leaves| >= 2 && maxbitlen > 0
    ensures fresh(pool) && fresh(pool.memory) && fresh(pool.freelist) && fresh(pool.chains0) && fresh(pool.chains1)
    ensures pool.Valid() && pool.listsize == maxbitlen && pool.lists == Run(leaves, maxbitlen, 2 * |leaves| - 2)
  {
    hide Step;
    hide Run;
    hide Rep;
    hide Roots;
    hide Represented;
    pool := new BPMLists(leaves, maxbitlen);
    RunStart(leaves, maxbitlen);
    for i := 2 to 2 * |leaves| - 2
      invariant pool.Valid() && pool.lists == Run(leaves, maxbitlen, i)
      invariant fresh(pool) && fresh(pool.memory) && fresh(pool.freelist) && fresh(pool.chains0) && fresh(pool.chains1)
    {
      RunNext(leaves, maxbitlen, i);
      pool.BoundaryPM(leaves, maxbitlen - 1, i);
    }
  }

  method SortedPresent(before: seq<Leaf>, ghost frequencies: seq<nat>) returns (leaves: seq<Leaf>)
    requires LeavesOf(before, frequencies) && 2 <= |before|
    ensures LeavesOf(leaves, frequencies) && SortedLeaves(leaves) && |leaves| == |before|
  {
    var a := new Leaf[|before|](i requires 0 <= i < |before| => before[i]);
    assert a[..] == before;
    Sort(a);
    leaves := a[..];
    SortedLeavesOf(before, leaves, frequencies);
  }

  method PackageMergeLengths(before: seq<Leaf>, frequencies: seq<nat>, maxbitlen: nat) returns (lengths: seq<nat>)
    requires LeavesOf(before, frequencies) && 2 <= |before| <= |frequencies| <= Pow2(maxbitlen)
    ensures CompleteFor(lengths, frequencies, maxbitlen)
    ensures ExactlyPresent(lengths, frequencies) && Shortest(lengths, frequencies, maxbitlen)
  {
    hide Shortest;
    hide Step;
    hide Run;
    hide LenOf;
    hide Items;
    hide Whole;
    hide Deficit;
    hide KraftAt;
    hide Rep;
    hide Roots;
    hide Represented;
    assert maxbitlen > 0;
    var leaves := SortedPresent(before, frequencies);
    var pool := RunPool(leaves, maxbitlen);
    RunKeeps(leaves, maxbitlen, 2 * |leaves| - 2);
    ghost var chain := pool.lists.c1[maxbitlen - 1];
    var result := new nat[|frequencies|](_ => 0);
    CountChain(pool, leaves, frequencies, result);
    lengths := result[..];
    FinalLengths(leaves, frequencies, chain, maxbitlen);
    FinalShortest(leaves, frequencies, chain, maxbitlen);
  }

  lemma FinalShortest(leaves: seq<Leaf>, frequencies: seq<nat>, chain: Chain, depth: nat)
    requires LeavesOf(leaves, frequencies) && SortedLeaves(leaves) && depth > 0 && |leaves| <= Pow2(depth)
    requires chain == Run(leaves, depth, 2 * |leaves| - 2).c1[depth - 1]
    ensures Shortest(Assigned(|frequencies|, leaves, chain, |leaves|), frequencies, depth)
  {
    hide LenOf;
    hide Assigned;
    hide Run;
    hide Pow2;
    PackageExact.RunExact(leaves, depth, 2 * |leaves| - 2);
    var r := Assigned(|frequencies|, leaves, chain, |leaves|);
    forall i | 0 <= i < |leaves| ensures r[leaves[i].index] == LenOf(chain, i) {
      AssignedAt(frequencies, leaves, chain, |leaves|, i);
    }
    ChainIsShortest(r, frequencies, leaves, depth, chain);
  }

  lemma RunStart(leaves: seq<Leaf>, listsize: nat)
    requires |leaves| >= 2 && listsize > 0
    ensures Run(leaves, listsize, 2) == InitialLists(leaves, listsize)
  {
  }

  lemma RunNext(leaves: seq<Leaf>, listsize: nat, k: nat)
    requires |leaves| >= 2 && listsize > 0 && k >= 2
    ensures Run(leaves, listsize, k + 1) == Step(leaves, Run(leaves, listsize, k), listsize - 1, k)
  {
  }

  lemma FinalLengths(leaves: seq<Leaf>, frequencies: seq<nat>, chain: Chain, depth: nat)
    requires LeavesOf(leaves, frequencies) && |leaves| >= 2
    requires chain.Node? && Whole(chain) && Descending(chain, |leaves|) && Depth(chain) <= depth
    requires Items(chain) == 2 * |leaves| - 2
    ensures var r := Assigned(|frequencies|, leaves, chain, |leaves|);
            && CompleteFor(r, frequencies, depth)
            && forall s :: 0 <= s < |frequencies| ==> (r[s] > 0 <==> frequencies[s] > 0)
  {
    hide LenOf;
    hide Items;
    hide Whole;
    hide Deficit;
    hide KraftAt;
    hide Pow2;
    hide Assigned;
    ChainIsComplete(chain, depth, |leaves|);
    AssignedKraft(frequencies, leaves, chain, depth, |leaves|);
    Distribute(|leaves| - 1, 1, Pow2(depth));
    forall s | 0 <= s < |frequencies|
      ensures Assigned(|frequencies|, leaves, chain, |leaves|)[s] > 0 <==> frequencies[s] > 0
    {
      if frequencies[s] == 0 {
        AssignedAbsent(frequencies, leaves, chain, |leaves|, s);
      } else {
        var i :| 0 <= i < |leaves| && leaves[i] == Leaf(frequencies[s], s);
        AssignedAt(frequencies, leaves, chain, |leaves|, i);
      }
    }
  }

  lemma TwoSymbols(numcodes: nat, depth: nat, s: nat, t: nat)
    requires s < t < numcodes && depth > 0
    ensures var r := Zeros(numcodes)[s := 1][t := 1]; AtMost(r, depth) && KraftAt(r, depth) == Pow2(depth)
  {
    hide KraftAt;
    KraftZeroes(numcodes, depth);
    KraftUpdate(Zeros(numcodes), depth, s, 1);
    KraftUpdate(Zeros(numcodes)[s := 1], depth, t, 1);
    Pow2Step(depth - 1);
  }

  /** Code lengths of at most maxbitlen bits that form a complete code, and the shortest for these frequencies. */
  method HuffmanCodeLengths(frequencies: seq<nat>, maxbitlen: nat) returns (error: int, lengths: seq<nat>)
    requires |frequencies| != 1
    ensures error == if |frequencies| == 0 || Pow2(maxbitlen) < |frequencies| then 80 else 0
    ensures error == 0 ==> CompleteFor(lengths, frequencies, maxbitlen)
    ensures error == 0 && TwoPresent(frequencies) ==> ExactlyPresent(lengths, frequencies)
    ensures error == 0 ==> Shortest(lengths, frequencies, maxbitlen)
  {
    hide KraftAt;
    hide Shortest;
    lengths := [];
    if |frequencies| == 0 { return 80, lengths; }
    if Pow2(maxbitlen) < |frequencies| { return 80, lengths; }
    var leaves := GatherLeaves(frequencies);
    if |leaves| == 0 {
      TwoSymbols(|frequencies|, maxbitlen, 0, 1);
      lengths := Zeros(|frequencies|)[0 := 1][1 := 1];
      FewIsShortest(lengths, frequencies, leaves, maxbitlen);
    } else if |leaves| == 1 {
      var s := leaves[0].index;
      TwoSymbols(|frequencies|, maxbitlen, Min(s, if s == 0 then 1 else 0), Max(s, if s == 0 then 1 else 0));
      lengths := Zeros(|frequencies|)[s := 1][(if s == 0 then 1 else 0) := 1];
      assert lengths == Zeros(|frequencies|)[Min(s, if s == 0 then 1 else 0) := 1][Max(s, if s == 0 then 1 else 0) := 1];
      FewIsShortest(lengths, frequencies, leaves, maxbitlen);
    } else {
      lengths := PackageMergeLengths(leaves, frequencies, maxbitlen);
    }
    error := 0;
  }
}
