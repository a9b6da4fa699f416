/** The number of bits a code spends on symbols of given frequencies, and the least it can be. */
module SymbolCost {
  import opened Bits
  import opened Canonical
  import opened CodeCost
  import opened KraftSums
  import opened PackageMerge

  /** The bits that symbols occurring this often take. */
  function TotalBits(lengths: seq<nat>, frequencies: seq<nat>): nat
    requires |lengths| == |frequencies|
  {
    if lengths == [] then 0
    else
      var n := |lengths| - 1;
      TotalBits(lengths[..n], frequencies[..n]) + frequencies[n] * lengths[n]
  }

  /** Lengths within the limit that a prefix code for the present symbols can have. */
  ghost predicate CodeFor(lengths: seq<nat>, frequencies: seq<nat>, depth: nat)
  {
    && |lengths| == |frequencies|
    && AtMost(lengths, depth) && KraftAt(lengths, depth) <= Pow2(depth)
    && forall s :: 0 <= s < |frequencies| && frequencies[s] > 0 ==> lengths[s] > 0
  }

  /** No other code within the limit takes fewer bits. */
  ghost predicate Shortest(lengths: seq<nat>, frequencies: seq<nat>, depth: nat)
    requires |lengths| == |frequencies|
  {
    forall other :: CodeFor(other, frequencies, depth) ==> TotalBits(lengths, frequencies) <= TotalBits(other, frequencies)
  }

  /** The leaves are the present symbols, each once, with their frequencies as weights. */
  ghost predicate LeavesOf(leaves: seq<Leaf>, frequencies: seq<nat>)
  {
    && (forall i :: 0 <= i < |leaves| ==>
          leaves[i].index < |frequencies| && leaves[i].weight == frequencies[leaves[i].index] > 0)
    && (forall s :: 0 <= s < |frequencies| && frequencies[s] > 0 ==> Leaf(frequencies[s], s) in leaves)
    && (forall i, j :: 0 <= i < j < |leaves| ==> leaves[i].index != leaves[j].index)
  }

  // ---- symbols and leaves ----

  /** The lengths with only those of the first k leaves kept. */
  function Masked(lengths: seq<nat>, leaves: seq<Leaf>, k: nat): (r: seq<nat>)
    requires k <= |leaves| && forall i :: 0 <= i < |leaves| ==> leaves[i].index < |lengths|
    ensures |r| == |lengths|
  {
    if k == 0 then Zeros(|lengths|)
    else Masked(lengths, leaves, k - 1)[leaves[k - 1].index := lengths[leaves[k - 1].index]]
  }

  function LeafLengths(lengths: seq<nat>, leaves: seq<Leaf>): (r: seq<nat>)
    requires forall i :: 0 <= i < |leaves| ==> leaves[i].index < |lengths|
    ensures |r| == |leaves|
  {
    seq(|leaves|, i requires 0 <= i < |leaves| => lengths[leaves[i].index])
  }

  lemma {:induction false} MaskedAt(lengths: seq<nat>, frequencies: seq<nat>, leaves: seq<Leaf>, k: nat, i: nat)
    requires |lengths| == |frequencies| && k <= |leaves| && i < |leaves| && LeavesOf(leaves, frequencies)
    ensures Masked(lengths, leaves, k)[leaves[i].index] == if i < k then lengths[leaves[i].index] else 0
  {
    if k > 0 {
      MaskedAt(lengths, frequencies, leaves, k - 1, i);
      if i < k - 1 { assert leaves[i].index != leaves[k - 1].index; }
      if k - 1 < i { assert leaves[k - 1].index != leaves[i].index; }
    }
  }

  lemma {:induction false} MaskedAbsent(lengths: seq<nat>, frequencies: seq<nat>, leaves: seq<Leaf>, k: nat, s: nat)
    requires |lengths| == |frequencies| && k <= |leaves| && LeavesOf(leaves, frequencies)
    requires s < |frequencies| && frequencies[s] == 0
    ensures Masked(lengths, leaves, k)[s] == 0
  {
    if k > 0 { MaskedAbsent(lengths, frequencies, leaves, k - 1, s); }
  }

  lemma {:induction false} BitsUpdate(lengths: seq<nat>, frequencies: seq<nat>, s: nat, l: nat)
    requires s < |lengths| == |frequencies| && lengths[s] == 0
    ensures TotalBits(lengths[s := l], frequencies) == TotalBits(lengths, frequencies) + frequencies[s] * l
  {
    var n := |lengths| - 1;
    var r := lengths[s := l];
    if s < n {
      BitsUpdate(lengths[..n], frequencies[..n], s, l);
      assert r[..n] == lengths[..n][s := l];
    } else {
      assert r[..n] == lengths[..n];
    }
  }

  lemma {:induction false} NoBits(n: nat, frequencies: seq<nat>)
    requires |frequencies| == n
    ensures TotalBits(Zeros(n), frequencies) == 0
  {
    if n > 0 {
      NoBits(n - 1, frequencies[..n - 1]);
      assert Zeros(n)[..n - 1] == Zeros(n - 1);
    }
  }

  /** The first k leaves take what their weighted lengths sum to. */
  lemma {:induction false} MaskedBits(lengths: seq<nat>, frequencies: seq<nat>, leaves: seq<Leaf>, k: nat)
    requires |lengths| == |frequencies| && k <= |leaves| && LeavesOf(leaves, frequencies)
    ensures TotalBits(Masked(lengths, leaves, k), frequencies) == WeightSum(leaves, LeafLengths(lengths, leaves), k)
  {
    hide TotalBits;
    if k == 0 {
      NoBits(|lengths|, frequencies);
    } else {
      MaskedBits(lengths, frequencies, leaves, k - 1);
      MaskedAt(lengths, frequencies, leaves, k - 1, k - 1);
      BitsUpdate(Masked(lengths, leaves, k - 1), frequencies, leaves[k - 1].index, lengths[leaves[k - 1].index]);
    }
  }

  lemma {:induction false} MaskedKraft(lengths: seq<nat>, frequencies: seq<nat>, leaves: seq<Leaf>, depth: nat, k: nat)
    requires |lengths| == |frequencies| && k <= |leaves| && LeavesOf(leaves, frequencies)
    requires LengthsWithin(LeafLengths(lengths, leaves), depth)
    ensures AtMost(Masked(lengths, leaves, k), depth)
    ensures KraftAt(Masked(lengths, leaves, k), depth) == SpaceUsed(LeafLengths(lengths, leaves), depth, k)
  {
    hide KraftAt;
    hide Pow2;
    if k == 0 {
      KraftZeroes(|lengths|, depth);
    } else {
      MaskedKraft(lengths, frequencies, leaves, depth, k - 1);
      MaskedAt(lengths, frequencies, leaves, k - 1, k - 1);
      assert LeafLengths(lengths, leaves)[k - 1] == lengths[leaves[k - 1].index];
      KraftUpdate(Masked(lengths, leaves, k - 1), depth, leaves[k - 1].index, lengths[leaves[k - 1].index]);
    }
  }

  /** Symbols that do not occur take no bits. */
  lemma {:induction false} SameBits(a: seq<nat>, b: seq<nat>, frequencies: seq<nat>)
    requires |a| == |b| == |frequencies| && forall s :: 0 <= s < |a| ==> a[s] == b[s] || frequencies[s] == 0
    ensures TotalBits(a, frequencies) == TotalBits(b, frequencies)
  {
    if a != [] {
      var n := |a| - 1;
      SameBits(a[..n], b[..n], frequencies[..n]);
    }
  }

  lemma {:induction false} LessKraft(a: seq<nat>, b: seq<nat>, depth: nat)
    requires |a| == |b| && AtMost(a, depth) && AtMost(b, depth)
    requires forall s :: 0 <= s < |a| ==> a[s] == b[s] || a[s] == 0
    ensures KraftAt(a, depth) <= KraftAt(b, depth)
  {
    if a != [] {
      var n := |a| - 1;
      LessKraft(a[..n], b[..n], depth);
    }
  }

  /** All leaves together are all symbols that occur. */
  lemma {:induction false} MaskedAll(lengths: seq<nat>, frequencies: seq<nat>, leaves: seq<Leaf>)
    requires |lengths| == |frequencies| && LeavesOf(leaves, frequencies)
    ensures var r := Masked(lengths, leaves, |leaves|);
            forall s :: 0 <= s < |lengths| ==> r[s] == if frequencies[s] > 0 then lengths[s] else 0
  {
    forall s | 0 <= s < |lengths|
      ensures Masked(lengths, leaves, |leaves|)[s] == if frequencies[s] > 0 then lengths[s] else 0
    {
      if frequencies[s] == 0 {
        MaskedAbsent(lengths, frequencies, leaves, |leaves|, s);
      } else {
        var i :| 0 <= i < |leaves| && leaves[i] == Leaf(frequencies[s], s);
        MaskedAt(lengths, frequencies, leaves, |leaves|, i);
      }
    }
  }

  lemma {:induction false} LeafBits(lengths: seq<nat>, frequencies: seq<nat>, leaves: seq<Leaf>)
    requires |lengths| == |frequencies| && LeavesOf(leaves, frequencies)
    ensures TotalBits(lengths, frequencies) == WeightSum(leaves, LeafLengths(lengths, leaves), |leaves|)
  {
    MaskedAll(lengths, frequencies, leaves);
    MaskedBits(lengths, frequencies, leaves, |leaves|);
    SameBits(Masked(lengths, leaves, |leaves|), lengths, frequencies);
  }

  /** A code for the symbols gives the leaves lengths that fit. */
  lemma {:induction false} LeafSpace(lengths: seq<nat>, frequencies: seq<nat>, leaves: seq<Leaf>, depth: nat)
    requires CodeFor(lengths, frequencies, depth) && LeavesOf(leaves, frequencies)
    ensures LengthsWithin(LeafLengths(lengths, leaves), depth)
    ensures SpaceUsed(LeafLengths(lengths, leaves), depth, |leaves|) <= Pow2(depth)
  {
    hide KraftAt;
    hide Pow2;
    assert LengthsWithin(LeafLengths(lengths, leaves), depth);
    MaskedAll(lengths, frequencies, leaves);
    MaskedKraft(lengths, frequencies, leaves, depth, |leaves|);
    LessKraft(Masked(lengths, leaves, |leaves|), lengths, depth);
  }

  /** The lengths of the package-merge chain make the shortest code there is. */
  lemma {:induction false} ChainIsShortest(lengths: seq<nat>, frequencies: seq<nat>, leaves: seq<Leaf>, depth: nat, chain: Chain)
    requires |lengths| == |frequencies| && LeavesOf(leaves, frequencies) && SortedLeaves(leaves)
    requires depth > 0 && |leaves| <= Pow2(depth) && chain == PackageItems.ItemChain(leaves, depth - 1, 2 * |leaves| - 2)
    requires forall i :: 0 <= i < |leaves| ==> lengths[leaves[i].index] == LenOf(chain, i)
    ensures Shortest(lengths, frequencies, depth)
  {
    hide TotalBits;
    hide CodeFor;
    hide LenOf;
    hide Pow2;
    forall other | CodeFor(other, frequencies, depth)
      ensures |other| == |frequencies| && TotalBits(lengths, frequencies) <= TotalBits(other, frequencies)
    {
      SameSize(other, frequencies, depth);
      LeafBits(lengths, frequencies, leaves);
      LeafBits(other, frequencies, leaves);
      LeafSpace(other, frequencies, leaves, depth);
      LeastWeight(leaves, depth, chain, LeafLengths(lengths, leaves), LeafLengths(other, leaves));
    }
  }

  lemma SameSize(lengths: seq<nat>, frequencies: seq<nat>, depth: nat)
    requires CodeFor(lengths, frequencies, depth)
    ensures |lengths| == |frequencies|
  {
  }

  /** With a single symbol no code is shorter than one of one bit; with none, none takes any. */
  lemma {:induction false} FewIsShortest(lengths: seq<nat>, frequencies: seq<nat>, leaves: seq<Leaf>, depth: nat)
    requires |lengths| == |frequencies| && LeavesOf(leaves, frequencies) && |leaves| <= 1
    requires forall i :: 0 <= i < |leaves| ==> lengths[leaves[i].index] == 1
    ensures Shortest(lengths, frequencies, depth)
  {
    hide TotalBits;
    forall other | CodeFor(other, frequencies, depth)
      ensures |other| == |frequencies| && TotalBits(lengths, frequencies) <= TotalBits(other, frequencies)
    {
      LeafBits(lengths, frequencies, leaves);
      LeafBits(other, frequencies, leaves);
      LeafSpace(other, frequencies, leaves, depth);
      if |leaves| == 1 { OneSum(leaves, LeafLengths(lengths, leaves), LeafLengths(other, leaves)); }
    }
  }

  lemma OneSum(leaves: seq<Leaf>, x: seq<nat>, y: seq<nat>)
    requires |leaves| == |x| == |y| == 1 && x[0] <= y[0] && leaves[0].weight >= 0
    ensures WeightSum(leaves, x, 1) <= WeightSum(leaves, y, 1)
  {
    MulMonotoneLeft(x[0], y[0], leaves[0].weight);
  }
}
