/** The bottom-up stable merge sort of the leaves. */
module LeafSort {
  import opened Bits
  import opened PackageMerge

  predicate Sorted(s: seq<Leaf>)
  {
    forall i, j :: 0 <= i < j < |s| ==> s[i].weight <= s[j].weight
  }

  /** The leaves of one weight, in order. */
  function OfWeight(s: seq<Leaf>, w: int): seq<Leaf>
  {
    if s == [] then [] else (if s[0].weight == w then [s[0]] else []) + OfWeight(s[1..], w)
  }

  /** Leaves of equal weight are in the same order. */
  ghost predicate SameOrder(x: seq<Leaf>, y: seq<Leaf>)
  {
    forall w :: OfWeight(x, w) == OfWeight(y, w)
  }

  lemma OfWeightHead(s: seq<Leaf>, w: int)
    requires s != []
    ensures OfWeight(s, w) == (if s[0].weight == w then [s[0]] else []) + OfWeight(s[1..], w)
  {
  }

  lemma {:induction false} OfWeightConcat(x: seq<Leaf>, y: seq<Leaf>, w: int)
    ensures OfWeight(x + y, w) == OfWeight(x, w) + OfWeight(y, w)
  {
    if x == [] {
      assert x + y == y;
    } else {
      assert (x + y)[0] == x[0] && (x + y)[1..] == x[1..] + y;
      OfWeightHead(x + y, w);
      OfWeightHead(x, w);
      hide OfWeight;
      OfWeightConcat(x[1..], y, w);
      ExtendMany(if x[0].weight == w then [x[0]] else [], OfWeight(x[1..], w), OfWeight(y, w));
    }
  }

  lemma {:induction false} OfWeightNone(s: seq<Leaf>, w: int)
    requires forall i :: 0 <= i < |s| ==> s[i].weight != w
    ensures OfWeight(s, w) == []
  {
    if s != [] { OfWeightNone(s[1..], w); }
  }

  // ---- merging ----

  function Merge(x: seq<Leaf>, y: seq<Leaf>): (r: seq<Leaf>)
    ensures |r| == |x| + |y|
  {
    if x == [] then y
    else if y == [] then x
    else if x[0].weight <= y[0].weight then [x[0]] + Merge(x[1..], y)
    else [y[0]] + Merge(x, y[1..])
  }

  lemma HeadFirst(s: seq<Leaf>)
    requires s != []
    ensures multiset(s) == multiset{s[0]} + multiset(s[1..])
  {
    assert s == [s[0]] + s[1..];
  }

  lemma {:induction false} MergePermutes(x: seq<Leaf>, y: seq<Leaf>)
    ensures multiset(Merge(x, y)) == multiset(x) + multiset(y)
  {
    if x != [] && y != [] {
      if x[0].weight <= y[0].weight {
        MergePermutes(x[1..], y);
        HeadFirst(x);
        HeadFirst(Merge(x, y));
      } else {
        MergePermutes(x, y[1..]);
        HeadFirst(y);
        HeadFirst(Merge(x, y));
      }
    }
  }

  lemma {:induction false} MergeFrom(x: seq<Leaf>, y: seq<Leaf>, k: nat)
    requires k < |x| + |y|
    ensures Merge(x, y)[k] in x || Merge(x, y)[k] in y
  {
    if x != [] && y != [] && k > 0 {
      if x[0].weight <= y[0].weight {
        MergeFrom(x[1..], y, k - 1);
      } else {
        MergeFrom(x, y[1..], k - 1);
      }
    }
  }

  lemma {:induction false} MergeSorted(x: seq<Leaf>, y: seq<Leaf>)
    requires Sorted(x) && Sorted(y)
    ensures Sorted(Merge(x, y))
  {
    if x != [] && y != [] {
      var left := x[0].weight <= y[0].weight;
      var first := if left then x[0] else y[0];
      var x', y' := if left then x[1..] else x, if left then y else y[1..];
      MergeSorted(x', y');
      var m := Merge(x', y');
      forall k | 0 <= k < |m| ensures first.weight <= m[k].weight {
        MergeFrom(x', y', k);
      }
      assert Merge(x, y) == [first] + m;
    }
  }

  /** Merging is stable: of equal weights, those of the left run come first. */
  lemma {:induction false} MergeStable(x: seq<Leaf>, y: seq<Leaf>, w: int)
    requires Sorted(x)
    ensures OfWeight(Merge(x, y), w) == OfWeight(x, w) + OfWeight(y, w)
  {
    if x != [] && y != [] {
      OfWeightHead(Merge(x, y), w);
      if x[0].weight <= y[0].weight {
        MergeStable(x[1..], y, w);
        OfWeightHead(x, w);
        assert Merge(x, y)[1..] == Merge(x[1..], y);
      } else {
        MergeStable(x, y[1..], w);
        OfWeightHead(y, w);
        assert Merge(x, y)[1..] == Merge(x, y[1..]);
        if y[0].weight == w { OfWeightNone(x, w); }
      }
      hide OfWeight;
      hide Merge;
    }
  }

  // ---- one pass over the whole sequence ----

  function Pass(s: seq<Leaf>, width: nat): (r: seq<Leaf>)
    requires width > 0
    ensures |r| == |s|
  {
    if s == [] then []
    else
      var q, r := Min(width, |s|), Min(2 * width, |s|);
      Merge(s[..q], s[q..r]) + Pass(s[r..], width)
  }

  /** Sorted runs of the given width. */
  predicate Runs(s: seq<Leaf>, width: nat)
    requires width > 0
  {
    s != [] ==>
      var q := Min(width, |s|);
      Sorted(s[..q]) && Runs(s[q..], width)
  }

  lemma {:induction false} PassPermutes(s: seq<Leaf>, width: nat)
    requires width > 0
    ensures multiset(Pass(s, width)) == multiset(s)
  {
    hide Merge;
    if s != [] {
      var q, r := Min(width, |s|), Min(2 * width, |s|);
      var x, y, z := s[..q], s[q..r], s[r..];
      MergePermutes(x, y);
      PassPermutes(z, width);
      PassHead(s, width);
      hide Pass;
      SplitThree(s, q, r);
      ConcatPermutes(x, y, z, Merge(x, y), Pass(z, width));
    }
  }

  lemma SplitThree(s: seq<Leaf>, q: nat, r: nat)
    requires q <= r <= |s|
    ensures s == s[..q] + (s[q..r] + s[r..])
  {
    var t := s[..q] + (s[q..r] + s[r..]);
    assert |t| == |s|;
    assert forall k :: 0 <= k < |s| ==> t[k] == s[k];
  }

  lemma ConcatPermutes(x: seq<Leaf>, y: seq<Leaf>, z: seq<Leaf>, m: seq<Leaf>, n: seq<Leaf>)
    requires multiset(m) == multiset(x) + multiset(y) && multiset(n) == multiset(z)
    ensures multiset(m + n) == multiset(x + (y + z))
  {
  }

  lemma InMultiset(x: seq<Leaf>, y: seq<Leaf>)
    requires multiset(x) == multiset(y)
    ensures forall k :: 0 <= k < |x| ==> x[k] in y
  {
    forall k | 0 <= k < |x| ensures x[k] in y {
      assert x[k] in multiset(x);
    }
  }

  /** A pass doubles the width of the runs. */
  lemma {:induction false} PassRuns(s: seq<Leaf>, width: nat)
    requires width > 0 && Runs(s, width)
    ensures Runs(Pass(s, width), 2 * width)
  {
    hide Merge;
    if s != [] {
      var q, r := Min(width, |s|), Min(2 * width, |s|);
      var x, y, z := s[..q], s[q..r], s[r..];
      TwoRuns(s, width);
      MergeSorted(x, y);
      PassRuns(z, width);
      PassHead(s, width);
      hide Pass;
      RunsJoin(Merge(x, y), Pass(z, width), 2 * width);
    }
  }

  lemma RunsJoin(m: seq<Leaf>, n: seq<Leaf>, width: nat)
    requires width > 0 && Sorted(m) && Runs(n, width) && m != [] && |m| <= width && (n != [] ==> |m| == width)
    ensures Runs(m + n, width)
  {
    assert (m + n)[..|m|] == m && (m + n)[|m|..] == n;
  }

  lemma TwoRuns(s: seq<Leaf>, width: nat)
    requires width > 0 && Runs(s, width) && s != []
    ensures var q, r := Min(width, |s|), Min(2 * width, |s|);
            Sorted(s[..q]) && Sorted(s[q..r]) && Runs(s[r..], width)
  {
    hide Runs;
    hide Sorted;
    var q, r := Min(width, |s|), Min(2 * width, |s|);
    RunsHead(s, width);
    RunsHead(s[q..], width);
    ThreeParts(s, 0, q, r);
    assert s[0..] == s && s[q..][..r - q] == s[q..r] && s[q..][r - q..] == s[r..];
  }

  lemma RunsHead(s: seq<Leaf>, width: nat)
    requires width > 0
    ensures Runs(s, width) <==>
              var q := Min(width, |s|);
              Sorted(s[..q]) && Runs(s[q..], width)
  {
    if s == [] { assert s[Min(width, |s|)..] == []; }
  }

  /** A pass over sorted runs keeps the order of equal weights. */
  lemma {:induction false} PassStable(s: seq<Leaf>, width: nat, w: int)
    requires width > 0 && Runs(s, width)
    ensures OfWeight(Pass(s, width), w) == OfWeight(s, w)
  {
    hide Merge;
    if s != [] {
      var q, r := Min(width, |s|), Min(2 * width, |s|);
      var x, y, z := s[..q], s[q..r], s[r..];
      TwoRuns(s, width);
      PassHead(s, width);
      hide Pass;
      hide Runs;
      hide OfWeight;
      PassStable(z, width, w);
      MergeStable(x, y, w);
      hide Sorted;
      SplitThree(s, q, r);
      StableJoin(x, y, z, Merge(x, y), Pass(z, width), w);
    }
  }

  lemma StableJoin(x: seq<Leaf>, y: seq<Leaf>, z: seq<Leaf>, m: seq<Leaf>, n: seq<Leaf>, w: int)
    requires OfWeight(m, w) == OfWeight(x, w) + OfWeight(y, w) && OfWeight(n, w) == OfWeight(z, w)
    ensures OfWeight(m + n, w) == OfWeight(x + (y + z), w)
  {
    hide OfWeight;
    OfWeightConcat(x, y + z, w);
    OfWeightConcat(y, z, w);
    OfWeightConcat(m, n, w);
    ExtendMany(OfWeight(x, w), OfWeight(y, w), OfWeight(z, w));
  }

  lemma PassKeepsOrder(s: seq<Leaf>, width: nat)
    requires width > 0 && Runs(s, width)
    ensures SameOrder(Pass(s, width), s)
  {
    forall w ensures OfWeight(Pass(s, width), w) == OfWeight(s, w) {
      PassStable(s, width, w);
    }
  }

  lemma {:induction false} RunsOfOne(s: seq<Leaf>)
    ensures Runs(s, 1)
  {
    if s != [] { RunsOfOne(s[1..]); }
  }

  lemma OneRun(s: seq<Leaf>, width: nat)
    requires width > 0 && width >= |s| && Runs(s, width)
    ensures Sorted(s)
  {
    if s != [] { assert s[..|s|] == s; }
  }

  // ---- the sort ----

  /** Merges a[p..q] and a[q..r] into b[p..r]. */
  method MergeRuns(a: array<Leaf>, b: array<Leaf>, p: nat, q: nat, r: nat)
    requires a != b && a.Length == b.Length && p <= q <= r <= a.Length
    modifies b
    ensures b[p..r] == Merge(a[p..q], a[q..r])
    ensures b[..p] == old(b[..p])
  {
    hide Merge;
    var i, j := p, q;
    for k := p to r
      invariant p <= i <= q <= j <= r && k - p == (i - p) + (j - q)
      invariant b[p..k] + Merge(a[i..q], a[j..r]) == Merge(a[p..q], a[q..r])
      invariant b[..p] == old(b[..p])
    {
      ghost var done, x, y := b[p..k], a[i..q], a[j..r];
      MergeHead(x, y);
      if i < q && (j >= r || a[i].weight <= a[j].weight) {
        b[k] := a[i];
        i := i + 1;
        assert x[1..] == a[i..q];
      } else {
        b[k] := a[j];
        j := j + 1;
        assert y[1..] == a[j..r];
      }
      assert b[p..k + 1] == done + [b[k]];
      Extend(done, b[k], Merge(a[i..q], a[j..r]));
    }
    MergeNothing();
  }

  lemma Extend(done: seq<Leaf>, e: Leaf, rest: seq<Leaf>)
    ensures (done + [e]) + rest == done + ([e] + rest)
  {
  }

  lemma MergeNothing()
    ensures Merge([], []) == []
  {
  }

  lemma MergeHead(x: seq<Leaf>, y: seq<Leaf>)
    requires x != [] || y != []
    ensures if x != [] && (y == [] || x[0].weight <= y[0].weight)
            then Merge(x, y) == [x[0]] + Merge(x[1..], y)
            else Merge(x, y) == [y[0]] + Merge(x, y[1..])
  {
  }

  method MergePass(a: array<Leaf>, b: array<Leaf>, width: nat)
    requires a != b && a.Length == b.Length && width > 0
    modifies b
    ensures b[..] == Pass(a[..], width)
  {
    hide Merge;
    hide Pass;
    var num := a.Length;
    var p := 0;
    ghost var t := a[..];
    assert t[0..] == t;
    while p < num
      invariant 0 <= p <= num
      invariant b[..p] + Pass(t[p..], width) == Pass(t, width)
    {
      var q := if p + width > num then num else p + width;
      var r := if p + 2 * width > num then num else p + 2 * width;
      ghost var done := b[..p];
      MergeRuns(a, b, p, q, r);
      PassAt(t, p, q, r, width);
      assert b[p..r] == Merge(t[p..q], t[q..r]);
      assert b[..r] == done + b[p..r];
      ExtendMany(done, b[p..r], Pass(t[r..], width));
      p := r;
    }
    PassDone(t, width);
    assert b[..num] == b[..];
  }

  lemma PassDone(t: seq<Leaf>, width: nat)
    requires width > 0
    ensures Pass(t[|t|..], width) == []
  {
  }

  /** The pair of runs at p. */
  lemma PassAt(t: seq<Leaf>, p: nat, q: nat, r: nat, width: nat)
    requires width > 0 && p < |t| && q == Min(p + width, |t|) && r == Min(p + 2 * width, |t|)
    ensures Pass(t[p..], width) == Merge(t[p..q], t[q..r]) + Pass(t[r..], width)
  {
    hide Merge;
    hide Pass;
    ThreeParts(t, p, q, r);
    PassHead(t[p..], width);
  }

  lemma ThreeParts(a: seq<Leaf>, p: nat, q: nat, r: nat)
    requires p <= q <= r <= |a|
    ensures a[p..][..q - p] == a[p..q] && a[p..][q - p..r - p] == a[q..r] && a[p..][r - p..] == a[r..]
  {
    var s := a[p..|a|];
    SliceOfSlice(a, p, |a| - p, 0, q - p);
    SliceOfSlice(a, p, |a| - p, q - p, r - q);
    SliceOfSlice(a, p, |a| - p, r - p, |a| - r);
    assert s == a[p..] && s[0..q - p] == s[..q - p] && s[r - p..|a| - p] == s[r - p..] && a[r..|a|] == a[r..];
  }

  lemma PassHead(s: seq<Leaf>, width: nat)
    requires width > 0
    ensures Pass(s, width) ==
            if s == [] then []
            else Merge(s[..Min(width, |s|)], s[Min(width, |s|)..Min(2 * width, |s|)])
                 + Pass(s[Min(2 * width, |s|)..], width)
  {
  }

  /** What every pass keeps of the leaves that came in. */
  ghost predicate Rearranged(now: seq<Leaf>, before: seq<Leaf>)
  {
    multiset(now) == multiset(before) && SameOrder(now, before)
  }

  lemma PassRearranges(s: seq<Leaf>, before: seq<Leaf>, width: nat)
    requires width > 0 && Runs(s, width) && Rearranged(s, before)
    ensures Rearranged(Pass(s, width), before) && Runs(Pass(s, width), 2 * width)
  {
    PassRuns(s, width);
    PassPermutes(s, width);
    PassKeepsOrder(s, width);
  }

  /** Sorts by weight, keeping the order of equal weights. */
  method Sort(leaves: array<Leaf>)
    modifies leaves
    ensures Sorted(leaves[..])
    ensures multiset(leaves[..]) == multiset(old(leaves[..])) && SameOrder(leaves[..], old(leaves[..]))
  {
    hide Runs;
    hide Pass;
    hide Rearranged;
    var num := leaves.Length;
    ghost var before := leaves[..];
    var mem := new Leaf[num](_ => Leaf(0, 0));
    var width, counter := 1, 0;
    Start(before);
    while width < num
      invariant width > 0
      invariant counter % 2 == 0 ==> Runs(leaves[..], width) && Rearranged(leaves[..], before)
      invariant counter % 2 == 1 ==> Runs(mem[..], width) && Rearranged(mem[..], before)
      decreases num - width
    {
      var a := if counter % 2 == 1 then mem else leaves;
      var b := if counter % 2 == 1 then leaves else mem;
      PassRearranges(a[..], before, width);
      MergePass(a, b, width);
      counter := counter + 1;
      width := width * 2;
    }
    if counter % 2 == 1 {
      ghost var sorted := mem[..];
      forall i | 0 <= i < num { leaves[i] := mem[i]; }
      assert leaves[..] == sorted;
    }
    Finish(leaves[..], before, width);
  }

  lemma Start(before: seq<Leaf>)
    ensures Runs(before, 1) && Rearranged(before, before)
  {
    RunsOfOne(before);
  }

  lemma Finish(now: seq<Leaf>, before: seq<Leaf>, width: nat)
    requires width > 0 && width >= |now| && Runs(now, width) && Rearranged(now, before)
    ensures Sorted(now) && multiset(now) == multiset(before) && SameOrder(now, before)
  {
    OneRun(now, width);
  }
}
