/** The size of a block's data, and that no other pair of codes makes it smaller than the codes chosen. */
module DataCost {
  import opened Bits
  import opened KraftSums
  import opened InflateSpec
  import opened DeflateSpec
  import opened DeflateTrees
  import opened DeflateBlocks
  import opened SymbolCost
  import Lz77

  /** The extra bits of all pairs. */
  ghost function ExtraBits(values: seq<nat>): nat
    requires WellFormed(values)
  {
    if values == [] then 0
    else if values[0] <= 255 then ExtraBits(values[1..])
    else LengthExtra(values[0]) + DistanceExtra(values[2]) + ExtraBits(values[4..])
  }

  ghost function LitCounts(values: seq<nat>, n: nat): (r: seq<nat>)
    requires WellFormed(values)
    ensures |r| == n
  {
    seq<nat>(n, s requires 0 <= s < n => LitCount(values, s))
  }

  ghost function DistCounts(values: seq<nat>, n: nat): (r: seq<nat>)
    requires WellFormed(values)
    ensures |r| == n
  {
    seq<nat>(n, s requires 0 <= s < n => DistCount(values, s))
  }

  /** One more symbol takes as many bits as its code has. */
  lemma {:induction false} OneMore(lengths: seq<nat>, f: seq<nat>, s: nat)
    requires s < |lengths| == |f|
    ensures TotalBits(lengths, f[s := f[s] + 1]) == TotalBits(lengths, f) + lengths[s]
  {
    var n := |lengths| - 1;
    var g := f[s := f[s] + 1];
    if s < n {
      OneMore(lengths[..n], f[..n], s);
      assert g[..n] == f[..n][s := f[..n][s] + 1];
    } else {
      assert g[..n] == f[..n];
    }
  }

  lemma {:induction false} NoSymbols(lengths: seq<nat>, f: seq<nat>)
    requires |lengths| == |f| && forall s :: 0 <= s < |f| ==> f[s] == 0
    ensures TotalBits(lengths, f) == 0
  {
    if lengths != [] { NoSymbols(lengths[..|lengths| - 1], f[..|f| - 1]); }
  }

  /** Symbols that do not occur may be cut off. */
  lemma {:induction false} CutBits(lengths: seq<nat>, f: seq<nat>, n: nat)
    requires n <= |lengths| == |f| && forall s :: n <= s < |f| ==> f[s] == 0
    ensures TotalBits(lengths, f) == TotalBits(lengths[..n], f[..n])
  {
    if n < |f| {
      var m := |f| - 1;
      CutBits(lengths[..m], f[..m], n);
      assert lengths[..m][..n] == lengths[..n] && f[..m][..n] == f[..n];
    } else {
      assert lengths[..n] == lengths && f[..n] == f;
    }
  }

  lemma {:induction false} CutKraft(lengths: seq<nat>, depth: nat, n: nat)
    requires n <= |lengths| && AtMost(lengths, depth)
    ensures AtMost(lengths[..n], depth) && KraftAt(lengths[..n], depth) <= KraftAt(lengths, depth)
  {
    if n < |lengths| {
      var m := |lengths| - 1;
      CutKraft(lengths[..m], depth, n);
      assert lengths[..m][..n] == lengths[..n];
    } else {
      assert lengths[..n] == lengths;
    }
  }

  /** The bits of the values, by symbols. */
  lemma {:induction false} ValuesSize(ll: seq<nat>, d: seq<nat>, values: seq<nat>)
    requires WellFormed(values) && Coded(ll, d, values)
    ensures |ValuesBits(ll, d, values)|
         == TotalBits(ll, LitCounts(values, |ll|)) + TotalBits(d, DistCounts(values, |d|)) + ExtraBits(values)
  {
    hide TotalBits;
    hide SymBits;
    hide BitsOf;
    hide Lz77.PairOk;
    hide LengthExtra;
    hide DistanceExtra;
    var f, g := LitCounts(values, |ll|), DistCounts(values, |d|);
    if values == [] {
      NoSymbols(ll, f);
      NoSymbols(d, g);
    } else {
      SymbolBounds(values);
      var v := values[0];
      var rest := if v <= 255 then values[1..] else values[4..];
      var f1, g1 := LitCounts(rest, |ll|), DistCounts(rest, |d|);
      ValuesSize(ll, d, rest);
      assert f == f1[v := f1[v] + 1];
      OneMore(ll, f1, v);
      if v <= 255 {
        assert g == g1;
      } else {
        assert g == g1[values[2] := g1[values[2]] + 1];
        OneMore(d, g1, values[2]);
      }
    }
  }

  /** The data of a block, with its end code. */
  lemma DataSize(ll: seq<nat>, d: seq<nat>, values: seq<nat>)
    requires WellFormed(values) && Coded(ll, d, values) && 257 <= |ll| <= 286 && |d| <= 30
    ensures |DataBits(ll, d, values)|
         == TotalBits(ll, LitFrequencies(values)[..|ll|]) + TotalBits(d, DistFrequencies(values)[..|d|]) + ExtraBits(values)
  {
    hide TotalBits;
    hide SymBits;
    hide ValuesBits;
    ValuesSize(ll, d, values);
    NoEndCode(values);
    var f := LitCounts(values, |ll|);
    OneMore(ll, f, 256);
    assert LitFrequencies(values)[..|ll|] == f[256 := f[256] + 1];
    assert DistFrequencies(values)[..|d|] == DistCounts(values, |d|);
    SymBitsSize(ll, 256);
  }

  lemma SymBitsSize(lengths: seq<nat>, s: nat)
    requires s < |lengths|
    ensures |SymBits(lengths, s)| == lengths[s]
  {
  }

  /** What occurs has a code. */
  lemma {:induction false} CodedHas(ll: seq<nat>, d: seq<nat>, values: seq<nat>)
    requires WellFormed(values) && Coded(ll, d, values)
    ensures forall s: nat :: LitCount(values, s) > 0 ==> s < |ll| && ll[s] > 0
    ensures forall s: nat :: DistCount(values, s) > 0 ==> s < |d| && d[s] > 0
  {
    hide Lz77.PairOk;
    if values != [] {
      SymbolBounds(values);
      var rest := if values[0] <= 255 then values[1..] else values[4..];
      CodedHas(ll, d, rest);
      forall s: nat | LitCount(values, s) > 0 ensures s < |ll| && ll[s] > 0 {
        assert values[0] == s || LitCount(rest, s) > 0;
      }
      forall s: nat | DistCount(values, s) > 0 ensures s < |d| && d[s] > 0 {
        assert (values[0] > 255 && values[2] == s) || DistCount(rest, s) > 0;
      }
    }
  }

  /** Any code for all symbols that occur takes at least as many bits as the best one. */
  lemma BestBits(lengths: seq<nat>, f: seq<nat>, mincodes: nat, depth: nat, other: seq<nat>)
    requires BestCode(lengths, f, mincodes, depth) && |other| == |f|
    requires AtMost(other, depth) && KraftAt(other, depth) <= Pow2(depth)
    requires forall s :: 0 <= s < |f| && f[s] > 0 ==> other[s] > 0
    ensures TotalBits(lengths, f[..|lengths|]) <= TotalBits(other, f)
  {
    hide TotalBits;
    hide KraftAt;
    hide Pow2;
    hide Decodable;
    var n := |lengths|;
    CutBits(other, f, n);
    CutKraft(other, depth, n);
    assert CodeFor(other[..n], f[..n], depth);
  }

  /** No other codes of at most 15 bits, over the whole alphabets, make the data of a block shorter. */
  lemma LeastData(ll: seq<nat>, d: seq<nat>, values: seq<nat>, ll1: seq<nat>, d1: seq<nat>)
    requires WellFormed(values) && Coded(ll, d, values) && Coded(ll1, d1, values)
    requires BestCode(ll, LitFrequencies(values), 257, 15) && BestCode(d, DistFrequencies(values), 2, 15)
    requires |ll1| == 286 && |d1| == 30 && ll1[256] > 0
    requires AtMost(ll1, 15) && KraftAt(ll1, 15) <= Pow2(15) && AtMost(d1, 15) && KraftAt(d1, 15) <= Pow2(15)
    ensures |DataBits(ll, d, values)| <= |DataBits(ll1, d1, values)|
  {
    hide TotalBits;
    hide DataBits;
    hide KraftAt;
    hide Pow2;
    hide Coded;
    BestSizes(ll, LitFrequencies(values), 257);
    BestSizes(d, DistFrequencies(values), 2);
    DataSize(ll, d, values);
    DataSize(ll1, d1, values);
    CodedHas(ll1, d1, values);
    hide BestCode;
    assert LitFrequencies(values)[..286] == LitFrequencies(values);
    assert DistFrequencies(values)[..30] == DistFrequencies(values);
    BestBits(ll, LitFrequencies(values), 257, 15, ll1);
    BestBits(d, DistFrequencies(values), 2, 15, d1);
  }

  lemma BestSizes(lengths: seq<nat>, f: seq<nat>, mincodes: nat)
    requires BestCode(lengths, f, mincodes, 15)
    ensures mincodes <= |lengths| <= |f|
  {
    hide SymbolCost.Shortest;
    hide Decodable;
  }
}
