/** The encoder's trees: symbol frequencies, code lengths, and the header that describes them. */
module DeflateTrees {
  import opened Bits
  import opened Canonical
  import opened HuffmanTable
  import opened HuffmanTree
  import opened HuffmanLengths
  import opened KraftSums
  import opened SymbolCost
  import opened InflateSpec
  import opened DeflateSpec
  import opened DynamicHeader
  import opened BitWriter

  const NUM_LITLEN_USED := 286
  const NUM_DISTANCE_USED := 30

  /** A complete code for all symbols with a frequency, over a trimmed alphabet. */
  ghost predicate TreeFor(tree: Tree, frequencies: seq<nat>, mincodes: nat, maxbitlen: nat)
  {
    && ValidTree(tree) && Decodable(tree.lengths)
    && mincodes <= |tree.lengths| <= |frequencies|
    && AtMost(tree.lengths, maxbitlen)
    && Within(frequencies, tree.lengths)
    && (forall s :: |tree.lengths| <= s < |frequencies| ==> frequencies[s] == 0)
    && (|tree.lengths| > mincodes ==> frequencies[|tree.lengths| - 1] > 0)
    && (TwoPresent(frequencies[..|tree.lengths|]) ==> ExactlyPresent(tree.lengths, frequencies[..|tree.lengths|]))
  }

  /** A shortest complete code for the symbols with a frequency, and for no others if there are two; its alphabet is cut
    after the last of them. */
  ghost predicate BestCode(lengths: seq<nat>, frequencies: seq<nat>, mincodes: nat, maxbitlen: nat)
  {
    && Decodable(lengths) && AtMost(lengths, maxbitlen)
    && mincodes <= |lengths| <= |frequencies|
    && Within(frequencies, lengths)
    && (|lengths| > mincodes ==> frequencies[|lengths| - 1] > 0)
    && (TwoPresent(frequencies[..|lengths|]) ==> ExactlyPresent(lengths, frequencies[..|lengths|]))
    && Shortest(lengths, frequencies[..|lengths|], maxbitlen)
  }

  lemma TreeIsBest(tree: Tree, frequencies: seq<nat>, mincodes: nat, maxbitlen: nat)
    requires TreeFor(tree, frequencies, mincodes, maxbitlen)
    requires Shortest(tree.lengths, frequencies[..|tree.lengths|], maxbitlen)
    ensures BestCode(tree.lengths, frequencies, mincodes, maxbitlen)
  {
    hide Shortest;
    hide ValidTree;
    hide Decodable;
    hide AtMost;
    hide Within;
  }

  method MakeFromFrequencies(frequencies: seq<nat>, mincodes: nat, maxbitlen: nat) returns (error: int, tree: Tree)
    requires 2 <= mincodes <= |frequencies| <= MAX_CODES && maxbitlen <= MAX_BITS
    ensures |frequencies| <= Pow2(maxbitlen) ==> error == 0
    ensures error == 0 ==> TreeFor(tree, frequencies, mincodes, maxbitlen)
    ensures error == 0 ==> Shortest(tree.lengths, frequencies[..|tree.lengths|], maxbitlen)
  {
    hide Shortest;
    hide KraftAt;
    hide Kraft;
    hide Pow2;
    hide ValidTree;
    var numcodes := |frequencies|;
    while frequencies[numcodes - 1] == 0 && numcodes > mincodes
      invariant mincodes <= numcodes <= |frequencies|
      invariant forall s :: numcodes <= s < |frequencies| ==> frequencies[s] == 0
    {
      numcodes := numcodes - 1;
    }
    var lengths;
    error, lengths := HuffmanLengths.HuffmanCodeLengths(frequencies[..numcodes], maxbitlen);
    tree := Tree([], [], Table([], []));
    if error == 0 {
      CompleteAcceptable(lengths, maxbitlen);
      error, tree := MakeFromLengths(lengths, maxbitlen);
      ValidTreeLengths(tree);
      assert forall s :: 0 <= s < |frequencies| && frequencies[s] > 0 ==> frequencies[..numcodes][s] > 0;
    }
  }

  lemma ValidTreeLengths(tree: Tree)
    ensures ValidTree(tree) ==> ValidLengths(tree.lengths)
  {
  }

  lemma CompleteAcceptable(lengths: seq<nat>, depth: nat)
    requires |lengths| <= MAX_CODES && depth <= MAX_BITS
    requires AtMost(lengths, depth) && KraftAt(lengths, depth) == Pow2(depth)
    ensures Decodable(lengths) && Acceptable(lengths)
  {
    hide KraftAt;
    hide Kraft;
    hide Pow2;
    KraftScale(lengths, depth);
    Pow2Add(MAX_BITS - depth, depth);
  }

  // ---- frequencies ----

  /** How often a literal or length symbol occurs among the codes. */
  function LitCount(values: seq<nat>, s: nat): nat
    requires WellFormed(values)
  {
    if values == [] then 0
    else (if values[0] == s then 1 else 0) + LitCount(if values[0] <= 255 then values[1..] else values[4..], s)
  }

  /** How often a distance symbol occurs. */
  function DistCount(values: seq<nat>, s: nat): nat
    requires WellFormed(values)
  {
    if values == [] then 0
    else if values[0] <= 255 then DistCount(values[1..], s)
    else (if values[2] == s then 1 else 0) + DistCount(values[4..], s)
  }

  /** What occurs is counted, so an alphabet with these counts codes everything. */
  lemma {:induction false} CountedCoded(ll: seq<nat>, d: seq<nat>, values: seq<nat>)
    requires WellFormed(values) && |ll| == NUM_LITLEN_USED && |d| == NUM_DISTANCE_USED
    requires forall s: nat :: s < |ll| ==> ll[s] >= LitCount(values, s)
    requires forall s: nat :: s < |d| ==> d[s] >= DistCount(values, s)
    ensures Coded(ll, d, values)
  {
    hide Lz77.PairOk;
    if values != [] {
      SymbolBounds(values);
      var rest := if values[0] <= 255 then values[1..] else values[4..];
      assert ll[values[0]] >= LitCount(values, values[0]) > 0;
      if values[0] > 255 { assert d[values[2]] >= DistCount(values, values[2]) > 0; }
      forall s: nat | s < |ll| ensures ll[s] >= LitCount(rest, s) {
        assert ll[s] >= LitCount(values, s);
      }
      forall s: nat | s < |d| ensures d[s] >= DistCount(rest, s) {
        assert d[s] >= DistCount(values, s);
      }
      CountedCoded(ll, d, rest);
    }
  }

  /** The frequencies of a block: every literal and length code, one end code; every distance code. */
  ghost function LitFrequencies(values: seq<nat>): (r: seq<nat>)
    requires WellFormed(values)
    ensures |r| == 286
  {
    seq<nat>(286, s requires 0 <= s < 286 => if s == 256 then 1 else LitCount(values, s))
  }

  ghost function DistFrequencies(values: seq<nat>): (r: seq<nat>)
    requires WellFormed(values)
    ensures |r| == 30
  {
    seq<nat>(30, s requires 0 <= s < 30 => DistCount(values, s))
  }

  /** Counts the literal/length and distance symbols, and one end code. */
  method CountFrequencies(values: seq<nat>) returns (fl: seq<nat>, fd: seq<nat>)
    requires WellFormed(values)
    ensures fl == LitFrequencies(values) && fd == DistFrequencies(values) && Coded(fl, fd, values)
  {
    hide Coded;
    hide Lz77.PairOk;
    var ll := new nat[NUM_LITLEN_USED](_ => 0);
    var d := new nat[NUM_DISTANCE_USED](_ => 0);
    var i := 0;
    assert values[0..] == values;
    while i < |values|
      invariant i <= |values| && WellFormed(values[i..])
      invariant forall s: nat :: s < ll.Length ==> ll[s] + LitCount(values[i..], s) == LitCount(values, s)
      invariant forall s: nat :: s < d.Length ==> d[s] + DistCount(values[i..], s) == DistCount(values, s)
    {
      var symbol := values[i];
      SymbolBounds(values[i..]);
      ll[symbol] := ll[symbol] + 1;
      if symbol > 256 {
        var dist := values[i + 2];
        d[dist] := d[dist] + 1;
        assert values[i..][4..] == values[i + 4..];
        i := i + 3;
      } else {
        assert values[i..][1..] == values[i + 1..];
      }
      i := i + 1;
    }
    NoEndCode(values);
    ll[256] := 1;
    fl, fd := ll[..], d[..];
    CountedCoded(fl, fd, values);
  }

  lemma {:induction false} NoEndCode(values: seq<nat>)
    requires WellFormed(values)
    ensures LitCount(values, 256) == 0
  {
    hide Lz77.PairOk;
    if values != [] {
      SymbolBounds(values);
      NoEndCode(if values[0] <= 255 then values[1..] else values[4..]);
    }
  }

  lemma SymbolBounds(values: seq<nat>)
    requires WellFormed(values) && values != []
    ensures values[0] != 256 && values[0] <= 285
    ensures values[0] > 255 ==> |values| >= 4 && values[2] <= 29 && Lz77.PairOk(values[0], values[1], values[2], values[3])
  {
    hide Pow2;
  }

  /** Code length symbols, each repeat code with a count after it. */
  ghost predicate RunsFormed(e: seq<nat>)
  {
    e != [] ==>
      if e[0] <= 15 then RunsFormed(e[1..])
      else e[0] <= 18 && |e| >= 2 && e[1] < Pow2(LengthRuns.RunExtra(e[0])) && RunsFormed(e[2..])
  }

  lemma {:induction false} ExpandFormed(e: seq<nat>, acc: seq<nat>)
    requires LengthRuns.Expand(e, acc).Some?
    ensures RunsFormed(e)
  {
    hide Pow2;
    if e == [] {
    } else if e[0] <= 15 {
      ExpandFormed(e[1..], acc + [e[0]]);
    } else {
      var x := if e[0] == 16 then acc[|acc| - 1] else 0;
      ExpandFormed(e[2..], acc + Repeat(x, LengthRuns.RunBase(e[0]) + e[1]));
    }
  }

  /** How often a code length symbol occurs; the counts after repeat codes are not symbols. */
  function RunCount(e: seq<nat>, s: nat): nat
    requires RunsFormed(e)
  {
    if e == [] then 0
    else (if e[0] == s then 1 else 0) + RunCount(if e[0] <= 15 then e[1..] else e[2..], s)
  }

  ghost function RunFrequencies(e: seq<nat>): (r: seq<nat>)
    requires RunsFormed(e)
    ensures |r| == 19
  {
    seq<nat>(19, s requires 0 <= s < 19 => RunCount(e, s))
  }

  lemma {:induction false} CountedRuns(f: seq<nat>, e: seq<nat>)
    requires RunsFormed(e) && |f| == NUM_CODE_LENGTH && forall s: nat :: s < |f| ==> f[s] >= RunCount(e, s)
    ensures RunsCoded(f, e)
  {
    hide Pow2;
    if e != [] {
      var rest := if e[0] <= 15 then e[1..] else e[2..];
      assert f[e[0]] >= RunCount(e, e[0]) > 0;
      forall s: nat | s < |f| ensures f[s] >= RunCount(rest, s) {
        assert f[s] >= RunCount(e, s);
      }
      CountedRuns(f, rest);
    }
  }

  /** Counts the code length symbols, skipping what follows a repeat code. */
  method CountRunFrequencies(e: seq<nat>, ghost acc: seq<nat>) returns (f: seq<nat>)
    requires LengthRuns.Expand(e, acc).Some?
    ensures RunsFormed(e) && f == RunFrequencies(e) && RunsCoded(f, e)
  {
    hide RunsCoded;
    hide LengthRuns.Expand;
    hide Pow2;
    ExpandFormed(e, acc);
    var a := new nat[NUM_CODE_LENGTH](_ => 0);
    var i := 0;
    assert e[0..] == e;
    while i < |e|
      invariant i <= |e| && RunsFormed(e[i..])
      invariant forall s: nat :: s < a.Length ==> a[s] + RunCount(e[i..], s) == RunCount(e, s)
    {
      var s := e[i];
      a[s] := a[s] + 1;
      if s >= 16 {
        assert e[i..][2..] == e[i + 2..];
        i := i + 1;
      } else {
        assert e[i..][1..] == e[i + 1..];
      }
      i := i + 1;
    }
    f := a[..];
    CountedRuns(f, e);
  }

  lemma {:induction false} RunsCodedWithin(a: seq<nat>, b: seq<nat>, e: seq<nat>)
    requires RunsCoded(a, e) && Within(a, b)
    ensures RunsCoded(b, e)
  {
    hide Pow2;
    if e != [] {
      if e[0] <= 15 { RunsCodedWithin(a, b, e[1..]); } else { RunsCodedWithin(a, b, e[2..]); }
    }
  }

  // ---- writing ----

  method WriteSymbol(writer: Writer, tree: Tree, s: nat)
    requires writer.Valid() && ValidTree(tree) && s < |tree.lengths| && tree.lengths[s] > 0
    modifies writer, writer.data, writer.data.data
    ensures writer.Valid() && writer.bits == old(writer.bits) + SymBits(tree.lengths, s)
    ensures writer.data.data == old(writer.data.data) || fresh(writer.data.data)
  {
    hide Writer.Valid;
    hide BitsOf;
    hide Rev;
    hide Code;
    writer.WriteBitsReversed(tree.codes[s], tree.lengths[s]);
  }

  method WritePair(writer: Writer, treeLl: Tree, treeD: Tree, v: nat, le: nat, dc: nat, de: nat)
    requires writer.Valid() && ValidTree(treeLl) && ValidTree(treeD) && Lz77.PairOk(v, le, dc, de)
    requires v < |treeLl.lengths| && treeLl.lengths[v] > 0 && dc < |treeD.lengths| && treeD.lengths[dc] > 0
    modifies writer, writer.data, writer.data.data
    ensures writer.Valid() && writer.bits == old(writer.bits) + PairBits(treeLl.lengths, treeD.lengths, v, le, dc, de)
    ensures writer.data.data == old(writer.data.data) || fresh(writer.data.data)
  {
    hide Writer.Valid;
    hide SymBits;
    hide BitsOf;
    hide ValidTree;
    assert Pow2(1) == 2;
    hide Pow2;
    WriteSymbol(writer, treeLl, v);
    writer.WriteBits(le, LENGTH_EXTRA[v - FIRST_LENGTH_CODE]);
    WriteSymbol(writer, treeD, dc);
    writer.WriteBits(de, DISTANCE_EXTRA[dc]);
  }

  /** Writes literals and pairs with the given trees. */
  method WriteLZ77data(writer: Writer, values: seq<nat>, treeLl: Tree, treeD: Tree)
    requires writer.Valid() && ValidTree(treeLl) && ValidTree(treeD)
    requires Coded(treeLl.lengths, treeD.lengths, values)
    modifies writer, writer.data, writer.data.data
    ensures writer.Valid() && writer.bits == old(writer.bits) + ValuesBits(treeLl.lengths, treeD.lengths, values)
    ensures writer.data.data == old(writer.data.data) || fresh(writer.data.data)
  {
    hide Writer.Valid;
    hide SymBits;
    hide PairBits;
    hide ValidTree;
    hide Lz77.PairOk;
    ghost var ll, d, before := treeLl.lengths, treeD.lengths, writer.bits;
    var i := 0;
    assert values[0..] == values;
    while i < |values|
      invariant i <= |values| && writer.Valid()
      invariant writer.data.data == old(writer.data.data) || fresh(writer.data.data)
      invariant Coded(ll, d, values[i..])
      invariant writer.bits + ValuesBits(ll, d, values[i..]) == before + ValuesBits(ll, d, values)
    {
      var val := values[i];
      if val > 256 {
        assert values[i..][4..] == values[i + 4..];
        WritePair(writer, treeLl, treeD, val, values[i + 1], values[i + 2], values[i + 3]);
        i := i + 3;
      } else {
        assert values[i..][1..] == values[i + 1..];
        WriteSymbol(writer, treeLl, val);
      }
      i := i + 1;
    }
  }

  method WriteRunExtra(writer: Writer, s: nat, extra: nat)
    requires writer.Valid() && 16 <= s <= 18 && extra < Pow2(LengthRuns.RunExtra(s))
    modifies writer, writer.data, writer.data.data
    ensures writer.Valid() && writer.bits == old(writer.bits) + BitsOf(extra, LengthRuns.RunExtra(s))
    ensures writer.data.data == old(writer.data.data) || fresh(writer.data.data)
  {
    hide Writer.Valid;
    hide BitsOf;
    hide Pow2;
    if s == 16 {
      writer.WriteBits(extra, 2);
    } else if s == 17 {
      writer.WriteBits(extra, 3);
    } else {
      writer.WriteBits(extra, 7);
    }
  }

  /** The next run's bits come first. */
  lemma TakeRun(cl: seq<nat>, e: seq<nat>, i: nat, x: seq<Bit>)
    requires i < |e| && RunsCoded(cl, e[i..])
    ensures e[i] < |cl| && cl[e[i]] > 0
    ensures e[i] <= 15 ==>
              && RunsCoded(cl, e[i + 1..])
              && x + RunsBits(cl, e[i..]) == (x + SymBits(cl, e[i])) + RunsBits(cl, e[i + 1..])
    ensures e[i] > 15 ==>
              && e[i] <= 18 && i + 1 < |e| && e[i + 1] < Pow2(LengthRuns.RunExtra(e[i])) && RunsCoded(cl, e[i + 2..])
              && x + RunsBits(cl, e[i..]) ==
                 ((x + SymBits(cl, e[i])) + BitsOf(e[i + 1], LengthRuns.RunExtra(e[i]))) + RunsBits(cl, e[i + 2..])
  {
    hide SymBits;
    hide BitsOf;
    hide Pow2;
    assert e[i..][0] == e[i] && e[i..][1..] == e[i + 1..];
    if e[i] <= 15 {
      ExtendMany(x, SymBits(cl, e[i]), RunsBits(cl, e[i + 1..]));
    } else {
      assert e[i..][1] == e[i + 1] && e[i..][2..] == e[i + 2..];
      var extra := BitsOf(e[i + 1], LengthRuns.RunExtra(e[i]));
      ExtendMany(x, SymBits(cl, e[i]) + extra, RunsBits(cl, e[i + 2..]));
      ExtendMany(x, SymBits(cl, e[i]), extra);
    }
  }

  /** Writes the run-length coded code lengths. */
  method WriteRuns(writer: Writer, e: seq<nat>, tree: Tree)
    requires writer.Valid() && ValidTree(tree) && RunsCoded(tree.lengths, e)
    modifies writer, writer.data, writer.data.data
    ensures writer.Valid() && writer.bits == old(writer.bits) + RunsBits(tree.lengths, e)
    ensures writer.data.data == old(writer.data.data) || fresh(writer.data.data)
  {
    hide Writer.Valid;
    hide SymBits;
    hide BitsOf;
    hide ValidTree;
    hide Pow2;
    hide RunsBits;
    ghost var cl, before := tree.lengths, writer.bits;
    var i := 0;
    assert e[0..] == e;
    while i < |e|
      invariant i <= |e| && writer.Valid()
      invariant writer.data.data == old(writer.data.data) || fresh(writer.data.data)
      invariant RunsCoded(cl, e[i..])
      invariant writer.bits + RunsBits(cl, e[i..]) == before + RunsBits(cl, e)
    {
      TakeRun(cl, e, i, writer.bits);
      WriteSymbol(writer, tree, e[i]);
      if e[i] >= 16 {
        i := i + 1;
        WriteRunExtra(writer, e[i - 1], e[i]);
      }
      i := i + 1;
    }
    NoRuns(cl, e);
  }

  lemma NoRuns(cl: seq<nat>, e: seq<nat>)
    ensures e[|e|..] == [] && RunsCoded(cl, e[|e|..]) && RunsBits(cl, e[|e|..]) == []
  {
  }

  /** The number of code length lengths to transmit: trailing zeros in the transmitted order are dropped. */
  method TrimmedCount(cl: seq<nat>) returns (n: nat)
    requires |cl| == NUM_CODE_LENGTH
    ensures Trimmed(cl, n) && (n > 4 ==> cl[CLCL_ORDER[n - 1]] != 0)
  {
    n := NUM_CODE_LENGTH;
    while n > 4 && cl[CLCL_ORDER[n - 1]] == 0
      invariant Trimmed(cl, n)
    {
      n := n - 1;
    }
  }

  method WriteCounts(writer: Writer, ll: nat, d: nat, n: nat)
    requires writer.Valid() && 257 <= ll <= 286 && 1 <= d <= 30 && 4 <= n <= NUM_CODE_LENGTH
    modifies writer, writer.data, writer.data.data
    ensures writer.Valid()
    ensures writer.bits == old(writer.bits) + (BitsOf(ll - 257, 5) + (BitsOf(d - 1, 5) + BitsOf(n - 4, 4)))
    ensures writer.data.data == old(writer.data.data) || fresh(writer.data.data)
  {
    hide Writer.Valid;
    hide BitsOf;
    Pow2Small();
    hide Pow2;
    writer.WriteBits(ll - 257, 5);
    writer.WriteBits(d - 1, 5);
    writer.WriteBits(n - 4, 4);
  }

  method WriteClLengths(writer: Writer, cl: seq<nat>, n: nat)
    requires writer.Valid() && |cl| == NUM_CODE_LENGTH && n <= NUM_CODE_LENGTH
    requires forall s :: 0 <= s < |cl| ==> cl[s] <= 7
    modifies writer, writer.data, writer.data.data
    ensures writer.Valid() && writer.bits == old(writer.bits) + ClBits(cl, n)
    ensures writer.data.data == old(writer.data.data) || fresh(writer.data.data)
  {
    hide Writer.Valid;
    hide BitsOf;
    Pow2Small();
    hide Pow2;
    ghost var before := writer.bits;
    for i := 0 to n
      invariant writer.Valid() && writer.bits == before + ClBits(cl, i)
      invariant writer.data.data == old(writer.data.data) || fresh(writer.data.data)
    {
      writer.WriteBits(cl[CLCL_ORDER[i]], 3);
    }
  }

  /** Writes the three alphabet sizes, the code length code and the run-length coded lengths. */
  method WriteHeader(writer: Writer, ll: seq<nat>, d: seq<nat>, e: seq<nat>, n: nat, treeCl: Tree)
    requires writer.Valid() && ValidTree(treeCl) && HeaderOk(ll, d, treeCl.lengths, n, e)
    modifies writer, writer.data, writer.data.data
    ensures writer.Valid() && writer.bits == old(writer.bits) + HeaderBits(ll, d, treeCl.lengths, n, e)
    ensures writer.data.data == old(writer.data.data) || fresh(writer.data.data)
  {
    hide Writer.Valid;
    hide BitsOf;
    hide ClBits;
    hide ValidTree;
    hide Decodable;
    hide RunsCoded;
    hide RunsBits;
    hide LengthRuns.Expand;
    WriteCounts(writer, |ll|, |d|, n);
    WriteClLengths(writer, treeCl.lengths, n);
    WriteRuns(writer, e, treeCl);
  }
}
