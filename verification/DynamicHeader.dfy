/** The header of a dynamic block as the encoder writes it, and that the reference decoder reads it back. */
module DynamicHeader {
  import opened Bits
  import opened Canonical
  import opened HuffmanTree
  import opened InflateSpec
  import opened InflateTrees
  import opened DeflateSpec
  import opened LengthRuns

  // ---- the run-length coded lengths ----

  /** Every symbol of a run-length coding has a code. */
  ghost predicate RunsCoded(cl: seq<nat>, e: seq<nat>)
  {
    e != [] ==>
      && e[0] < |cl| && cl[e[0]] > 0
      && if e[0] <= 15 then RunsCoded(cl, e[1..])
         else e[0] <= 18 && |e| >= 2 && e[1] < Pow2(RunExtra(e[0])) && RunsCoded(cl, e[2..])
  }

  ghost function RunsBits(cl: seq<nat>, e: seq<nat>): seq<Bit>
    requires RunsCoded(cl, e)
  {
    if e == [] then []
    else if e[0] <= 15 then SymBits(cl, e[0]) + RunsBits(cl, e[1..])
    else (SymBits(cl, e[0]) + BitsOf(e[1], RunExtra(e[0]))) + RunsBits(cl, e[2..])
  }

  lemma {:induction false} ExpandGrows(e: seq<nat>, acc: seq<nat>)
    requires LengthRuns.Expand(e, acc).Some?
    ensures |LengthRuns.Expand(e, acc).value| >= |acc| + if e == [] then 0 else 1
  {
    hide Pow2;
    if e == [] {
    } else if e[0] <= 15 {
      ExpandGrows(e[1..], acc + [e[0]]);
    } else {
      var x := if e[0] == 16 then acc[|acc| - 1] else 0;
      ExpandGrows(e[2..], acc + Repeat(x, RunBase(e[0]) + e[1]));
    }
  }

  /** The reference decoder undoes the run-length coding. */
  lemma {:induction false} RunsDecode(cl: seq<nat>, e: seq<nat>, bits: seq<Bit>, pos: nat, total: nat, acc: seq<nat>)
    requires Decodable(cl) && RunsCoded(cl, e)
    requires LengthRuns.Expand(e, acc).Some? && |LengthRuns.Expand(e, acc).value| == total
    requires At(bits, pos, RunsBits(cl, e)) && |acc| <= total
    ensures CodeLengths(cl, bits, pos, total, acc)
         == Some((pos + |RunsBits(cl, e)|, LengthRuns.Expand(e, acc).value))
  {
    hide SymBits;
    hide BitsOf;
    hide Pow2;
    hide Peek;
    hide CodeLengths;
    hide NextSymbol;
    hide Decodable;
    ExpandGrows(e, acc);
    if e == [] {
      CodeLengthsDone(cl, bits, pos, total, acc);
    } else if e[0] <= 15 {
      CodeLengthsUnfold(cl, bits, pos, total, acc);
      AtConcat(bits, pos, SymBits(cl, e[0]), RunsBits(cl, e[1..]));
      SymbolAt(cl, e[0], bits, pos);
      ExpandGrows(e[1..], acc + [e[0]]);
      RunsDecode(cl, e[1..], bits, pos + cl[e[0]], total, acc + [e[0]]);
    } else {
      var x := if e[0] == 16 then acc[|acc| - 1] else 0;
      var head, extra := SymBits(cl, e[0]), BitsOf(e[1], RunExtra(e[0]));
      var next := acc + Repeat(x, RunBase(e[0]) + e[1]);
      CodeLengthsUnfold(cl, bits, pos, total, acc);
      AtConcat(bits, pos, head + extra, RunsBits(cl, e[2..]));
      AtConcat(bits, pos, head, extra);
      SymbolAt(cl, e[0], bits, pos);
      PeekAt(bits, pos + cl[e[0]], e[1], RunExtra(e[0]));
      ExpandGrows(e[2..], next);
      RunsDecode(cl, e[2..], bits, pos + |head + extra|, total, next);
    }
  }

  // ---- the code length code ----

  /** The first n lengths of the code length alphabet, three bits each. */
  function ClBits(cl: seq<nat>, n: nat): (r: seq<Bit>)
    requires |cl| == NUM_CODE_LENGTH && n <= NUM_CODE_LENGTH
    ensures |r| == 3 * n
  {
    if n == 0 then [] else ClBits(cl, n - 1) + BitsOf(cl[CLCL_ORDER[n - 1]], 3)
  }

  lemma {:induction false} ClBitsAt(cl: seq<nat>, bits: seq<Bit>, pos: nat, n: nat, k: nat)
    requires |cl| == NUM_CODE_LENGTH && k < n <= NUM_CODE_LENGTH
    requires forall s :: 0 <= s < |cl| ==> cl[s] <= 7
    requires At(bits, pos, ClBits(cl, n))
    ensures Peek(bits, pos + 3 * k, 3) == cl[CLCL_ORDER[k]]
  {
    hide BitsOf;
    hide Peek;
    var last := cl[CLCL_ORDER[n - 1]];
    AtConcat(bits, pos, ClBits(cl, n - 1), BitsOf(last, 3));
    if k == n - 1 {
      Pow2Small();
      PeekAt(bits, pos + 3 * k, last, 3);
    } else {
      ClBitsAt(cl, bits, pos, n - 1, k);
    }
  }

  /** Untransmitted lengths are zero. */
  ghost predicate Trimmed(cl: seq<nat>, n: nat)
    requires |cl| == NUM_CODE_LENGTH
  {
    4 <= n <= NUM_CODE_LENGTH && forall k :: n <= k < NUM_CODE_LENGTH ==> cl[CLCL_ORDER[k]] == 0
  }

  lemma ClDecode(cl: seq<nat>, bits: seq<Bit>, pos: nat, n: nat)
    requires |cl| == NUM_CODE_LENGTH && Trimmed(cl, n)
    requires forall s :: 0 <= s < |cl| ==> cl[s] <= 7
    requires At(bits, pos, ClBits(cl, n))
    ensures ClLengths(bits, pos, n) == cl
  {
    hide ClBits;
    hide Peek;
    hide ClLengths;
    forall k | 0 <= k < NUM_CODE_LENGTH ensures cl[CLCL_ORDER[k]] == Field(bits, pos, n, 3 * k) {
      if k < n { ClBitsAt(cl, bits, pos, n, k); }
    }
    ClLengthsAre(bits, pos, n, cl);
  }

  // ---- the whole header ----

  /** The alphabets the encoder may use, with what it transmits for them. */
  ghost predicate HeaderOk(ll: seq<nat>, d: seq<nat>, cl: seq<nat>, n: nat, e: seq<nat>)
  {
    && 257 <= |ll| <= 286 && 1 <= |d| <= 30 && ll[256] > 0
    && Decodable(ll) && Decodable(d)
    && |cl| == NUM_CODE_LENGTH && Decodable(cl) && (forall s :: 0 <= s < |cl| ==> cl[s] <= 7)
    && Trimmed(cl, n) && RunsCoded(cl, e) && LengthRuns.Expand(e, []) == Some(ll + d)
  }

  ghost function CountsBits(ll: seq<nat>, d: seq<nat>, n: nat): seq<Bit>
    requires 257 <= |ll| && 1 <= |d| && 4 <= n
  {
    BitsOf(|ll| - 257, 5) + (BitsOf(|d| - 1, 5) + BitsOf(n - 4, 4))
  }

  ghost function HeaderBits(ll: seq<nat>, d: seq<nat>, cl: seq<nat>, n: nat, e: seq<nat>): (r: seq<Bit>)
    requires HeaderOk(ll, d, cl, n, e)
    ensures |r| == 14 + 3 * n + |RunsBits(cl, e)|
  {
    CountsBits(ll, d, n) + (ClBits(cl, n) + RunsBits(cl, e))
  }

  lemma CountsDecode(ll: seq<nat>, d: seq<nat>, n: nat, bits: seq<Bit>, pos: nat)
    requires 257 <= |ll| <= 286 && 1 <= |d| <= 30 && 4 <= n <= NUM_CODE_LENGTH
    requires At(bits, pos, CountsBits(ll, d, n))
    ensures Peek(bits, pos, 5) == |ll| - 257 && Peek(bits, pos + 5, 5) == |d| - 1 && Peek(bits, pos + 10, 4) == n - 4
  {
    hide BitsOf;
    hide Peek;
    Pow2Small();
    AtConcat(bits, pos, BitsOf(|ll| - 257, 5), BitsOf(|d| - 1, 5) + BitsOf(n - 4, 4));
    AtConcat(bits, pos + 5, BitsOf(|d| - 1, 5), BitsOf(n - 4, 4));
    PeekAt(bits, pos, |ll| - 257, 5);
    PeekAt(bits, pos + 5, |d| - 1, 5);
    PeekAt(bits, pos + 10, n - 4, 4);
  }

  /** An alphabet as the decoder sees it: padded with absent symbols. */
  function Padded(lengths: seq<nat>, size: nat): (r: seq<nat>)
    requires |lengths| <= size
    ensures |r| == size
  {
    lengths + Zeros(size - |lengths|)
  }

  lemma PaddedAcceptable(lengths: seq<nat>, size: nat)
    requires Decodable(lengths) && |lengths| <= size <= 288
    ensures Decodable(Padded(lengths, size)) && Acceptable(Padded(lengths, size))
  {
    hide Kraft;
    KraftZeros(lengths, size - |lengths|);
  }

  /** The reference decoder reads back the trees of the header. */
  lemma HeaderDecode(ll: seq<nat>, d: seq<nat>, cl: seq<nat>, n: nat, e: seq<nat>, bits: seq<Bit>, pos: nat)
    requires HeaderOk(ll, d, cl, n, e) && At(bits, pos, HeaderBits(ll, d, cl, n, e))
    ensures DynamicTrees(bits, pos)
         == Some(Trees(pos + |HeaderBits(ll, d, cl, n, e)|, Padded(ll, NUM_LITLEN), Padded(d, NUM_DISTANCE)))
  {
    hide CountsBits;
    hide ClBits;
    hide RunsBits;
    hide RunsCoded;
    hide Peek;
    hide ClLengths;
    hide CodeLengths;
    hide LengthRuns.Expand;
    hide Kraft;
    var counts, lens, runs := CountsBits(ll, d, n), ClBits(cl, n), RunsBits(cl, e);
    AtConcat(bits, pos, counts, lens + runs);
    AtConcat(bits, pos + 14, lens, runs);
    CountsDecode(ll, d, n, bits, pos);
    ClDecode(cl, bits, pos + 14, n);
    RunsDecode(cl, e, bits, pos + 14 + 3 * n, |ll + d|, []);
    PaddedAcceptable(ll, NUM_LITLEN);
    PaddedAcceptable(d, NUM_DISTANCE);
    assert (ll + d)[..|ll|] == ll && (ll + d)[|ll|..] == d;
  }
}
