/** The geometry of the two-level decoding table and what its entries mean.

  A table has 512 head entries indexed by the next nine bits.  Where codes longer
  than nine bits share a head index i, the head holds the longest such length
  (`maxlens[i]`) and the start of a secondary table indexed by the bits after the
  ninth.  `Cell` is the entry that finally answers for a bit pattern. */
module HuffmanTable {
  import opened Bits
  import opened Canonical

  const FIRST_BITS := 9
  const HEAD_SIZE := 512
  const MAX_CODES := 288
  const UNUSED := 16
  const INVALID_SYMBOL := 65535

  /** What is stored for a symbol: its code as the reader sees it, LSB first. */
  function Pattern(codes: seq<nat>, lengths: seq<nat>, s: nat): nat
    requires |codes| == |lengths| && s < |lengths|
  {
    Rev(codes[s], lengths[s])
  }

  /** The bit pattern v begins with the stored code of s. */
  predicate Hits(codes: seq<nat>, lengths: seq<nat>, s: nat, v: nat)
    requires |codes| == |lengths| && s < |lengths|
  {
    lengths[s] > 0 && Low(v, lengths[s]) == Pattern(codes, lengths, s)
  }

  /** The codes as the source stores them: masked to their length. */
  ghost predicate Masked(codes: seq<nat>, lengths: seq<nat>)
  {
    && |codes| == |lengths| <= MAX_CODES
    && ValidLengths(lengths)
    && forall s :: 0 <= s < |lengths| && lengths[s] > 0 ==> codes[s] == Low(Code(lengths, s), lengths[s])
  }

  lemma MaskedBound(codes: seq<nat>, lengths: seq<nat>, s: nat)
    requires Masked(codes, lengths) && s < |lengths| && lengths[s] > 0
    ensures codes[s] < Pow2(lengths[s])
    ensures Pattern(codes, lengths, s) < Pow2(lengths[s])
    ensures Rev(Pattern(codes, lengths, s), lengths[s]) == codes[s]
  {
    LowBound(Code(lengths, s), lengths[s]);
    RevBound(codes[s], lengths[s]);
    RevInvolution(codes[s], lengths[s]);
  }

  /** A stored code is hit by its own pattern. */
  lemma HitsOwn(codes: seq<nat>, lengths: seq<nat>, s: nat)
    requires Masked(codes, lengths) && s < |lengths| && lengths[s] > 0
    ensures Hits(codes, lengths, s, Pattern(codes, lengths, s))
  {
    hide Pattern;
    hide Low;
    MaskedBound(codes, lengths, s);
    LowSmall(Pattern(codes, lengths, s), lengths[s]);
  }

  /** Unless the code is oversubscribed, a hit is a match of the canonical code. */
  lemma HitsMatches(codes: seq<nat>, lengths: seq<nat>, s: nat, v: nat)
    requires Masked(codes, lengths) && s < |lengths| && Kraft(lengths) <= Pow2(MAX_BITS)
    ensures Hits(codes, lengths, s, v) <==> Matches(lengths, s, v)
  {
    hide Rev;
    hide Low;
    hide Code;
    hide Kraft;
    hide Pow2;
    if lengths[s] > 0 {
      var l := lengths[s];
      CodeFits(lengths, s);
      LowSmall(Code(lengths, s), l);
      MaskedBound(codes, lengths, s);
      RevLow(v, l);
      LowBound(v, l);
      if Rev(v, l) == codes[s] {
        RevInjective(Low(v, l), Pattern(codes, lengths, s), l);
      }
    }
  }

  lemma HitsUnique(codes: seq<nat>, lengths: seq<nat>, s: nat, t: nat, v: nat)
    requires Masked(codes, lengths) && s < |lengths| && t < |lengths| && Kraft(lengths) <= Pow2(MAX_BITS)
    requires Hits(codes, lengths, s, v) && Hits(codes, lengths, t, v)
    ensures s == t
  {
    hide Hits;
    hide Matches;
    HitsMatches(codes, lengths, s, v);
    HitsMatches(codes, lengths, t, v);
    PrefixFree(lengths, s, t, v);
  }

  // ---- geometry ----

  /** Where the secondary table of head i starts. */
  function SubStart(maxlens: seq<nat>, i: nat): (r: nat)
    requires i <= |maxlens|
    ensures r >= HEAD_SIZE
  {
    if i == 0 then HEAD_SIZE
    else SubStart(maxlens, i - 1) + if maxlens[i - 1] > FIRST_BITS then Pow2(maxlens[i - 1] - FIRST_BITS) else 0
  }

  /** Longest lengths per head: absent, or longer than nine bits. */
  predicate Heads(maxlens: seq<nat>)
  {
    && |maxlens| == HEAD_SIZE
    && forall i :: 0 <= i < HEAD_SIZE ==> maxlens[i] == 0 || FIRST_BITS < maxlens[i] <= MAX_BITS
  }

  function TableSize(maxlens: seq<nat>): nat
    requires Heads(maxlens)
  {
    SubStart(maxlens, HEAD_SIZE)
  }

  lemma HeadIndex(v: nat)
    ensures Low(v, FIRST_BITS) < HEAD_SIZE
  {
    LowBound(v, FIRST_BITS);
    Pow2Small();
  }

  function Head(v: nat): (r: nat)
    ensures r < HEAD_SIZE
  {
    HeadIndex(v);
    Low(v, FIRST_BITS)
  }

  /** The entry that answers for the bit pattern v. */
  function Cell(maxlens: seq<nat>, v: nat): nat
    requires Heads(maxlens)
  {
    var i := Head(v);
    if maxlens[i] <= FIRST_BITS then i
    else SubStart(maxlens, i) + Low(Shr(v, FIRST_BITS), maxlens[i] - FIRST_BITS)
  }

  lemma {:induction false} SubStartMonotone(maxlens: seq<nat>, i: nat, j: nat)
    requires i <= j <= |maxlens|
    ensures SubStart(maxlens, i) <= SubStart(maxlens, j)
    ensures i < j && maxlens[i] > FIRST_BITS ==>
              SubStart(maxlens, i) + Pow2(maxlens[i] - FIRST_BITS) <= SubStart(maxlens, j)
    decreases j
  {
    hide Pow2;
    if i < j { SubStartMonotone(maxlens, i, j - 1); }
  }

  lemma CellRange(maxlens: seq<nat>, v: nat)
    requires Heads(maxlens)
    ensures Cell(maxlens, v) < TableSize(maxlens)
    ensures var i := Head(v);
            maxlens[i] > FIRST_BITS ==>
              SubStart(maxlens, i) <= Cell(maxlens, v) < SubStart(maxlens, i) + Pow2(maxlens[i] - FIRST_BITS)
  {
    hide SubStart;
    hide Low;
    var i := Head(v);
    SubStartMonotone(maxlens, 0, HEAD_SIZE);
    if maxlens[i] > FIRST_BITS {
      LowBound(Shr(v, FIRST_BITS), maxlens[i] - FIRST_BITS);
      SubStartMonotone(maxlens, i, HEAD_SIZE);
    }
  }

  /** Secondary tables do not overlap. */
  lemma CellHead(maxlens: seq<nat>, v: nat, i: nat, e: nat)
    requires Heads(maxlens) && i < HEAD_SIZE && maxlens[i] > FIRST_BITS
    requires e < Pow2(maxlens[i] - FIRST_BITS)
    requires Cell(maxlens, v) == SubStart(maxlens, i) + e
    ensures Head(v) == i && Low(Shr(v, FIRST_BITS), maxlens[i] - FIRST_BITS) == e
  {
    hide SubStart;
    hide Pow2;
    hide Low;
    hide Shr;
    var h := Head(v);
    CellRange(maxlens, v);
    if h < i && maxlens[h] > FIRST_BITS { SubStartMonotone(maxlens, h, i); }
    if h > i { SubStartMonotone(maxlens, i, h); }
  }

  /** Every entry except the pointers of the head answers for some pattern. */
  lemma {:induction false} CellOnto(maxlens: seq<nat>, e: nat) returns (v: nat)
    requires Heads(maxlens) && e < TableSize(maxlens)
    requires e < HEAD_SIZE ==> maxlens[e] <= FIRST_BITS
    ensures Cell(maxlens, v) == e
  {
    hide Pow2;
    hide Low;
    hide Shr;
    if e < HEAD_SIZE {
      v := e;
      Pow2Small();
      LowSmall(e, FIRST_BITS);
      assert Head(v) == e;
    } else {
      var i := FindHead(maxlens, e, HEAD_SIZE);
      var d := e - SubStart(maxlens, i);
      v := i + Pow2(FIRST_BITS) * d;
      Pow2Small();
      SplitUnique(i, d, FIRST_BITS);
      assert Head(v) == i && Shr(v, FIRST_BITS) == d;
      hide Head;
      hide SubStart;
      LowSmall(d, maxlens[i] - FIRST_BITS);
    }
  }

  lemma {:induction false} FindHead(maxlens: seq<nat>, e: nat, n: nat) returns (i: nat)
    requires Heads(maxlens) && n <= HEAD_SIZE && HEAD_SIZE <= e < SubStart(maxlens, n)
    ensures i < n && maxlens[i] > FIRST_BITS
    ensures SubStart(maxlens, i) <= e < SubStart(maxlens, i) + Pow2(maxlens[i] - FIRST_BITS)
  {
    hide Pow2;
    if e < SubStart(maxlens, n - 1) {
      i := FindHead(maxlens, e, n - 1);
    } else {
      i := n - 1;
    }
  }

  /** Start pointers and cells fit the source's 16-bit table values. */
  lemma {:induction false} SubStartSmall(maxlens: seq<nat>, i: nat)
    requires Heads(maxlens) && i <= HEAD_SIZE
    ensures SubStart(maxlens, i) <= HEAD_SIZE + 64 * i
  {
    if i > 0 {
      SubStartSmall(maxlens, i - 1);
      if maxlens[i - 1] > FIRST_BITS {
        Pow2Monotone(maxlens[i - 1] - FIRST_BITS, 6);
        Pow2Small();
      }
    }
  }

  // ---- the head of a long code ----

  /** The head index of a code longer than nine bits, as the source computes it. */
  lemma HeadOfCode(code: nat, l: nat)
    requires FIRST_BITS < l && code < Pow2(l)
    ensures Rev(Shr(code, l - FIRST_BITS), FIRST_BITS) == Low(Rev(code, l), FIRST_BITS)
  {
    hide Rev;
    hide Shr;
    hide Low;
    hide Pow2;
    var p := Rev(code, l);
    RevInvolution(code, l);
    RevPrefix(p, l, FIRST_BITS);
    RevLow(p, FIRST_BITS);
    LowBound(p, FIRST_BITS);
    RevInvolution(Low(p, FIRST_BITS), FIRST_BITS);
  }

  /** maxlens holds, per head, the longest of the first n codes that are longer than nine bits. */
  ghost predicate MaxLens(codes: seq<nat>, lengths: seq<nat>, maxlens: seq<nat>, n: nat)
    requires |codes| == |lengths| && n <= |lengths|
  {
    && Heads(maxlens)
    && (forall s :: 0 <= s < n && lengths[s] > FIRST_BITS ==>
          maxlens[Head(Pattern(codes, lengths, s))] >= lengths[s])
    && (forall i :: 0 <= i < HEAD_SIZE && maxlens[i] > 0 ==>
          exists s :: 0 <= s < n && lengths[s] == maxlens[i] && Head(Pattern(codes, lengths, s)) == i)
  }

  /** A pattern hit by a long code has that code's head. */
  lemma LongHit(codes: seq<nat>, lengths: seq<nat>, s: nat, v: nat)
    requires |codes| == |lengths| && s < |lengths| && lengths[s] > FIRST_BITS
    ensures Hits(codes, lengths, s, v) <==>
              (Head(v) == Head(Pattern(codes, lengths, s))
               && Low(Shr(v, FIRST_BITS), lengths[s] - FIRST_BITS) == Shr(Pattern(codes, lengths, s), FIRST_BITS)
               && Pattern(codes, lengths, s) < Pow2(lengths[s]))
  {
    hide Pattern;
    hide Low;
    hide Shr;
    hide Pow2;
    var l, p := lengths[s], Pattern(codes, lengths, s);
    LowLow(v, FIRST_BITS, l);
    ShrLow(v, FIRST_BITS, l);
    LowBound(v, l);
    LowShr(Low(v, l), FIRST_BITS);
    LowShr(p, FIRST_BITS);
  }

  lemma LongHitHead(codes: seq<nat>, lengths: seq<nat>, maxlens: seq<nat>, n: nat, s: nat, v: nat)
    requires |codes| == |lengths| && n <= |lengths| && MaxLens(codes, lengths, maxlens, n)
    requires s < n && lengths[s] > FIRST_BITS && Hits(codes, lengths, s, v)
    ensures maxlens[Head(v)] >= lengths[s]
  {
    hide Pattern;
    hide Head;
    LongHit(codes, lengths, s, v);
  }

  /** For a short code the first nine bits decide. */
  lemma ShortHit(codes: seq<nat>, lengths: seq<nat>, s: nat, v: nat)
    requires |codes| == |lengths| && s < |lengths| && lengths[s] <= FIRST_BITS
    ensures Hits(codes, lengths, s, v) <==> Hits(codes, lengths, s, Head(v))
  {
    hide Pattern;
    hide Low;
    LowLow(v, lengths[s], FIRST_BITS);
    LowLow(Head(v), lengths[s], FIRST_BITS);
  }

  // ---- what the entries mean after the first n symbols ----

  /** Table entries, as two parallel sequences. */
  datatype Table = Table(len: seq<nat>, value: seq<nat>)

  ghost predicate Pointers(maxlens: seq<nat>, t: Table)
    requires Heads(maxlens)
  {
    && |t.len| == |t.value| == TableSize(maxlens)
    && TableSize(maxlens) >= HEAD_SIZE
    && forall i :: 0 <= i < HEAD_SIZE && maxlens[i] > FIRST_BITS ==>
         t.len[i] == maxlens[i] && t.value[i] == SubStart(maxlens, i)
  }

  /** A used entry names a processed symbol that the pattern begins with. */
  ghost predicate Sound(codes: seq<nat>, lengths: seq<nat>, maxlens: seq<nat>, n: nat, t: Table)
    requires |codes| == |lengths| && n <= |lengths| && Heads(maxlens)
    requires |t.len| == |t.value| == TableSize(maxlens)
  {
    forall v: nat ::
      var c := Cell(maxlens, v);
      c < TableSize(maxlens) &&
      (t.len[c] != UNUSED ==>
         t.value[c] < n && Hits(codes, lengths, t.value[c], v) && t.len[c] == lengths[t.value[c]])
  }

  /** Every processed symbol of at most nine bits owns its head entries. */
  ghost predicate ShortOwned(codes: seq<nat>, lengths: seq<nat>, n: nat, t: Table)
    requires |codes| == |lengths| && n <= |lengths|
    requires |t.len| == |t.value| >= HEAD_SIZE
  {
    forall s, v: nat {:trigger Hits(codes, lengths, s, v)} ::
      0 <= s < n && lengths[s] <= FIRST_BITS && Hits(codes, lengths, s, v) ==>
        t.len[Head(v)] == lengths[s] && t.value[Head(v)] == s
  }

  /** Every processed longer symbol owns its cells, unless the code is oversubscribed. */
  ghost predicate LongOwned(codes: seq<nat>, lengths: seq<nat>, maxlens: seq<nat>, n: nat, t: Table)
    requires |codes| == |lengths| && n <= |lengths| && Heads(maxlens) && ValidLengths(lengths)
    requires |t.len| == |t.value| == TableSize(maxlens)
  {
    Kraft(lengths) <= Pow2(MAX_BITS) ==>
      forall s, v: nat {:trigger Hits(codes, lengths, s, v)} ::
        0 <= s < n && lengths[s] > FIRST_BITS && Hits(codes, lengths, s, v) ==>
          Cell(maxlens, v) < TableSize(maxlens) &&
          t.len[Cell(maxlens, v)] == lengths[s] && t.value[Cell(maxlens, v)] == s
  }

  ghost predicate Filled(codes: seq<nat>, lengths: seq<nat>, maxlens: seq<nat>, n: nat, t: Table)
  {
    && |codes| == |lengths| && ValidLengths(lengths) && n <= |lengths| && Heads(maxlens)
    && |t.len| == |t.value| == TableSize(maxlens) && TableSize(maxlens) >= HEAD_SIZE
    && Masked(codes, lengths)
    && MaxLens(codes, lengths, maxlens, |lengths|)
    && Pointers(maxlens, t)
    && Sound(codes, lengths, maxlens, n, t)
    && ShortOwned(codes, lengths, n, t)
    && LongOwned(codes, lengths, maxlens, n, t)
  }

  // ---- one short symbol ----

  /** t1 is t0 with the head entries of the short symbol s filled in, all of them unused before. */
  ghost predicate ShortWrite(codes: seq<nat>, lengths: seq<nat>, s: nat, t0: Table, t1: Table)
    requires |codes| == |lengths| && s < |lengths|
  {
    && |t0.len| == |t0.value| == |t1.len| == |t1.value| >= HEAD_SIZE
    && (forall i :: HEAD_SIZE <= i < |t0.len| ==> t1.len[i] == t0.len[i] && t1.value[i] == t0.value[i])
    && (forall i :: 0 <= i < HEAD_SIZE && Hits(codes, lengths, s, i) ==>
          t0.len[i] == UNUSED && t1.len[i] == lengths[s] && t1.value[i] == s)
    && (forall i :: 0 <= i < HEAD_SIZE && !Hits(codes, lengths, s, i) ==>
          t1.len[i] == t0.len[i] && t1.value[i] == t0.value[i])
  }

  lemma ShortSound(codes: seq<nat>, lengths: seq<nat>, maxlens: seq<nat>, s: nat, t0: Table, t1: Table)
    requires s < |lengths| && Filled(codes, lengths, maxlens, s, t0) && 0 < lengths[s] <= FIRST_BITS
    requires ShortWrite(codes, lengths, s, t0, t1)
    ensures Pointers(maxlens, t1) && Sound(codes, lengths, maxlens, s + 1, t1)
  {
    hide Hits;
    hide Masked;
    hide MaxLens;
    hide Low;
    hide Shr;
    hide SubStart;
    hide Pow2;
    forall v: nat
      ensures var c := Cell(maxlens, v);
              c < TableSize(maxlens) &&
              (t1.len[c] != UNUSED ==>
                 t1.value[c] < s + 1 && Hits(codes, lengths, t1.value[c], v) && t1.len[c] == lengths[t1.value[c]])
    {
      CellRange(maxlens, v);
      ShortHit(codes, lengths, s, v);
    }
  }

  lemma ShortOwns(codes: seq<nat>, lengths: seq<nat>, maxlens: seq<nat>, s: nat, t0: Table, t1: Table)
    requires s < |lengths| && Filled(codes, lengths, maxlens, s, t0) && 0 < lengths[s] <= FIRST_BITS
    requires ShortWrite(codes, lengths, s, t0, t1)
    ensures ShortOwned(codes, lengths, s + 1, t1)
    ensures LongOwned(codes, lengths, maxlens, s + 1, t1)
  {
    hide Hits;
    hide Masked;
    hide MaxLens;
    hide Low;
    hide Shr;
    hide SubStart;
    hide Pow2;
    hide Kraft;
    hide Sound;
    forall u, v: nat | 0 <= u < s + 1 && lengths[u] <= FIRST_BITS && Hits(codes, lengths, u, v)
      ensures t1.len[Head(v)] == lengths[u] && t1.value[Head(v)] == u
    {
      ShortHit(codes, lengths, s, v);
      if u < s { assert t0.len[Head(v)] == lengths[u] != UNUSED; }
    }
    forall u, v: nat | 0 <= u < s + 1 && lengths[u] > FIRST_BITS && Hits(codes, lengths, u, v)
                       && Kraft(lengths) <= Pow2(MAX_BITS)
      ensures Cell(maxlens, v) < TableSize(maxlens)
      ensures t1.len[Cell(maxlens, v)] == lengths[u] && t1.value[Cell(maxlens, v)] == u
    {
      CellRange(maxlens, v);
      LongHitHead(codes, lengths, maxlens, |lengths|, u, v);
    }
  }

  // ---- one long symbol ----

  /** t1 is t0 with the secondary entries of the long symbol s filled in. */
  ghost predicate LongWrite(codes: seq<nat>, lengths: seq<nat>, maxlens: seq<nat>, s: nat, t0: Table, t1: Table)
    requires |codes| == |lengths| && s < |lengths| && lengths[s] > FIRST_BITS && Heads(maxlens)
  {
    var p := Pattern(codes, lengths, s);
    var i := Head(p);
    && |t0.len| == |t0.value| == |t1.len| == |t1.value|
    && (forall k :: 0 <= k < |t0.len| ==>
          if i < HEAD_SIZE && SubStart(maxlens, i) <= k < SubStart(maxlens, i) + Pow2(Max(maxlens[i] - FIRST_BITS, 0))
             && Low(k - SubStart(maxlens, i), lengths[s] - FIRST_BITS) == Shr(p, FIRST_BITS)
          then t1.len[k] == lengths[s] && t1.value[k] == s
          else t1.len[k] == t0.len[k] && t1.value[k] == t0.value[k])
  }

  /** The cells a long symbol writes are exactly those of the patterns it matches. */
  lemma LongCells(codes: seq<nat>, lengths: seq<nat>, maxlens: seq<nat>, s: nat, v: nat, t0: Table, t1: Table)
    requires s < |lengths| == |codes| && Masked(codes, lengths) && MaxLens(codes, lengths, maxlens, |lengths|)
    requires lengths[s] > FIRST_BITS && LongWrite(codes, lengths, maxlens, s, t0, t1)
    requires |t0.len| == TableSize(maxlens)
    ensures Cell(maxlens, v) < TableSize(maxlens)
    ensures Hits(codes, lengths, s, v) ==>
              t1.len[Cell(maxlens, v)] == lengths[s] && t1.value[Cell(maxlens, v)] == s
    ensures !Hits(codes, lengths, s, v) ==>
              t1.len[Cell(maxlens, v)] == t0.len[Cell(maxlens, v)]
              && t1.value[Cell(maxlens, v)] == t0.value[Cell(maxlens, v)]
  {
    hide Hits;
    hide Low;
    hide Shr;
    hide SubStart;
    hide Pow2;
    hide Pattern;
    hide Masked;
    var p := Pattern(codes, lengths, s);
    var i, c := Head(p), Cell(maxlens, v);
    var l := lengths[s];
    assert maxlens[i] >= l;
    CellRange(maxlens, v);
    SubStartMonotone(maxlens, 0, HEAD_SIZE);
    LongHit(codes, lengths, s, v);
    MaskedBound(codes, lengths, s);
    if Hits(codes, lengths, s, v) {
      LowLow(Shr(v, FIRST_BITS), l - FIRST_BITS, maxlens[i] - FIRST_BITS);
    } else if SubStart(maxlens, i) <= c < SubStart(maxlens, i) + Pow2(maxlens[i] - FIRST_BITS) {
      var e := c - SubStart(maxlens, i);
      CellHead(maxlens, v, i, e);
      LowLow(Shr(v, FIRST_BITS), l - FIRST_BITS, maxlens[i] - FIRST_BITS);
    }
  }

  lemma LongSound(codes: seq<nat>, lengths: seq<nat>, maxlens: seq<nat>, s: nat, t0: Table, t1: Table)
    requires s < |lengths| && Filled(codes, lengths, maxlens, s, t0) && lengths[s] > FIRST_BITS
    requires LongWrite(codes, lengths, maxlens, s, t0, t1) && |t1.len| == |t1.value| == |t0.len|
    ensures Sound(codes, lengths, maxlens, s + 1, t1)
  {
    hide Hits;
    hide Masked;
    hide MaxLens;
    hide LongWrite;
    hide Cell;
    hide SubStart;
    hide ShortOwned;
    hide LongOwned;
    hide Pointers;
    forall v: nat
      ensures var c := Cell(maxlens, v);
              c < TableSize(maxlens) &&
              (t1.len[c] != UNUSED ==>
                 t1.value[c] < s + 1 && Hits(codes, lengths, t1.value[c], v) && t1.len[c] == lengths[t1.value[c]])
    {
      LongCells(codes, lengths, maxlens, s, v, t0, t1);
    }
  }

  lemma LongOwns(codes: seq<nat>, lengths: seq<nat>, maxlens: seq<nat>, s: nat, t0: Table, t1: Table)
    requires s < |lengths| && Filled(codes, lengths, maxlens, s, t0) && lengths[s] > FIRST_BITS
    requires LongWrite(codes, lengths, maxlens, s, t0, t1)
    ensures LongOwned(codes, lengths, maxlens, s + 1, t1)
  {
    hide Hits;
    hide Masked;
    hide MaxLens;
    hide Cell;
    hide SubStart;
    hide Kraft;
    hide ShortOwned;
    hide Sound;
    hide Pointers;
    if Kraft(lengths) <= Pow2(MAX_BITS) {
      forall u, v: nat | 0 <= u < s + 1 && lengths[u] > FIRST_BITS && Hits(codes, lengths, u, v)
        ensures Cell(maxlens, v) < TableSize(maxlens)
        ensures t1.len[Cell(maxlens, v)] == lengths[u] && t1.value[Cell(maxlens, v)] == u
      {
        LongCells(codes, lengths, maxlens, s, v, t0, t1);
        if Hits(codes, lengths, s, v) { HitsUnique(codes, lengths, u, s, v); }
      }
    }
  }

  lemma LongKeepsHeads(codes: seq<nat>, lengths: seq<nat>, maxlens: seq<nat>, s: nat, t0: Table, t1: Table)
    requires s < |lengths| && Filled(codes, lengths, maxlens, s, t0) && lengths[s] > FIRST_BITS
    requires LongWrite(codes, lengths, maxlens, s, t0, t1)
    ensures Pointers(maxlens, t1) && ShortOwned(codes, lengths, s + 1, t1)
  {
    hide Hits;
    hide Masked;
    hide MaxLens;
    hide Cell;
    hide SubStart;
    hide Kraft;
    hide LongOwned;
    hide Sound;
    hide Low;
    LongHeads(codes, lengths, maxlens, s, t0, t1);
  }

  lemma LongHeads(codes: seq<nat>, lengths: seq<nat>, maxlens: seq<nat>, s: nat, t0: Table, t1: Table)
    requires s < |lengths| && |codes| == |lengths| && Heads(maxlens) && lengths[s] > FIRST_BITS
    requires LongWrite(codes, lengths, maxlens, s, t0, t1)
    requires |t0.len| >= HEAD_SIZE
    ensures forall k :: 0 <= k < HEAD_SIZE ==> t1.len[k] == t0.len[k] && t1.value[k] == t0.value[k]
  {
    hide Low;
    hide Shr;
    hide Pow2;
    hide Pattern;
  }

  // ---- collisions and completeness ----

  /** A used entry where a short symbol wants to write means that the code is oversubscribed. */
  lemma Collision(codes: seq<nat>, lengths: seq<nat>, maxlens: seq<nat>, s: nat, t: Table, i: nat)
    requires s < |lengths| && Filled(codes, lengths, maxlens, s, t) && 0 < lengths[s] <= FIRST_BITS
    requires i < HEAD_SIZE && Hits(codes, lengths, s, i) && t.len[i] != UNUSED
    ensures Kraft(lengths) > Pow2(MAX_BITS)
  {
    hide Low;
    hide Shr;
    hide SubStart;
    hide Kraft;
    hide Pattern;
    hide Masked;
    hide Hits;
    Pow2Small();
    LowSmall(i, FIRST_BITS);
    if Kraft(lengths) <= Pow2(MAX_BITS) {
      if maxlens[i] > 0 {
        var u :| 0 <= u < |lengths| && lengths[u] == maxlens[i] && Head(Pattern(codes, lengths, u)) == i;
        HitsOwn(codes, lengths, u);
        ShortHit(codes, lengths, s, Pattern(codes, lengths, u));
        HitsUnique(codes, lengths, s, u, Pattern(codes, lengths, u));
      } else {
        assert Cell(maxlens, i) == i;
        HitsUnique(codes, lengths, s, t.value[i], i);
      }
    }
  }

  lemma {:induction false} KraftLong(lengths: seq<nat>)
    requires ValidLengths(lengths)
    requires forall i :: 0 <= i < |lengths| ==> lengths[i] == 0 || lengths[i] > FIRST_BITS
    ensures Kraft(lengths) <= 32 * |lengths|
  {
    if lengths != [] {
      var last := lengths[|lengths| - 1];
      KraftLong(lengths[..|lengths| - 1]);
      Pow2Small();
      if last > 0 { Pow2Monotone(MAX_BITS - last, 5); }
    }
  }

  /** The symbol with the all-zero code, which is the shortest of all. */
  lemma FirstSymbol(lengths: seq<nat>) returns (s: nat)
    requires ValidLengths(lengths) && Kraft(lengths) > 0
    ensures s < |lengths| && lengths[s] > 0 && Code(lengths, s) == 0
    ensures forall t :: 0 <= t < |lengths| ==> lengths[t] == 0 || lengths[t] >= lengths[s]
  {
    hide Code;
    hide Below;
    hide Weight;
    BelowAll(lengths);
    s := Tiling(lengths, MAX_BITS, 0);
    WeightPositive(lengths[s]);
    var c, w := Code(lengths, s), Weight(lengths[s]);
    if c > 0 { MulStrict(w, 0, c); }
    forall t | 0 <= t < |lengths|
      ensures lengths[t] == 0 || lengths[t] >= lengths[s]
    {
      if 0 < lengths[t] < lengths[s] {
        IntervalsOrdered(lengths, t, s);
        WeightPositive(lengths[t]);
      }
    }
  }

  lemma WeightPositive(l: nat)
    requires l <= MAX_BITS
    ensures Weight(l) > 0
  {
  }

  /** In an oversubscribed code some other symbol's masked code is all zeros too. */
  lemma WrappedSymbol(codes: seq<nat>, lengths: seq<nat>, first: nat) returns (t: nat)
    requires Masked(codes, lengths) && Kraft(lengths) > Pow2(MAX_BITS)
    requires first < |lengths| && lengths[first] > 0 && Code(lengths, first) == 0
    ensures t < |lengths| && t != first && lengths[t] > 0 && codes[t] == 0
  {
    hide Code;
    hide Below;
    hide Kraft;
    hide Pow2;
    hide Low;
    BelowAll(lengths);
    t := Tiling(lengths, MAX_BITS, Pow2(MAX_BITS));
    var l, c := lengths[t], Code(lengths, t);
    Pow2Add(l, MAX_BITS - l);
    if c < Pow2(l) { MulStrict(Weight(l), c, Pow2(l)); }
    if c > Pow2(l) { MulStrict(Weight(l), Pow2(l), c); }
    assert c == Pow2(l);
    SplitUnique(0, 1, l);
    assert 0 + Pow2(l) * 1 == c;
  }

  lemma {:induction false} RevZero(n: nat)
    ensures Rev(0, n) == 0 && Low(0, n) == 0
  {
    if n > 0 { RevZero(n - 1); }
  }

  /** An oversubscribed code stores the all-zero pattern twice, once for a short symbol. */
  lemma ZeroTwice(codes: seq<nat>, lengths: seq<nat>) returns (s: nat, t: nat)
    requires Masked(codes, lengths) && Kraft(lengths) > Pow2(MAX_BITS)
    ensures s < |lengths| && t < |lengths| && s != t && lengths[s] <= FIRST_BITS
    ensures Hits(codes, lengths, s, 0) && Hits(codes, lengths, t, 0)
  {
    hide Kraft;
    hide Code;
    hide Low;
    hide Rev;
    hide Pow2;
    s := FirstSymbol(lengths);
    if lengths[s] > FIRST_BITS {
      KraftLong(lengths);
      Pow2Small();
    }
    t := WrappedSymbol(codes, lengths, s);
    RevZero(lengths[s]);
    RevZero(lengths[t]);
  }

  /** An oversubscribed code cannot be filled in without a collision. */
  lemma Oversubscribed(codes: seq<nat>, lengths: seq<nat>, maxlens: seq<nat>, t: Table)
    requires Filled(codes, lengths, maxlens, |lengths|, t)
    ensures Kraft(lengths) <= Pow2(MAX_BITS)
  {
    hide Kraft;
    hide Hits;
    hide Masked;
    hide Pattern;
    hide Low;
    hide SubStart;
    hide Sound;
    hide LongOwned;
    hide Pow2;
    hide MaxLens;
    if Kraft(lengths) > Pow2(MAX_BITS) {
      var first, u := ZeroTwice(codes, lengths);
      if lengths[u] > FIRST_BITS {
        LongHitHead(codes, lengths, maxlens, |lengths|, u, 0);
      }
    }
  }

  /** With a Kraft sum of exactly 1 no entry stays unused; with less, one does. */
  lemma AllUsed(codes: seq<nat>, lengths: seq<nat>, maxlens: seq<nat>, t: Table)
    requires Filled(codes, lengths, maxlens, |lengths|, t)
    requires Kraft(lengths) <= Pow2(MAX_BITS)
    ensures UNUSED !in t.len <==> Kraft(lengths) == Pow2(MAX_BITS)
  {
    hide Kraft;
    hide Code;
    hide Low;
    hide Rev;
    hide Shr;
    hide SubStart;
    hide Hits;
    hide Matches;
    hide Masked;
    hide Pow2;
    if Kraft(lengths) == Pow2(MAX_BITS) {
      forall e | 0 <= e < |t.len| ensures t.len[e] != UNUSED {
        if e >= HEAD_SIZE || maxlens[e] <= FIRST_BITS {
          var v := CellOnto(maxlens, e);
          var s := Complete(lengths, v);
          HitsMatches(codes, lengths, s, v);
          if lengths[s] <= FIRST_BITS { ShortCell(codes, lengths, maxlens, t, s, v); }
        }
      }
    } else {
      var v := Rev(Pow2(MAX_BITS) - 1, MAX_BITS);
      RevInvolution(Pow2(MAX_BITS) - 1, MAX_BITS);
      var c := Cell(maxlens, v);
      if t.len[c] != UNUSED {
        var s := t.value[c];
        HitsMatches(codes, lengths, s, v);
        Incomplete(lengths, s, v);
      }
    }
  }

  /** A pattern hit by a short symbol is answered by its head entry. */
  lemma ShortCell(codes: seq<nat>, lengths: seq<nat>, maxlens: seq<nat>, t: Table, s: nat, v: nat)
    requires Filled(codes, lengths, maxlens, |lengths|, t)
    requires s < |lengths| && lengths[s] <= FIRST_BITS && Hits(codes, lengths, s, v)
    ensures Cell(maxlens, v) == Head(v)
  {
    hide Hits;
    hide Low;
    hide Shr;
    hide SubStart;
    hide Masked;
    hide Sound;
  }
}
