/** Building and reading Huffman trees: canonical codes from lengths, the two-level
  decoding table, and the symbol decoder that walks it. */
module HuffmanTree {
  import opened Bits
  import opened Canonical
  import opened HuffmanTable
  import BitReader

  /** The source's 16-bit table values. */
  type Half = x: int | 0 <= x < 65536

  datatype Tree = Tree(codes: seq<nat>, lengths: seq<nat>, table: Table)

  /** The trees the source accepts: complete codes, and alphabets of fewer than two symbols. */
  predicate Acceptable(lengths: seq<nat>)
  {
    && |lengths| <= MAX_CODES
    && ValidLengths(lengths)
    && (Present(lengths) < 2 || Kraft(lengths) == Pow2(MAX_BITS))
  }

  // ---- codes ----

  lemma LowAdd(x: nat, c: nat, l: nat)
    ensures Low(x + c * Pow2(l), l) == Low(x, l)
  {
    hide *;
    LowShr(x, l);
    LowBound(x, l);
    var h := Shr(x, l) + c;
    assert Pow2(l) * h == Pow2(l) * Shr(x, l) + c * Pow2(l);
    SplitUnique(Low(x, l), h, l);
  }

  /** Counts the absent symbols too, as the source does: its bl_count[0] is not zero. */
  method CountLengths(lengths: seq<nat>, maxbitlen: nat) returns (blcount: array<nat>)
    requires forall i :: 0 <= i < |lengths| ==> lengths[i] <= maxbitlen
    ensures fresh(blcount) && blcount.Length == maxbitlen + 1
    ensures forall l :: 0 <= l <= maxbitlen ==> blcount[l] == Count(lengths, l)
  {
    blcount := new nat[maxbitlen + 1](_ => 0);
    for n := 0 to |lengths|
      invariant forall l :: 0 <= l <= maxbitlen ==> blcount[l] == Count(lengths[..n], l)
    {
      assert lengths[..n + 1][..n] == lengths[..n];
      blcount[lengths[n]] := blcount[lengths[n]] + 1;
    }
    assert lengths[..|lengths|] == lengths;
  }

  /** Absent symbols shift every first code by a multiple of 2^length. */
  method FirstCodes(lengths: seq<nat>, maxbitlen: nat, blcount: array<nat>) returns (nextcode: array<nat>)
    requires blcount.Length == maxbitlen + 1
    requires forall l :: 0 <= l <= maxbitlen ==> blcount[l] == Count(lengths, l)
    ensures fresh(nextcode) && nextcode.Length == maxbitlen + 1
    ensures forall l :: 1 <= l <= maxbitlen ==>
              nextcode[l] == NextCode(lengths, l) + Count(lengths, 0) * Pow2(l)
  {
    hide Count;
    nextcode := new nat[maxbitlen + 1](_ => 0);
    for bits := 1 to maxbitlen + 1
      invariant nextcode[0] == 0
      invariant forall l :: 1 <= l < bits ==>
                  nextcode[l] == NextCode(lengths, l) + Count(lengths, 0) * Pow2(l)
    {
      nextcode[bits] := (nextcode[bits - 1] + blcount[bits - 1]) * 2;
      Doubled(Count(lengths, 0), bits - 1);
    }
  }

  lemma Doubled(c: nat, l: nat)
    ensures c * Pow2(l + 1) == 2 * (c * Pow2(l))
    ensures c * Pow2(0) == c
  {
    Pow2Step(l);
    var p := Pow2(l);
    assert c * (2 * p) == 2 * (c * p);
  }

  /** Step 3: the mask removes what the miscounted absent symbols added. */
  method MakeCodes(lengths: seq<nat>, maxbitlen: nat) returns (codes: seq<nat>)
    requires |lengths| <= MAX_CODES && maxbitlen <= MAX_BITS
    requires forall i :: 0 <= i < |lengths| ==> lengths[i] <= maxbitlen
    ensures Masked(codes, lengths)
  {
    hide Count;
    hide NextCode;
    hide Low;
    hide Pow2;
    var blcount := CountLengths(lengths, maxbitlen);
    var nextcode := FirstCodes(lengths, maxbitlen, blcount);
    ghost var absent := Count(lengths, 0);
    var a := new nat[|lengths|](_ => 0);
    CountEmpty();
    for n := 0 to |lengths|
      invariant forall l :: 1 <= l <= maxbitlen ==>
                  nextcode[l] == NextCode(lengths, l) + absent * Pow2(l) + Count(lengths[..n], l)
      invariant forall s :: 0 <= s < n && lengths[s] > 0 ==> a[s] == Low(Code(lengths, s), lengths[s])
    {
      CountStep(lengths, n);
      var l := lengths[n];
      if l != 0 {
        LowAdd(Code(lengths, n), absent, l);
        a[n] := nextcode[l];
        nextcode[l] := nextcode[l] + 1;
        a[n] := Low(a[n], l);
      }
    }
    codes := a[..];
  }

  lemma CountEmpty()
    ensures forall l :: Count([], l) == 0
  {
  }

  lemma CountStep(lengths: seq<nat>, n: nat)
    requires n < |lengths|
    ensures forall l :: Count(lengths[..n + 1], l) == Count(lengths[..n], l) + if lengths[n] == l then 1 else 0
    ensures lengths[..0] == []
  {
    assert lengths[..n + 1][..n] == lengths[..n];
  }

  // ---- the decoding table ----

  method LongestPerHead(codes: seq<nat>, lengths: seq<nat>) returns (maxlens: seq<nat>)
    requires Masked(codes, lengths)
    ensures Heads(maxlens) && MaxLens(codes, lengths, maxlens, |lengths|)
  {
    hide Low;
    hide Shr;
    hide Rev;
    hide Pow2;
    var a := new nat[HEAD_SIZE](_ => 0);
    for i := 0 to |lengths|
      invariant MaxLens(codes, lengths, a[..], i)
    {
      var symbol, l := codes[i], lengths[i];
      if l > FIRST_BITS {
        MaskedBound(codes, lengths, i);
        HeadOfCode(symbol, l);
        HeadIndex(Rev(symbol, l));
        var index := Rev(Shr(symbol, l - FIRST_BITS), FIRST_BITS);
        ghost var before := a[..];
        a[index] := Max(a[index], l);
        MaxLensStep(codes, lengths, before, i, a[..]);
      } else {
        MaxLensSkip(codes, lengths, a[..], i);
      }
    }
    maxlens := a[..];
  }

  lemma MaxLensStep(codes: seq<nat>, lengths: seq<nat>, m0: seq<nat>, n: nat, m1: seq<nat>)
    requires |codes| == |lengths| && n < |lengths| && FIRST_BITS < lengths[n] <= MAX_BITS
    requires MaxLens(codes, lengths, m0, n)
    requires var i := Head(Pattern(codes, lengths, n)); m1 == m0[i := Max(m0[i], lengths[n])]
    ensures MaxLens(codes, lengths, m1, n + 1)
  {
    hide Pattern;
    hide Head;
    forall i | 0 <= i < HEAD_SIZE && m1[i] > 0
      ensures exists s :: 0 <= s < n + 1 && lengths[s] == m1[i] && Head(Pattern(codes, lengths, s)) == i
    {
      MaxLensWitness(codes, lengths, m0, n, m1, i);
    }
  }

  lemma MaxLensWitness(codes: seq<nat>, lengths: seq<nat>, m0: seq<nat>, n: nat, m1: seq<nat>, i: nat)
    requires |codes| == |lengths| && n < |lengths| && FIRST_BITS < lengths[n] <= MAX_BITS
    requires MaxLens(codes, lengths, m0, n)
    requires var i := Head(Pattern(codes, lengths, n)); m1 == m0[i := Max(m0[i], lengths[n])]
    requires i < HEAD_SIZE && m1[i] > 0
    ensures exists s :: 0 <= s < n + 1 && lengths[s] == m1[i] && Head(Pattern(codes, lengths, s)) == i
  {
    hide Pattern;
    hide Head;
    if i == Head(Pattern(codes, lengths, n)) && m0[i] <= lengths[n] {
      assert lengths[n] == m1[i];
    } else {
      var s :| 0 <= s < n && lengths[s] == m0[i] && Head(Pattern(codes, lengths, s)) == i;
      assert lengths[s] == m1[i];
    }
  }

  lemma MaxLensSkip(codes: seq<nat>, lengths: seq<nat>, m: seq<nat>, n: nat)
    requires Masked(codes, lengths) && n < |lengths| && lengths[n] <= FIRST_BITS
    requires MaxLens(codes, lengths, m, n)
    ensures MaxLens(codes, lengths, m, n + 1)
  {
    hide Pattern;
    hide Head;
    forall i | 0 <= i < HEAD_SIZE && m[i] > 0
      ensures exists s :: 0 <= s < n + 1 && lengths[s] == m[i] && Head(Pattern(codes, lengths, s)) == i
    {
      var s :| 0 <= s < n && lengths[s] == m[i] && Head(Pattern(codes, lengths, s)) == i;
      assert 0 <= s < n + 1;
    }
  }

  method SizeOfTable(maxlens: seq<nat>) returns (size: nat)
    requires Heads(maxlens)
    ensures size == TableSize(maxlens)
  {
    hide Pow2;
    size := HEAD_SIZE;
    for i := 0 to HEAD_SIZE
      invariant size == SubStart(maxlens, i)
    {
      var l := maxlens[i];
      if l > FIRST_BITS { size := size + Pow2(l - FIRST_BITS); }
    }
  }

  lemma SubStartUnfold(maxlens: seq<nat>, i: nat)
    requires i < |maxlens|
    ensures SubStart(maxlens, 0) == HEAD_SIZE
    ensures SubStart(maxlens, i + 1)
         == SubStart(maxlens, i) + if maxlens[i] > FIRST_BITS then Pow2(maxlens[i] - FIRST_BITS) else 0
  {
  }

  /** Every entry unused, except the pointers to the secondary tables. */
  method InitTable(maxlens: seq<nat>, size: nat) returns (len: array<nat>, value: array<Half>)
    requires Heads(maxlens) && size == TableSize(maxlens)
    ensures fresh(len) && fresh(value) && (len as object) != (value as object)
    ensures len.Length == value.Length == size >= HEAD_SIZE
    ensures forall i :: 0 <= i < HEAD_SIZE && maxlens[i] > FIRST_BITS ==>
              len[i] == maxlens[i] && value[i] == SubStart(maxlens, i)
    ensures forall i :: 0 <= i < size && (i >= HEAD_SIZE || maxlens[i] <= FIRST_BITS) ==> len[i] == UNUSED
  {
    hide Pow2;
    hide SubStart;
    SubStartUnfold(maxlens, 0);
    len := new nat[size](_ => UNUSED);
    value := new Half[size](_ => 0);
    var pointer := HEAD_SIZE;
    for i := 0 to HEAD_SIZE
      invariant pointer == SubStart(maxlens, i)
      invariant forall k :: 0 <= k < i && maxlens[k] > FIRST_BITS ==>
                  len[k] == maxlens[k] && value[k] == SubStart(maxlens, k)
      invariant forall k :: 0 <= k < size && (k >= i || maxlens[k] <= FIRST_BITS) ==> len[k] == UNUSED
    {
      SubStartUnfold(maxlens, i);
      SubStartSmall(maxlens, i);
      var l := maxlens[i];
      if l > FIRST_BITS {
        len[i] := l;
        value[i] := pointer;
        pointer := pointer + Pow2(l - FIRST_BITS);
      }
    }
  }

  /** The 2^(9-l) head entries that begin with a short code; fails on a used one. */
  method FillShort(len: array<nat>, value: array<Half>, s: Half, l: nat, reverse: nat) returns (ok: bool)
    requires (len as object) != (value as object) && len.Length == value.Length >= HEAD_SIZE
    requires 0 < l <= FIRST_BITS && reverse < Pow2(l)
    modifies len, value
    ensures ok ==> forall i :: 0 <= i < len.Length ==>
              if i < HEAD_SIZE && Low(i, l) == reverse
              then old(len[i]) == UNUSED && len[i] == l && value[i] == s
              else len[i] == old(len[i]) && value[i] == old(value[i])
    ensures !ok ==> exists i :: 0 <= i < HEAD_SIZE && Low(i, l) == reverse && old(len[i]) != UNUSED
  {
    hide Low;
    hide Shr;
    hide Pow2;
    Pow2Small();
    var num := Pow2(FIRST_BITS - l);
    ok := true;
    for j := 0 to num
      invariant forall i :: 0 <= i < len.Length ==>
                  if i < HEAD_SIZE && Low(i, l) == reverse && Shr(i, l) < j
                  then old(len[i]) == UNUSED && len[i] == l && value[i] == s
                  else len[i] == old(len[i]) && value[i] == old(value[i])
    {
      Stride(reverse, j, l, FIRST_BITS);
      var index := reverse + j * Pow2(l);
      if len[index] != UNUSED { return false; }
      len[index] := l;
      value[index] := s;
      forall i | 0 <= i < HEAD_SIZE && Low(i, l) == reverse && Shr(i, l) == j ensures i == index {
        StrideOnly(i, reverse, j, l);
      }
    }
    forall i | 0 <= i < HEAD_SIZE ensures Shr(i, l) < num {
      ShrBound(i, l, FIRST_BITS);
    }
  }

  /** The entries of a secondary table of 2^n entries that begin with the rest of a long code. */
  method FillLong(len: array<nat>, value: array<Half>, s: Half, l: nat, reverse2: nat, start: nat, n: nat)
    requires (len as object) != (value as object) && len.Length == value.Length
    requires FIRST_BITS < l && l - FIRST_BITS <= n && reverse2 < Pow2(l - FIRST_BITS)
    requires start + Pow2(n) <= len.Length
    modifies len, value
    ensures forall k :: 0 <= k < len.Length ==>
              if start <= k < start + Pow2(n) && Low(k - start, l - FIRST_BITS) == reverse2
              then len[k] == l && value[k] == s
              else len[k] == old(len[k]) && value[k] == old(value[k])
  {
    hide Low;
    hide Shr;
    hide Pow2;
    var low := l - FIRST_BITS;
    var num := Pow2(n - low);
    for j := 0 to num
      invariant forall k :: 0 <= k < len.Length ==>
                  if start <= k < start + Pow2(n) && Low(k - start, low) == reverse2 && Shr(k - start, low) < j
                  then len[k] == l && value[k] == s
                  else len[k] == old(len[k]) && value[k] == old(value[k])
    {
      Stride(reverse2, j, low, n);
      var index2 := start + (reverse2 + j * Pow2(low));
      len[index2] := l;
      value[index2] := s;
      forall e: nat | Low(e, low) == reverse2 && Shr(e, low) == j ensures start + e == index2 {
        StrideOnly(e, reverse2, j, low);
      }
    }
    forall e: nat | e < Pow2(n) ensures Shr(e, low) < num {
      ShrBound(e, low, n);
    }
  }

  lemma AbsentStep(codes: seq<nat>, lengths: seq<nat>, maxlens: seq<nat>, s: nat, t: Table)
    requires s < |lengths| && Filled(codes, lengths, maxlens, s, t) && lengths[s] == 0
    ensures Filled(codes, lengths, maxlens, s + 1, t)
  {
    hide Pattern;
    hide MaxLens;
    hide Masked;
    hide Low;
    hide SubStart;
    hide Cell;
  }

  lemma ShortStep(codes: seq<nat>, lengths: seq<nat>, maxlens: seq<nat>, s: nat, t0: Table, t1: Table)
    requires s < |lengths| && Filled(codes, lengths, maxlens, s, t0) && 0 < lengths[s] <= FIRST_BITS
    requires ShortWrite(codes, lengths, s, t0, t1)
    ensures Filled(codes, lengths, maxlens, s + 1, t1)
  {
    ShortSound(codes, lengths, maxlens, s, t0, t1);
    ShortOwns(codes, lengths, maxlens, s, t0, t1);
  }

  lemma LongStep(codes: seq<nat>, lengths: seq<nat>, maxlens: seq<nat>, s: nat, t0: Table, t1: Table)
    requires s < |lengths| && Filled(codes, lengths, maxlens, s, t0) && lengths[s] > FIRST_BITS
    requires LongWrite(codes, lengths, maxlens, s, t0, t1)
    ensures Filled(codes, lengths, maxlens, s + 1, t1)
  {
    hide MaxLens;
    hide Masked;
    hide Hits;
    hide Low;
    hide SubStart;
    hide Pattern;
    LongSound(codes, lengths, maxlens, s, t0, t1);
    LongOwns(codes, lengths, maxlens, s, t0, t1);
    LongKeepsHeads(codes, lengths, maxlens, s, t0, t1);
  }

  /** What the head entry of a long code holds while the table is being filled. */
  lemma LongGeometry(codes: seq<nat>, lengths: seq<nat>, maxlens: seq<nat>, s: nat, t: Table)
    requires s < |lengths| && Filled(codes, lengths, maxlens, s, t) && lengths[s] > FIRST_BITS
    ensures var p := Pattern(codes, lengths, s);
            var i := Head(p);
            && t.len[i] == maxlens[i] >= lengths[s] && maxlens[i] <= MAX_BITS
            && t.value[i] == SubStart(maxlens, i)
            && SubStart(maxlens, i) + Pow2(maxlens[i] - FIRST_BITS) <= |t.len|
            && Shr(p, FIRST_BITS) < Pow2(lengths[s] - FIRST_BITS)
  {
    hide Pattern;
    hide Low;
    hide Shr;
    hide SubStart;
    hide Pow2;
    hide Sound;
    hide ShortOwned;
    hide LongOwned;
    var p := Pattern(codes, lengths, s);
    MaskedBound(codes, lengths, s);
    ShrBound(p, FIRST_BITS, lengths[s]);
    SubStartMonotone(maxlens, Head(p), HEAD_SIZE);
  }

  method FillSymbol(codes: seq<nat>, lengths: seq<nat>, ghost maxlens: seq<nat>,
                    len: array<nat>, value: array<Half>, i: Half) returns (error: int)
    requires (len as object) != (value as object)
    requires i < |lengths| && Filled(codes, lengths, maxlens, i, Table(len[..], value[..]))
    modifies len, value
    ensures error == 0 ==> Filled(codes, lengths, maxlens, i + 1, Table(len[..], value[..]))
    ensures error != 0 ==> error == 55 && Kraft(lengths) > Pow2(MAX_BITS)
  {
    hide Rev;
    hide Low;
    hide Shr;
    hide SubStart;
    hide Pow2;
    hide MaxLens;
    hide Sound;
    hide ShortOwned;
    hide LongOwned;
    hide Kraft;
    hide Code;
    ghost var t0 := Table(len[..], value[..]);
    var l := lengths[i];
    if l == 0 {
      AbsentStep(codes, lengths, maxlens, i, t0);
      return 0;
    }
    MaskedBound(codes, lengths, i);
    var reverse := Rev(codes[i], l);
    if l <= FIRST_BITS {
      var ok := FillShort(len, value, i, l, reverse);
      if !ok {
        ghost var k :| 0 <= k < HEAD_SIZE && Low(k, l) == reverse && t0.len[k] != UNUSED;
        Collision(codes, lengths, maxlens, i, t0, k);
        return 55;
      }
      assert ShortWrite(codes, lengths, i, t0, Table(len[..], value[..]));
      ShortStep(codes, lengths, maxlens, i, t0, Table(len[..], value[..]));
    } else {
      LongGeometry(codes, lengths, maxlens, i, t0);
      HeadIndex(reverse);
      var index := Low(reverse, FIRST_BITS);
      var maxlen := len[index];
      if maxlen < l { return 55; }
      var start := value[index];
      var reverse2 := Shr(reverse, FIRST_BITS);
      FillLong(len, value, i, l, reverse2, start, maxlen - FIRST_BITS);
      assert LongWrite(codes, lengths, maxlens, i, t0, Table(len[..], value[..]));
      LongStep(codes, lengths, maxlens, i, t0, Table(len[..], value[..]));
    }
    return 0;
  }

  // ---- what the finished table answers ----

  /** Entry e is right for the bit pattern v: its symbol's code, or no symbol's. */
  ghost predicate Entry(lengths: seq<nat>, t: Table, e: nat, v: nat)
    requires e < |t.len| == |t.value|
  {
    && 0 < t.len[e] <= MAX_BITS
    && if t.value[e] == INVALID_SYMBOL then forall s :: 0 <= s < |lengths| ==> !Matches(lengths, s, v)
       else t.value[e] < |lengths| && Matches(lengths, t.value[e], v) && t.len[e] == lengths[t.value[e]]
  }

  /** The two-level lookup of v stays inside the table and finds a right entry. */
  ghost predicate Answer(lengths: seq<nat>, t: Table, v: nat)
  {
    var h := Head(v);
    && h < |t.len| == |t.value|
    && if t.len[h] <= FIRST_BITS then Entry(lengths, t, h, v)
       else
         && t.len[h] <= MAX_BITS
         && var e := t.value[h] + Low(Shr(v, FIRST_BITS), t.len[h] - FIRST_BITS);
            e < |t.len| && t.len[e] > FIRST_BITS && Entry(lengths, t, e, v)
  }

  ghost predicate Answers(lengths: seq<nat>, t: Table)
  {
    forall v: nat :: Answer(lengths, t, v)
  }

  /** t1 is t0 with its unused entries marked invalid. */
  ghost predicate Sealed(t0: Table, t1: Table)
  {
    && |t0.len| == |t0.value| == |t1.len| == |t1.value|
    && forall i :: 0 <= i < |t0.len| ==>
         if t0.len[i] == UNUSED
         then t1.len[i] == (if i < HEAD_SIZE then 1 else FIRST_BITS + 1) && t1.value[i] == INVALID_SYMBOL
         else t1.len[i] == t0.len[i] && t1.value[i] == t0.value[i]
  }

  /** A pattern whose cell is unused begins with no code. */
  lemma UnusedCell(codes: seq<nat>, lengths: seq<nat>, maxlens: seq<nat>, t: Table, v: nat, s: nat)
    requires Filled(codes, lengths, maxlens, |lengths|, t) && Kraft(lengths) <= Pow2(MAX_BITS)
    requires s < |lengths| && Cell(maxlens, v) < |t.len| && t.len[Cell(maxlens, v)] == UNUSED
    ensures !Matches(lengths, s, v)
  {
    hide Matches;
    hide Hits;
    hide Masked;
    hide Kraft;
    hide Low;
    hide Shr;
    hide SubStart;
    hide Sound;
    hide MaxLens;
    HitsMatches(codes, lengths, s, v);
    if Hits(codes, lengths, s, v) {
      if lengths[s] <= FIRST_BITS { ShortCell(codes, lengths, maxlens, t, s, v); }
    }
  }

  lemma SealedEntry(codes: seq<nat>, lengths: seq<nat>, maxlens: seq<nat>, t0: Table, t1: Table, v: nat)
    requires Filled(codes, lengths, maxlens, |lengths|, t0) && Kraft(lengths) <= Pow2(MAX_BITS)
    requires Sealed(t0, t1)
    ensures var c := Cell(maxlens, v); c < |t1.len| == |t1.value| && Entry(lengths, t1, c, v)
  {
    hide Matches;
    hide Hits;
    hide Masked;
    hide Kraft;
    hide Cell;
    hide SubStart;
    hide MaxLens;
    hide ShortOwned;
    hide LongOwned;
    CellRange(maxlens, v);
    FilledSize(codes, lengths, maxlens, |lengths|, t0);
    var c := Cell(maxlens, v);
    if t0.len[c] == UNUSED {
      forall s | 0 <= s < |lengths| ensures !Matches(lengths, s, v) {
        UnusedCell(codes, lengths, maxlens, t0, v, s);
      }
    } else {
      var s := t0.value[c];
      assert Hits(codes, lengths, s, v);
      HitsMatches(codes, lengths, s, v);
      MatchesPresent(lengths, s, v);
    }
  }

  lemma MatchesPresent(lengths: seq<nat>, s: nat, v: nat)
    requires s < |lengths| && Matches(lengths, s, v)
    ensures lengths[s] > 0
  {
  }

  /** The length of the entry found says at which level it was found. */
  lemma SealedLevel(codes: seq<nat>, lengths: seq<nat>, maxlens: seq<nat>, t0: Table, t1: Table, v: nat)
    requires Filled(codes, lengths, maxlens, |lengths|, t0)
    requires Sealed(t0, t1)
    ensures var c := Cell(maxlens, v);
            c < |t1.len| && (t1.len[c] <= FIRST_BITS <==> maxlens[Head(v)] <= FIRST_BITS)
  {
    hide Hits;
    hide Masked;
    hide Kraft;
    hide SubStart;
    hide MaxLens;
    hide LongOwned;
    hide Low;
    hide Shr;
    CellRange(maxlens, v);
    var c := Cell(maxlens, v);
    if t0.len[c] != UNUSED {
      var s := t0.value[c];
      assert Hits(codes, lengths, s, v) && t0.len[c] == lengths[s];
      if lengths[s] > FIRST_BITS {
        LongHitHead(codes, lengths, maxlens, |lengths|, s, v);
      } else {
        assert t0.len[Head(v)] == lengths[s];
      }
    }
  }

  lemma SealedAnswers(codes: seq<nat>, lengths: seq<nat>, maxlens: seq<nat>, t0: Table, t1: Table)
    requires Filled(codes, lengths, maxlens, |lengths|, t0) && Kraft(lengths) <= Pow2(MAX_BITS)
    requires Sealed(t0, t1)
    ensures Answers(lengths, t1)
  {
    hide Masked;
    hide Kraft;
    hide SubStart;
    hide MaxLens;
    hide ShortOwned;
    hide LongOwned;
    hide Sound;
    hide Low;
    hide Shr;
    hide Entry;
    forall v: nat ensures Answer(lengths, t1, v) {
      SealedEntry(codes, lengths, maxlens, t0, t1, v);
      SealedLevel(codes, lengths, maxlens, t0, t1, v);
    }
  }

  lemma {:induction false} FewPresent(lengths: seq<nat>)
    requires ValidLengths(lengths)
    ensures Kraft(lengths) <= 16384 * Present(lengths)
  {
    if lengths != [] {
      var last := lengths[|lengths| - 1];
      FewPresent(lengths[..|lengths| - 1]);
      if last > 0 { Pow2Monotone(MAX_BITS - last, 14); }
      assert Pow2(14) == 16384 by { Pow2Small(); Pow2Step(14); }
    }
  }

  // ---- building a tree ----

  method FillSymbols(codes: seq<nat>, lengths: seq<nat>, ghost maxlens: seq<nat>,
                     len: array<nat>, value: array<Half>) returns (error: int, numpresent: nat)
    requires (len as object) != (value as object)
    requires Filled(codes, lengths, maxlens, 0, Table(len[..], value[..]))
    modifies len, value
    ensures error == 0 ==> Filled(codes, lengths, maxlens, |lengths|, Table(len[..], value[..]))
                           && numpresent == Present(lengths)
    ensures error != 0 ==> error == 55 && Kraft(lengths) > Pow2(MAX_BITS)
  {
    hide Filled;
    assert |lengths| <= MAX_CODES by { FilledSize(codes, lengths, maxlens, 0, Table(len[..], value[..])); }
    numpresent := 0;
    CountStart(lengths);
    for i := 0 to |lengths|
      invariant Filled(codes, lengths, maxlens, i, Table(len[..], value[..]))
      invariant numpresent == i - Count(lengths[..i], 0)
    {
      error := FillSymbol(codes, lengths, maxlens, len, value, i);
      if error != 0 { return; }
      CountStep(lengths, i);
      if lengths[i] != 0 { numpresent := numpresent + 1; }
    }
    error := 0;
    assert lengths[..|lengths|] == lengths;
  }

  lemma CountStart(lengths: seq<nat>)
    ensures Count(lengths[..0], 0) == 0
  {
  }

  lemma FilledSize(codes: seq<nat>, lengths: seq<nat>, maxlens: seq<nat>, n: nat, t: Table)
    requires Filled(codes, lengths, maxlens, n, t)
    ensures |lengths| <= MAX_CODES && ValidLengths(lengths)
  {
  }

  /** Marks what no code reaches, so that reading it is an error. */
  method SealTable(len: array<nat>, value: array<Half>)
    requires (len as object) != (value as object) && len.Length == value.Length
    modifies len, value
    ensures Sealed(Table(old(len[..]), old(value[..])), Table(len[..], value[..]))
  {
    for i := 0 to len.Length
      invariant forall k :: i <= k < len.Length ==> len[k] == old(len[k]) && value[k] == old(value[k])
      invariant forall k :: 0 <= k < i ==>
                  if old(len[k]) == UNUSED
                  then len[k] == (if k < HEAD_SIZE then 1 else FIRST_BITS + 1) && value[k] == INVALID_SYMBOL
                  else len[k] == old(len[k]) && value[k] == old(value[k])
    {
      if len[i] == UNUSED {
        len[i] := if i < HEAD_SIZE then 1 else FIRST_BITS + 1;
        value[i] := INVALID_SYMBOL;
      }
    }
  }

  method FindUnused(len: array<nat>) returns (found: bool)
    ensures found <==> UNUSED in len[..]
  {
    for i := 0 to len.Length
      invariant forall k :: 0 <= k < i ==> len[k] != UNUSED
    {
      if len[i] == UNUSED {
        assert len[..][i] == UNUSED;
        return true;
      }
    }
    return false;
  }

  lemma InitiallyFilled(codes: seq<nat>, lengths: seq<nat>, maxlens: seq<nat>, t: Table)
    requires Masked(codes, lengths) && MaxLens(codes, lengths, maxlens, |lengths|)
    requires Pointers(maxlens, t)
    requires forall i :: 0 <= i < |t.len| && (i >= HEAD_SIZE || maxlens[i] <= FIRST_BITS) ==> t.len[i] == UNUSED
    ensures Filled(codes, lengths, maxlens, 0, t)
  {
    hide Low;
    hide Shr;
    hide SubStart;
    hide Pow2;
    hide Hits;
    forall v: nat ensures var c := Cell(maxlens, v); c < TableSize(maxlens) && t.len[c] == UNUSED {
      CellRange(maxlens, v);
    }
  }

  /** Accepts exactly the complete codes and the alphabets of fewer than two symbols. */
  method MakeTable(codes: seq<nat>, lengths: seq<nat>) returns (error: int, t: Table)
    requires Masked(codes, lengths)
    ensures error == 0 <==> Present(lengths) < 2 || Kraft(lengths) == Pow2(MAX_BITS)
    ensures error == 0 ==> Answers(lengths, t)
  {
    hide Kraft;
    hide Code;
    hide Low;
    hide Pow2;
    hide MaxLens;
    hide SubStart;
    hide Sound;
    hide ShortOwned;
    hide LongOwned;
    hide Answers;
    hide Sealed;
    FewPresent(lengths);
    Pow2Small();
    t := Table([], []);
    var maxlens := LongestPerHead(codes, lengths);
    var size := SizeOfTable(maxlens);
    var len, value := InitTable(maxlens, size);
    InitiallyFilled(codes, lengths, maxlens, Table(len[..], value[..]));
    var numpresent;
    error, numpresent := FillSymbols(codes, lengths, maxlens, len, value);
    if error != 0 { return; }
    ghost var t0 := Table(len[..], value[..]);
    Oversubscribed(codes, lengths, maxlens, t0);
    AllUsed(codes, lengths, maxlens, t0);
    if numpresent < 2 {
      SealTable(len, value);
    } else {
      var unused := FindUnused(len);
      if unused { return 55, t; }
      SealedAlready(t0);
    }
    t := Table(len[..], value[..]);
    SealedAnswers(codes, lengths, maxlens, t0, t);
  }

  lemma SealedAlready(t: Table)
    requires UNUSED !in t.len && |t.len| == |t.value|
    ensures Sealed(t, t)
  {
  }

  // ---- trees ----

  /** A tree both the encoder and the decoder can use. */
  ghost predicate ValidTree(tree: Tree)
  {
    && Acceptable(tree.lengths)
    && |tree.codes| == |tree.lengths|
    && (forall s :: 0 <= s < |tree.lengths| && tree.lengths[s] > 0 ==>
          tree.codes[s] == Code(tree.lengths, s) < Pow2(tree.lengths[s]))
    && Answers(tree.lengths, tree.table)
  }

  /** Builds the tree for given code lengths; the codes are those of RFC 1951 section 3.2.2. */
  method MakeFromLengths(bitlen: seq<nat>, maxbitlen: nat) returns (error: int, tree: Tree)
    requires |bitlen| <= MAX_CODES && maxbitlen <= MAX_BITS
    requires forall i :: 0 <= i < |bitlen| ==> bitlen[i] <= maxbitlen
    ensures error == 0 <==> Acceptable(bitlen)
    ensures error == 0 ==> ValidTree(tree)
    ensures tree.lengths == bitlen
  {
    hide Kraft;
    hide Code;
    hide Low;
    hide Pow2;
    hide Answers;
    var codes := MakeCodes(bitlen, maxbitlen);
    var table;
    error, table := MakeTable(codes, bitlen);
    tree := Tree(codes, bitlen, table);
    if error == 0 {
      FewPresent(bitlen);
      Pow2Small();
      forall s | 0 <= s < |bitlen| && bitlen[s] > 0
        ensures codes[s] == Code(bitlen, s) < Pow2(bitlen[s])
      {
        CodeFits(bitlen, s);
        LowSmall(Code(bitlen, s), bitlen[s]);
      }
    }
  }

  // ---- decoding a symbol ----

  /** Symbol s is the one whose code comes next in the stream. */
  predicate CodeAt(lengths: seq<nat>, s: nat, bits: seq<Bit>, pos: nat)
  {
    && s < |lengths| && lengths[s] > 0
    && Rev(Peek(bits, pos, lengths[s]), lengths[s]) == Code(lengths, s)
  }

  lemma CodeAtMatches(lengths: seq<nat>, s: nat, bits: seq<Bit>, pos: nat)
    requires ValidLengths(lengths) && s < |lengths|
    ensures CodeAt(lengths, s, bits, pos) <==> Matches(lengths, s, Peek(bits, pos, MAX_BITS))
  {
    hide Rev;
    hide Peek;
    hide Code;
    if lengths[s] > 0 {
      PeekLow(bits, pos, MAX_BITS, lengths[s]);
      RevLow(Peek(bits, pos, MAX_BITS), lengths[s]);
    }
  }

  /** At most one symbol's code comes next. */
  lemma CodeAtUnique(lengths: seq<nat>, s: nat, t: nat, bits: seq<Bit>, pos: nat)
    requires ValidLengths(lengths)
    requires CodeAt(lengths, s, bits, pos) && CodeAt(lengths, t, bits, pos)
    ensures s == t
  {
    hide CodeAt;
    hide Matches;
    assert s < |lengths| && t < |lengths| by { CodeAtSymbol(lengths, s, bits, pos); CodeAtSymbol(lengths, t, bits, pos); }
    CodeAtMatches(lengths, s, bits, pos);
    CodeAtMatches(lengths, t, bits, pos);
    PrefixFree(lengths, s, t, Peek(bits, pos, MAX_BITS));
  }

  lemma CodeAtSymbol(lengths: seq<nat>, s: nat, bits: seq<Bit>, pos: nat)
    requires CodeAt(lengths, s, bits, pos)
    ensures s < |lengths| && lengths[s] > 0
  {
  }

  /** What reading a symbol at pos yields: the one whose code comes next, if there is one. */
  ghost predicate Decoded(lengths: seq<nat>, bits: seq<Bit>, pos: nat, s: nat)
  {
    if s == INVALID_SYMBOL then forall t: nat :: !CodeAt(lengths, t, bits, pos) else CodeAt(lengths, s, bits, pos)
  }

  /** Reads one symbol; the reader must hold at least 15 bits. */
  method DecodeSymbol(reader: BitReader.Reader, tree: Tree) returns (value: nat)
    requires reader.Valid() && reader.avail >= MAX_BITS && ValidTree(tree)
    modifies reader
    ensures reader.Valid()
    ensures old(reader.bp) < reader.bp <= old(reader.bp) + MAX_BITS
    ensures reader.bp - old(reader.bp) == old(reader.avail) - reader.avail
    ensures Decoded(tree.lengths, Stream(reader.data), old(reader.bp), value)
    ensures value != INVALID_SYMBOL ==>
              value < |tree.lengths| && reader.bp == old(reader.bp) + tree.lengths[value]
  {
    hide Matches;
    hide CodeAt;
    hide Code;
    hide Kraft;
    hide Low;
    hide Shr;
    hide Pow2;
    hide Peek;
    hide Stream;
    ghost var bits, pos := Stream(reader.data), reader.bp;
    ghost var v := Peek(bits, pos, MAX_BITS);
    assert Answer(tree.lengths, tree.table, v);
    PeekLow(bits, pos, MAX_BITS, FIRST_BITS);
    var code := reader.PeekBits(FIRST_BITS);
    var l := tree.table.len[code];
    value := tree.table.value[code];
    if l <= FIRST_BITS {
      reader.AdvanceBits(l);
    } else {
      PeekLow(bits, pos + FIRST_BITS, MAX_BITS - FIRST_BITS, l - FIRST_BITS);
      reader.AdvanceBits(FIRST_BITS);
      var rest := reader.PeekBits(l - FIRST_BITS);
      value := value + rest;
      reader.AdvanceBits(tree.table.len[value] - FIRST_BITS);
      value := tree.table.value[value];
    }
    EntryMeans(tree.lengths, bits, pos, value);
  }

  /** What an entry says about patterns, said about the stream. */
  lemma EntryMeans(lengths: seq<nat>, bits: seq<Bit>, pos: nat, value: nat)
    requires ValidLengths(lengths)
    ensures (forall s :: 0 <= s < |lengths| ==> !Matches(lengths, s, Peek(bits, pos, MAX_BITS))) ==>
              forall s: nat :: !CodeAt(lengths, s, bits, pos)
    ensures value < |lengths| && Matches(lengths, value, Peek(bits, pos, MAX_BITS)) ==>
              CodeAt(lengths, value, bits, pos)
  {
    hide Matches;
    hide Code;
    hide Rev;
    hide Peek;
    forall s: nat | CodeAt(lengths, s, bits, pos) ensures Matches(lengths, s, Peek(bits, pos, MAX_BITS)) {
      CodeAtMatches(lengths, s, bits, pos);
    }
    if value < |lengths| { CodeAtMatches(lengths, value, bits, pos); }
  }
}
