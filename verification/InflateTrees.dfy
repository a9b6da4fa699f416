/** Reading the trees of a compressed block. */
module InflateTrees {
  import opened Bits
  import opened Canonical
  import opened HuffmanTree
  import opened InflateSpec
  import opened BitReader
  import opened Inflate

  // ---- the code length alphabet ----

  lemma OrderDistinct(i: nat, j: nat)
    requires i < j < NUM_CODE_LENGTH
    ensures CLCL_ORDER[i] != CLCL_ORDER[j]
  {
  }

  lemma OrderOnto(s: nat) returns (k: nat)
    requires s < NUM_CODE_LENGTH
    ensures k < NUM_CODE_LENGTH && CLCL_ORDER[k] == s
  {
    k := [3, 17, 15, 13, 11, 9, 7, 5, 4, 6, 8, 10, 12, 14, 16, 18, 0, 1, 2][s];
  }

  /** The order of transmission puts field k where the format wants it. */
  lemma ClLengthsAt(bits: seq<Bit>, pos: nat, n: nat, k: nat)
    requires k < NUM_CODE_LENGTH
    ensures ClLengths(bits, pos, n)[CLCL_ORDER[k]] == Field(bits, pos, n, 3 * k)
  {
    hide Field;
  }

  /** Where in a dynamic header the length of each code length symbol stands (RFC 1951 section 3.2.7). */
  lemma CodeLengthFields(bits: seq<Bit>, pos: nat, n: nat)
    requires n <= 19
    ensures var cl := ClLengths(bits, pos, n);
            && |cl| == 19
            && cl[16] == (if n > 0 then Peek(bits, pos, 3) else 0)
            && cl[17] == (if n > 1 then Peek(bits, pos + 3, 3) else 0)
            && cl[18] == (if n > 2 then Peek(bits, pos + 6, 3) else 0)
            && cl[0] == (if n > 3 then Peek(bits, pos + 9, 3) else 0)
            && (forall j: nat :: j <= 7 ==>
                  && cl[8 + j] == (if n > 4 + 2 * j then Peek(bits, pos + 12 + 6 * j, 3) else 0)
                  && (j < 7 ==> cl[7 - j] == if n > 5 + 2 * j then Peek(bits, pos + 15 + 6 * j, 3) else 0))
  {
    hide Peek;
  }

  lemma ClLengthsAre(bits: seq<Bit>, pos: nat, hclen: nat, r: seq<nat>)
    requires |r| == NUM_CODE_LENGTH
    requires forall k :: 0 <= k < NUM_CODE_LENGTH ==> r[CLCL_ORDER[k]] == Field(bits, pos, hclen, 3 * k)
    ensures r == ClLengths(bits, pos, hclen)
  {
    hide Peek;
    hide ClLengths;
    forall s | 0 <= s < NUM_CODE_LENGTH ensures r[s] == ClLengths(bits, pos, hclen)[s] {
      var k := OrderOnto(s);
      ClLengthsAt(bits, pos, hclen, k);
    }
  }

  lemma ClLengthsSmall(bits: seq<Bit>, pos: nat, hclen: nat)
    requires hclen <= NUM_CODE_LENGTH
    ensures forall s :: 0 <= s < NUM_CODE_LENGTH ==> ClLengths(bits, pos, hclen)[s] <= 7
  {
    hide Peek;
    hide ClLengths;
    forall s | 0 <= s < NUM_CODE_LENGTH ensures ClLengths(bits, pos, hclen)[s] <= 7 {
      var k := OrderOnto(s);
      ClLengthsAt(bits, pos, hclen, k);
      PeekBound(bits, pos + 3 * k, 3);
      Pow2Small();
    }
  }

  lemma OrderBounds()
    ensures |CLCL_ORDER| == NUM_CODE_LENGTH && forall k :: 0 <= k < NUM_CODE_LENGTH ==> CLCL_ORDER[k] < NUM_CODE_LENGTH
  {
  }

  method ReadClLengths(reader: Reader, hclen: nat) returns (bitlenCl: seq<nat>)
    requires reader.Valid() && hclen <= NUM_CODE_LENGTH
    modifies reader
    ensures reader.Valid() && reader.bp == old(reader.bp) + 3 * hclen
    ensures bitlenCl == ClLengths(Stream(reader.data), old(reader.bp), hclen)
  {
    hide Reader.Valid;
    hide Peek;
    hide Stream;
    hide ClLengths;
    OrderBounds();
    hide CLCL_ORDER;
    ghost var bits, pos := Stream(reader.data), reader.bp;
    var a := new nat[NUM_CODE_LENGTH];
    for i := 0 to hclen
      invariant reader.Valid() && reader.bp == pos + 3 * i
      invariant forall k :: 0 <= k < i ==> a[CLCL_ORDER[k]] == Field(bits, pos, hclen, 3 * k)
    {
      reader.EnsureBits9();
      forall k | 0 <= k < i ensures CLCL_ORDER[k] != CLCL_ORDER[i] { OrderDistinct(k, i); }
      var v := reader.ReadBits(3);
      a[CLCL_ORDER[i]] := v;
    }
    for i := hclen to NUM_CODE_LENGTH
      invariant reader.Valid() && reader.bp == pos + 3 * hclen
      invariant forall k :: 0 <= k < i ==> a[CLCL_ORDER[k]] == Field(bits, pos, hclen, 3 * k)
    {
      forall k | 0 <= k < i ensures CLCL_ORDER[k] != CLCL_ORDER[i] { OrderDistinct(k, i); }
      a[CLCL_ORDER[i]] := 0;
    }
    bitlenCl := a[..];
    ClLengthsAre(bits, pos, hclen, bitlenCl);
  }

  // ---- the two arrays of code lengths ----

  /** The first i lengths read, which fill the literal/length array and then the distance array. */
  ghost function ReadSoFar(ll: seq<nat>, d: seq<nat>, hlit: nat, i: nat): (r: seq<nat>)
    requires hlit <= |ll| && i <= hlit + |d|
    ensures |r| == i
  {
    if i <= hlit then ll[..i] else ll[..hlit] + d[..i - hlit]
  }

  /** What has not been read yet is zero. */
  ghost predicate RestZero(ll: seq<nat>, d: seq<nat>, hlit: nat, i: nat)
  {
    && (forall k :: Min(i, hlit) <= k < |ll| ==> ll[k] == 0)
    && (forall k :: Max(i - hlit, 0) <= k < |d| ==> d[k] == 0)
  }

  lemma NothingSoFar(ll: seq<nat>, d: seq<nat>, hlit: nat)
    requires hlit <= |ll| && (forall k :: 0 <= k < |ll| ==> ll[k] == 0) && (forall k :: 0 <= k < |d| ==> d[k] == 0)
    ensures RestZero(ll, d, hlit, 0) && ReadSoFar(ll, d, hlit, 0) == []
  {
  }

  lemma SplitIsArrays(ll: seq<nat>, d: seq<nat>, hlit: nat, total: nat)
    requires |ll| == NUM_LITLEN && |d| == NUM_DISTANCE && hlit <= total && hlit <= |ll| && total <= hlit + |d|
    requires RestZero(ll, d, hlit, total)
    ensures SplitLengths(ReadSoFar(ll, d, hlit, total), hlit) == (ll, d)
  {
    var r := SplitLengths(ReadSoFar(ll, d, hlit, total), hlit);
    assert r.0 == ll;
    assert r.1 == d;
  }

  /** Appends one length, to whichever array is due. */
  method PutLength(bitlenLl: array<nat>, bitlenD: array<nat>, hlit: nat, i: nat, value: nat)
    requires bitlenLl != bitlenD && hlit <= bitlenLl.Length && i < hlit + bitlenD.Length
    requires RestZero(bitlenLl[..], bitlenD[..], hlit, i)
    modifies bitlenLl, bitlenD
    ensures ReadSoFar(bitlenLl[..], bitlenD[..], hlit, i + 1) == old(ReadSoFar(bitlenLl[..], bitlenD[..], hlit, i)) + [value]
    ensures RestZero(bitlenLl[..], bitlenD[..], hlit, i + 1)
  {
    if i < hlit {
      bitlenLl[i] := value;
    } else {
      bitlenD[i - hlit] := value;
    }
  }

  /** A repeat code; fails when it runs past the end. */
  method RepeatLength(bitlenLl: array<nat>, bitlenD: array<nat>, hlit: nat, total: nat, i: nat, value: nat, replength: nat)
    returns (ok: bool, next: nat)
    requires bitlenLl != bitlenD && hlit <= bitlenLl.Length && i <= total <= hlit + bitlenD.Length
    requires RestZero(bitlenLl[..], bitlenD[..], hlit, i)
    modifies bitlenLl, bitlenD
    ensures ok <==> i + replength <= total
    ensures ok ==> next == i + replength && RestZero(bitlenLl[..], bitlenD[..], hlit, next)
    ensures ok ==> (ReadSoFar(bitlenLl[..], bitlenD[..], hlit, next)
                    == old(ReadSoFar(bitlenLl[..], bitlenD[..], hlit, i)) + Repeat(value, replength))
  {
    hide ReadSoFar;
    hide RestZero;
    next := i;
    ghost var before := ReadSoFar(bitlenLl[..], bitlenD[..], hlit, i);
    for n := 0 to replength
      invariant next == i + n <= total
      invariant ReadSoFar(bitlenLl[..], bitlenD[..], hlit, next) == before + Repeat(value, n)
      invariant RestZero(bitlenLl[..], bitlenD[..], hlit, next)
    {
      if next >= total { return false, next; }
      PutLength(bitlenLl, bitlenD, hlit, next, value);
      assert Repeat(value, n) + [value] == Repeat(value, n + 1);
      assert before + Repeat(value, n) + [value] == before + Repeat(value, n + 1);
      next := next + 1;
    }
    return true, next;
  }

  // ---- the run-length coded lengths ----

  /** What one loop iteration says about the reference decoder of code lengths. */
  ghost predicate LengthsStepped(cl: seq<nat>, bits: seq<Bit>, total: nat, pos: nat, acc: seq<nat>,
                                 error: int, pos1: nat, acc1: seq<nat>)
    requires |acc| <= total
  {
    && pos < pos1
    && (error == 0 ==> |acc| < |acc1| <= total)
    && CodeLengths(cl, bits, pos, total, acc)
    == if error != 0 || pos1 > |bits| then None else CodeLengths(cl, bits, pos1, total, acc1)
  }

  method ReadRepeat(reader: Reader, bitlenLl: array<nat>, bitlenD: array<nat>, hlit: nat, total: nat, i: nat, code: nat)
    returns (error: int, next: nat)
    requires bitlenLl != bitlenD && hlit <= bitlenLl.Length && i < total <= hlit + bitlenD.Length
    requires code == 16 ==> i > 0
    requires RestZero(bitlenLl[..], bitlenD[..], hlit, i)
    requires reader.Valid() && reader.avail >= 7 && 16 <= code <= 18
    modifies reader, bitlenLl, bitlenD
    ensures reader.Valid()
    ensures var bits, pos, acc := Stream(reader.data), old(reader.bp), old(ReadSoFar(bitlenLl[..], bitlenD[..], hlit, i));
            var x := if code == 16 then acc[|acc| - 1] else 0;
            var extra := if code == 16 then 2 else if code == 17 then 3 else 7;
            var n := (if code == 18 then 11 else 3) + Peek(bits, pos, extra);
            && reader.bp == pos + extra
            && (error == 0 <==> i + n <= total)
            && (error == 0 ==> next == i + n && RestZero(bitlenLl[..], bitlenD[..], hlit, next)
                               && ReadSoFar(bitlenLl[..], bitlenD[..], hlit, next) == acc + Repeat(x, n))
  {
    hide Peek;
    hide Stream;
    hide RestZero;
    var ok;
    if code == 16 {
      var replength := 3;
      var more := reader.ReadBits(2);
      replength := replength + more;
      var value;
      if i < hlit + 1 { value := bitlenLl[i - 1]; } else { value := bitlenD[i - hlit - 1]; }
      ok, next := RepeatLength(bitlenLl, bitlenD, hlit, total, i, value, replength);
      error := if ok then 0 else 13;
    } else if code == 17 {
      var replength := 3;
      var more := reader.ReadBits(3);
      replength := replength + more;
      ok, next := RepeatLength(bitlenLl, bitlenD, hlit, total, i, 0, replength);
      error := if ok then 0 else 14;
    } else {
      var replength := 11;
      var more := reader.ReadBits(7);
      replength := replength + more;
      ok, next := RepeatLength(bitlenLl, bitlenD, hlit, total, i, 0, replength);
      error := if ok then 0 else 15;
    }
  }

  method ReadLengthStep(reader: Reader, treeCl: Tree, bitlenLl: array<nat>, bitlenD: array<nat>,
                        hlit: nat, total: nat, i: nat)
    returns (error: int, next: nat)
    requires reader.Valid() && ValidTree(treeCl) && |treeCl.lengths| == NUM_CODE_LENGTH
    requires bitlenLl != bitlenD && hlit <= bitlenLl.Length && i < total <= hlit + bitlenD.Length
    requires RestZero(bitlenLl[..], bitlenD[..], hlit, i)
    modifies reader, bitlenLl, bitlenD
    ensures reader.Valid() && next <= total
    ensures error == 0 ==> RestZero(bitlenLl[..], bitlenD[..], hlit, next)
    ensures LengthsStepped(treeCl.lengths, Stream(reader.data), total,
                           old(reader.bp), old(ReadSoFar(bitlenLl[..], bitlenD[..], hlit, i)),
                           error, reader.bp, ReadSoFar(bitlenLl[..], bitlenD[..], hlit, next))
  {
    hide Peek;
    hide Stream;
    hide CodeAt;
    hide Decoded;
    hide Answers;
    hide Kraft;
    hide NextSymbol;
    hide CodeLengths;
    hide ReadSoFar;
    hide RestZero;
    ghost var bits, pos, acc := Stream(reader.data), reader.bp, ReadSoFar(bitlenLl[..], bitlenD[..], hlit, i);
    error, next := 0, i;
    reader.EnsureBits25();
    var code := DecodeSymbol(reader, treeCl);
    assert bitlenLl[..] == old(bitlenLl[..]) && bitlenD[..] == old(bitlenD[..]);
    DecodedSymbol(treeCl.lengths, bits, pos, code);
    CodeLengthsUnfold(treeCl.lengths, bits, pos, total, acc);
    if code <= 15 {
      PutLength(bitlenLl, bitlenD, hlit, i, code);
      next := i + 1;
    } else if code > 18 {
      error := 16;
    } else if code == 16 && i == 0 {
      error := 54;
    } else {
      var after;
      error, after := ReadRepeat(reader, bitlenLl, bitlenD, hlit, total, i, code);
      if error == 0 { next := after; }
    }
  }

  lemma {:induction false} CodeLengthsSmall(cl: seq<nat>, bits: seq<Bit>, pos: nat, total: nat, acc: seq<nat>)
    requires |acc| <= total && forall k :: 0 <= k < |acc| ==> acc[k] <= MAX_BITS
    ensures CodeLengths(cl, bits, pos, total, acc).Some? ==>
              forall k :: 0 <= k < total ==> CodeLengths(cl, bits, pos, total, acc).value.1[k] <= MAX_BITS
    decreases total - |acc|
  {
    hide NextSymbol;
    hide Peek;
    hide CodeLengths;
    if |acc| == total {
      CodeLengthsDone(cl, bits, pos, total, acc);
    } else {
      CodeLengthsUnfold(cl, bits, pos, total, acc);
      match NextSymbol(cl, bits, pos)
      case None =>
      case Some(s) =>
        var p := pos + cl[s];
        if s <= 15 {
          CodeLengthsSmall(cl, bits, p, total, acc + [s]);
        } else if !(s > 18 || (s == 16 && acc == [])) {
          var x := if s == 16 then acc[|acc| - 1] else 0;
          var extra := if s == 16 then 2 else if s == 17 then 3 else 7;
          var n := (if s == 18 then 11 else 3) + Peek(bits, p, extra);
          if p + extra <= |bits| && |acc| + n <= total {
            CodeLengthsSmall(cl, bits, p + extra, total, acc + Repeat(x, n));
          }
        }
    }
  }

  method ReadLengths(reader: Reader, treeCl: Tree, hlit: nat, hdist: nat)
    returns (error: int, bitlenLl: seq<nat>, bitlenD: seq<nat>)
    requires reader.Valid() && reader.bp <= |Stream(reader.data)|
    requires ValidTree(treeCl) && |treeCl.lengths| == NUM_CODE_LENGTH
    requires 0 < hlit <= NUM_LITLEN && hdist <= NUM_DISTANCE
    modifies reader
    ensures reader.Valid() && reader.bp > old(reader.bp)
    ensures |bitlenLl| == NUM_LITLEN && |bitlenD| == NUM_DISTANCE
    ensures var r := CodeLengths(treeCl.lengths, Stream(reader.data), old(reader.bp), hlit + hdist, []);
            && (error == 0 <==> r.Some?)
            && (error == 0 ==> !Past(reader) && r.value.0 == reader.bp && SplitLengths(r.value.1, hlit) == (bitlenLl, bitlenD))
  {
    hide Stream;
    hide Answers;
    hide Kraft;
    hide CodeLengths;
    hide RestZero;
    hide ReadSoFar;
    hide SplitLengths;
    hide ValidTree;
    hide Reader.Valid;
    Sizes(reader);
    ghost var bits, pos, cl := Stream(reader.data), reader.bp, treeCl.lengths;
    var total := hlit + hdist;
    var ll := new nat[NUM_LITLEN](_ => 0);
    var d := new nat[NUM_DISTANCE](_ => 0);
    NothingSoFar(ll[..], d[..], hlit);
    error := 0;
    var i := 0;
    while i < total
      invariant i <= total && reader.Valid() && pos <= reader.bp <= |bits|
      invariant i > 0 ==> pos < reader.bp
      invariant RestZero(ll[..], d[..], hlit, i)
      invariant CodeLengths(cl, bits, pos, total, [])
             == CodeLengths(cl, bits, reader.bp, total, ReadSoFar(ll[..], d[..], hlit, i))
    {
      var next;
      error, next := ReadLengthStep(reader, treeCl, ll, d, hlit, total, i);
      if error != 0 { return error, ll[..], d[..]; }
      if reader.bp > reader.bitsize { return 50, ll[..], d[..]; }
      i := next;
    }
    CodeLengthsDone(cl, bits, reader.bp, total, ReadSoFar(ll[..], d[..], hlit, i));
    SplitIsArrays(ll[..], d[..], hlit, total);
    return 0, ll[..], d[..];
  }

  // ---- fixed trees ----

  lemma KraftPush(a: seq<nat>, x: nat)
    requires ValidLengths(a) && 0 < x <= MAX_BITS
    ensures ValidLengths(a + [x]) && Kraft(a + [x]) == Kraft(a) + Weight(x)
  {
    assert (a + [x])[..|a|] == a;
  }

  lemma {:induction false} KraftRepeat(a: seq<nat>, x: nat, n: nat)
    requires ValidLengths(a) && 0 < x <= MAX_BITS
    ensures ValidLengths(a + Repeat(x, n)) && Kraft(a + Repeat(x, n)) == Kraft(a) + n * Weight(x)
  {
    hide Weight;
    hide Kraft;
    if n == 0 {
      assert a + Repeat(x, 0) == a;
    } else {
      KraftRepeat(a, x, n - 1);
      KraftPush(a + Repeat(x, n - 1), x);
      assert a + Repeat(x, n) == a + Repeat(x, n - 1) + [x];
      Distribute(n - 1, 1, Weight(x));
    }
  }

  lemma FixedLitLenAcceptable()
    ensures Acceptable(FixedLitLen()) && Kraft(FixedLitLen()) == Pow2(MAX_BITS)
  {
    hide Kraft;
    var e: seq<nat> := [];
    KraftRepeat(e, 8, 144);
    KraftRepeat(e + Repeat(8, 144), 9, 112);
    KraftRepeat(e + Repeat(8, 144) + Repeat(9, 112), 7, 24);
    KraftRepeat(e + Repeat(8, 144) + Repeat(9, 112) + Repeat(7, 24), 8, 8);
    assert FixedLitLen() == e + Repeat(8, 144) + Repeat(9, 112) + Repeat(7, 24) + Repeat(8, 8);
    KraftEmpty();
    Pow2Small();
  }

  lemma FixedDistanceAcceptable()
    ensures Acceptable(FixedDistance()) && Kraft(FixedDistance()) == Pow2(MAX_BITS)
  {
    hide Kraft;
    var e: seq<nat> := [];
    KraftRepeat(e, 5, 32);
    assert FixedDistance() == e + Repeat(5, 32);
    KraftEmpty();
    Pow2Small();
    Pow2Step(9);
  }

  lemma KraftEmpty()
    ensures Kraft([]) == 0
  {
  }

  method GenerateFixedLitLenTree() returns (error: int, tree: Tree)
    ensures error == 0 && ValidTree(tree) && tree.lengths == FixedLitLen()
  {
    hide Kraft;
    hide ValidTree;
    hide Acceptable;
    var bitlen := new nat[NUM_LITLEN];
    for i := 0 to 144
      invariant forall k :: 0 <= k < i ==> bitlen[k] == FixedLitLen()[k] <= MAX_BITS
    { bitlen[i] := 8; }
    for i := 144 to 256
      invariant forall k :: 0 <= k < i ==> bitlen[k] == FixedLitLen()[k] <= MAX_BITS
    { bitlen[i] := 9; }
    for i := 256 to 280
      invariant forall k :: 0 <= k < i ==> bitlen[k] == FixedLitLen()[k] <= MAX_BITS
    { bitlen[i] := 7; }
    for i := 280 to 288
      invariant forall k :: 0 <= k < i ==> bitlen[k] == FixedLitLen()[k] <= MAX_BITS
    { bitlen[i] := 8; }
    assert bitlen[..] == FixedLitLen();
    FixedLitLenAcceptable();
    error, tree := MakeFromLengths(bitlen[..], MAX_BITS);
  }

  method GenerateFixedDistanceTree() returns (error: int, tree: Tree)
    ensures error == 0 && ValidTree(tree) && tree.lengths == FixedDistance()
  {
    hide Kraft;
    hide ValidTree;
    hide Acceptable;
    var bitlen := new nat[NUM_DISTANCE];
    for i := 0 to NUM_DISTANCE
      invariant forall k :: 0 <= k < i ==> bitlen[k] == 5
    { bitlen[i] := 5; }
    assert bitlen[..] == FixedDistance();
    FixedDistanceAcceptable();
    error, tree := MakeFromLengths(bitlen[..], MAX_BITS);
  }

  // ---- dynamic trees ----

  lemma Sizes(reader: Reader)
    requires reader.Valid()
    ensures reader.bitsize == |Stream(reader.data)|
  {
  }

  /** The numbers of literal/length codes, distance codes and code length codes. */
  method ReadCounts(reader: Reader) returns (hlit: nat, hdist: nat, hclen: nat)
    requires reader.Valid()
    modifies reader
    ensures reader.Valid() && reader.bp == old(reader.bp) + 14
    ensures hlit == Peek(Stream(reader.data), old(reader.bp), 5) + 257 <= NUM_LITLEN
    ensures hdist == Peek(Stream(reader.data), old(reader.bp) + 5, 5) + 1 <= NUM_DISTANCE
    ensures hclen == Peek(Stream(reader.data), old(reader.bp) + 10, 4) + 4 <= NUM_CODE_LENGTH
  {
    hide Peek;
    hide Stream;
    hide Reader.Valid;
    ghost var bits, pos := Stream(reader.data), reader.bp;
    reader.EnsureBits17();
    hlit := reader.ReadBits(5);
    hdist := reader.ReadBits(5);
    hclen := reader.ReadBits(4);
    PeekBound(bits, pos, 5);
    PeekBound(bits, pos + 5, 5);
    PeekBound(bits, pos + 10, 4);
    Pow2Small();
    hlit, hdist, hclen := hlit + 257, hdist + 1, hclen + 4;
  }

  /** The header of a dynamic block: fails exactly when the reference decoder does. */
  method GetTreeInflateDynamic(reader: Reader) returns (error: int, treeL: Tree, treeD: Tree)
    requires reader.Valid() && reader.bp <= |Stream(reader.data)|
    modifies reader
    ensures reader.Valid() && reader.bp >= old(reader.bp)
    ensures var r := DynamicTrees(Stream(reader.data), old(reader.bp));
            && (error == 0 <==> r.Some?)
            && (error == 0 ==> r.value == Trees(reader.bp, treeL.lengths, treeD.lengths)
                               && ValidTree(treeL) && ValidTree(treeD))
  {
    hide Peek;
    hide Stream;
    hide Answers;
    hide Kraft;
    hide CodeLengths;
    hide ClLengths;
    hide SplitLengths;
    hide Acceptable;
    hide Reader.Valid;
    Sizes(reader);
    ghost var bits, pos := Stream(reader.data), reader.bp;
    var empty := HuffmanTree.Tree([], [], HuffmanTable.Table([], []));
    if reader.bitsize - reader.bp < 14 { return 49, empty, empty; }
    var hlit, hdist, hclen := ReadCounts(reader);
    if reader.bp + hclen * 3 > reader.bitsize { return 50, empty, empty; }
    var bitlenCl := ReadClLengths(reader, hclen);
    ClLengthsSmall(bits, pos + 14, hclen);
    var treeCl;
    error, treeCl := MakeFromLengths(bitlenCl, 7);
    if error != 0 { return error, empty, empty; }
    var bitlenLl, bitlenD;
    error, bitlenLl, bitlenD := ReadLengths(reader, treeCl, hlit, hdist);
    if error != 0 { return error, empty, empty; }
    CodeLengthsSmall(bitlenCl, bits, pos + 14 + 3 * hclen, hlit + hdist, []);
    SplitSmall(CodeLengths(bitlenCl, bits, pos + 14 + 3 * hclen, hlit + hdist, []).value.1, hlit);
    error, treeL, treeD := MakeTrees(bitlenLl, bitlenD);
  }

  method MakeTrees(bitlenLl: seq<nat>, bitlenD: seq<nat>) returns (error: int, treeL: Tree, treeD: Tree)
    requires |bitlenLl| == NUM_LITLEN && |bitlenD| == NUM_DISTANCE
    requires forall k :: 0 <= k < |bitlenLl| ==> bitlenLl[k] <= MAX_BITS
    requires forall k :: 0 <= k < |bitlenD| ==> bitlenD[k] <= MAX_BITS
    ensures error == 0 <==> bitlenLl[256] != 0 && Acceptable(bitlenLl) && Acceptable(bitlenD)
    ensures error == 0 ==> ValidTree(treeL) && treeL.lengths == bitlenLl
    ensures error == 0 ==> ValidTree(treeD) && treeD.lengths == bitlenD
  {
    hide Acceptable;
    hide ValidTree;
    treeL, treeD := HuffmanTree.Tree([], [], HuffmanTable.Table([], [])), HuffmanTree.Tree([], [], HuffmanTable.Table([], []));
    if bitlenLl[256] == 0 { return 64, treeL, treeD; }
    error, treeL := MakeFromLengths(bitlenLl, MAX_BITS);
    if error != 0 { return; }
    error, treeD := MakeFromLengths(bitlenD, MAX_BITS);
  }

  lemma SplitSmall(lens: seq<nat>, hlit: nat)
    requires hlit <= |lens| && hlit <= NUM_LITLEN && |lens| <= hlit + NUM_DISTANCE
    requires forall k :: 0 <= k < |lens| ==> lens[k] <= MAX_BITS
    ensures var (ll, d) := SplitLengths(lens, hlit);
            (forall k :: 0 <= k < |ll| ==> ll[k] <= MAX_BITS) && (forall k :: 0 <= k < |d| ==> d[k] <= MAX_BITS)
  {
  }
}
