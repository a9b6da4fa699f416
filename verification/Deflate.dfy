/** The DEFLATE compressor, block by block. */
module Deflate {
  import opened Bits
  import opened Canonical
  import opened HuffmanTree
  import opened InflateSpec
  import opened InflateTrees
  import opened DeflateSpec
  import opened DynamicHeader
  import opened DeflateBlocks
  import opened DeflateTrees
  import opened BitWriter
  import opened Vectors
  import opened HashChains
  import opened Lz77Encoder
  import SymbolCost

  datatype CompressSettings = CompressSettings(btype: nat, useLz77: bool, lz77: Lz77Settings)

  // ---- what a block is made of ----

  /** The hash chains are ready for the data from pos on; without LZ77 they are never looked at. */
  ghost predicate HashReady(hash: Hash, data: seq<Byte>, pos: nat, settings: CompressSettings)
    reads hash, hash.head, hash.val, hash.headz, hash.chain, hash.chainz, hash.zeros
  {
    settings.useLz77 ==>
      hash.Valid(data) && !hash.forgotten && hash.count == pos && hash.windowsize == settings.lz77.windowsize
  }

  /** The values of a block: the codes of the encoder's decisions, or without LZ77 the bytes themselves. */
  ghost predicate ValuesOf(data: seq<Byte>, from: nat, to: nat, settings: CompressSettings, tokens: seq<Token>, values: seq<nat>)
    requires from <= to <= |data|
  {
    if settings.useLz77 then Parses(data, from, to, settings.lz77, tokens, values, to) else values == data[from..to]
  }

  /** What the header of a dynamic block describes: the two codes, the runs that their lengths make, the code of
    those, and how many of its lengths are sent. */
  datatype Header = Header(ll: seq<nat>, d: seq<nat>, cl: seq<nat>, n: nat, e: seq<nat>)

  /** Shortest codes for the values, and a shortest code for the runs of their lengths, cut as far as it can be. */
  ghost predicate HeaderFor(values: seq<nat>, h: Header)
    requires WellFormed(values)
  {
    && BestCode(h.ll, LitFrequencies(values), 257, 15) && BestCode(h.d, DistFrequencies(values), 2, 15)
    && h.e == LengthRuns.RunsOf(h.ll + h.d) && RunsFormed(h.e) && BestCode(h.cl, RunFrequencies(h.e), 19, 7)
    && HeaderOk(h.ll, h.d, h.cl, h.n, h.e) && CutShort(h.cl, h.n)
    && Coded(h.ll, h.d, values)
  }

  /** No length sent after the first four is a trailing zero. */
  ghost predicate CutShort(cl: seq<nat>, n: nat)
  {
    4 < n <= NUM_CODE_LENGTH == |cl| ==> cl[CLCL_ORDER[n - 1]] != 0
  }

  const NO_HEADER := Header([], [], [], 0, [])

  /** A compressed block of data[from..to]. */
  datatype Piece = Piece(from: nat, to: nat, final: bool, btype: nat, values: seq<nat>, tokens: seq<Token>, header: Header,
                         bits: seq<Bit>)

  /** The bits are what the block's type says, for values that the settings ask for. */
  ghost predicate PieceOk(data: seq<Byte>, settings: CompressSettings, p: Piece)
  {
    && p.from <= p.to <= |data| && WellFormed(p.values)
    && ValuesOf(data, p.from, p.to, settings, p.tokens, p.values)
    && if p.btype == 1 then
         && Coded(FixedLitLen(), FixedDistance(), p.values)
         && p.bits == TypeBits(p.final, 1) + DataBits(FixedLitLen(), FixedDistance(), p.values)
       else
         && p.btype == 2 && HeaderFor(p.values, p.header)
         && p.bits == TypeBits(p.final, 2) + (HeaderBits(p.header.ll, p.header.d, p.header.cl, p.header.n, p.header.e)
                                              + DataBits(p.header.ll, p.header.d, p.values))
  }

  /** The first three bits of a block tell whether it is the last, and its type. */
  lemma PieceHead(data: seq<Byte>, settings: CompressSettings, p: Piece, s: seq<Bit>, pos: nat)
    requires PieceOk(data, settings, p) && At(s, pos, p.bits)
    ensures pos + 3 <= |s| && Peek(s, pos, 1) == (if p.final then 1 else 0) && Peek(s, pos + 1, 2) == p.btype
  {
    hide Peek;
    hide TypeBits;
    hide ValuesOf;
    hide HeaderFor;
    hide Coded;
    hide DataBits;
    var head := TypeBits(p.final, p.btype);
    TypeBitsThree(p.final, p.btype);
    AtConcat(s, pos, head, p.bits[3..]);
    assert p.bits == head + p.bits[3..];
    TypeDecode(p.final, p.btype, s, pos);
  }

  /** The LZ77 codes of data[datapos..dataend], or the bytes themselves without LZ77. */
  method BlockValues(hash: Hash, data: seq<Byte>, datapos: nat, dataend: nat, settings: CompressSettings)
    returns (error: int, values: seq<nat>, ghost tokens: seq<Token>)
    requires datapos <= dataend <= |data| && HashReady(hash, data, datapos, settings)
    modifies hash, hash.head, hash.val, hash.chain, hash.headz, hash.chainz, hash.zeros
    ensures error == 0 <==> (settings.useLz77 ==> WindowSizeOk(settings.lz77.windowsize))
    ensures error == 0 ==> HashReady(hash, data, dataend, settings)
    ensures error == 0 ==> Lz77.Expand(values, data[..datapos]) == Some(data[..dataend])
    ensures error == 0 ==> ValuesOf(data, datapos, dataend, settings, tokens, values)
  {
    hide Lz77.Expand;
    hide Hash.Valid;
    hide WindowSizeOk;
    hide Parses;
    if settings.useLz77 {
      error, values, tokens := EncodeLZ77(hash, data, datapos, dataend, settings.lz77);
    } else {
      error := 0;
      values, tokens := [], [];
      Lz77.NothingMore(data[..datapos]);
      for i := datapos to dataend
        invariant Lz77.Expand(values, data[..datapos]) == Some(data[..i]) && values == data[datapos..i]
      {
        Lz77.ExpandLiteral(values, data[..datapos], data, i);
        values := values + [data[i]];
      }
    }
  }

  method WriteType(writer: Writer, final: bool, btype: nat)
    requires writer.Valid() && btype <= 2
    modifies writer, writer.data, writer.data.data
    ensures writer.Valid() && writer.bits == old(writer.bits) + TypeBits(final, btype)
    ensures writer.data.data == old(writer.data.data) || fresh(writer.data.data)
  {
    hide Writer.Valid;
    Pow2Small();
    OneBit(if final then 1 else 0);
    OneBit(btype % 2);
    OneBit(btype / 2);
    writer.WriteBits(if final then 1 else 0, 1);
    writer.WriteBits(btype % 2, 1);
    writer.WriteBits(btype / 2, 1);
  }

  /** The codes, then the end code. */
  method WriteData(writer: Writer, values: seq<nat>, treeLl: Tree, treeD: Tree)
    requires writer.Valid() && ValidTree(treeLl) && ValidTree(treeD)
    requires Coded(treeLl.lengths, treeD.lengths, values) && |treeLl.lengths| > 256 && treeLl.lengths[256] > 0
    modifies writer, writer.data, writer.data.data
    ensures writer.Valid() && writer.bits == old(writer.bits) + DataBits(treeLl.lengths, treeD.lengths, values)
    ensures writer.data.data == old(writer.data.data) || fresh(writer.data.data)
  {
    hide Writer.Valid;
    hide ValidTree;
    hide Coded;
    hide ValuesBits;
    hide SymBits;
    WriteLZ77data(writer, values, treeLl, treeD);
    WriteSymbol(writer, treeLl, 256);
  }

  // ---- fixed blocks ----

  /** The writer and the hash chains share no memory. */
  ghost predicate Separate(writer: Writer, hash: Hash)
    reads writer, writer.data
  {
    var out: object := writer.data.data;
    && out != hash.head && out != hash.val && out != hash.chain
    && out != hash.headz && out != hash.chainz && out != hash.zeros
  }

  method DeflateFixed(writer: Writer, hash: Hash, data: seq<Byte>, datapos: nat, dataend: nat,
                      settings: CompressSettings, final: bool) returns (error: int, ghost p: Piece)
    requires writer.Valid() && Separate(writer, hash)
    requires datapos <= dataend <= |data| && HashReady(hash, data, datapos, settings)
    modifies writer, writer.data, writer.data.data
    modifies hash, hash.head, hash.val, hash.chain, hash.headz, hash.chainz, hash.zeros
    ensures error == 0 <==> (settings.useLz77 ==> WindowSizeOk(settings.lz77.windowsize))
    ensures writer.Valid()
    ensures error == 0 ==> HashReady(hash, data, dataend, settings)
    ensures error == 0 ==> Appends(old(writer.bits), data[..datapos], writer.bits, data[..dataend], final)
    ensures error == 0 ==> PieceOk(data, settings, p) && writer.bits == old(writer.bits) + p.bits
    ensures p.from == datapos && p.to == dataend && p.final == final && p.btype == 1
    ensures writer.data.data == old(writer.data.data) || fresh(writer.data.data)
  {
    hide Writer.Valid;
    hide Hash.Valid;
    hide WindowSizeOk;
    hide ValidTree;
    hide Coded;
    hide DataBits;
    hide TypeBits;
    hide Lz77.Expand;
    hide Appends;
    hide ValuesOf;
    ghost var before := writer.bits;
    var treeLl, treeD, values;
    ghost var tokens;
    p := Piece(datapos, dataend, final, 1, [], [], NO_HEADER, []);
    error, treeLl := GenerateFixedLitLenTree();
    error, treeD := GenerateFixedDistanceTree();
    WriteType(writer, final, 1);
    error, values, tokens := BlockValues(hash, data, datapos, dataend, settings);
    if error == 0 {
      ExpandWellFormed(values, data[..datapos]);
      FullCoded(FixedLitLen(), FixedDistance(), values);
      WriteData(writer, values, treeLl, treeD);
      FixedAppends(before, data[..datapos], values, final);
      p := p.(values := values, tokens := tokens, bits := TypeBits(final, 1) + DataBits(FixedLitLen(), FixedDistance(), values));
    }
  }

  // ---- dynamic blocks ----

  method WriteDynamicBlock(writer: Writer, values: seq<nat>, ghost start: seq<Byte>, final: bool) returns (error: int, ghost h: Header)
    requires writer.Valid() && Lz77.Expand(values, start).Some?
    modifies writer, writer.data, writer.data.data
    ensures error == 0 && writer.Valid()
    ensures Appends(old(writer.bits), start, writer.bits, Lz77.Expand(values, start).value, final)
    ensures WellFormed(values) && HeaderFor(values, h)
    ensures writer.bits == old(writer.bits) + TypeBits(final, 2) + (HeaderBits(h.ll, h.d, h.cl, h.n, h.e) + DataBits(h.ll, h.d, values))
    ensures writer.data.data == old(writer.data.data) || fresh(writer.data.data)
  {
    hide Writer.Valid;
    hide ValidTree;
    hide Coded;
    hide RunsCoded;
    hide Decodable;
    hide DataBits;
    hide HeaderBits;
    hide TypeBits;
    hide LengthRuns.Expand;
    hide Lz77.Expand;
    hide Appends;
    hide BestCode;
    hide CutShort;
    hide Trimmed;
    hide RunsFormed;
    hide WellFormed;
    hide LengthRuns.RunsOf;
    ghost var before := writer.bits;
    var treeLl, treeD;
    ExpandWellFormed(values, start);
    error, treeLl, treeD := MakeDataTrees(values);
    var lld := treeLl.lengths + treeD.lengths;
    var buffer, count := LengthRuns.EncodeLengths(lld);
    var e := buffer[..count];
    var treeCl, n;
    error, treeCl, n := MakeClTree(e);
    WriteType(writer, final, 2);
    WriteHeader(writer, treeLl.lengths, treeD.lengths, e, n, treeCl);
    ghost var written := writer.bits;
    WriteData(writer, values, treeLl, treeD);
    h := Header(treeLl.lengths, treeD.lengths, treeCl.lengths, n, e);
    DynamicAppends(before, start, treeLl.lengths, treeD.lengths, treeCl.lengths, n, e, values, final);
    assert writer.bits == before + TypeBits(final, 2)
      + (HeaderBits(treeLl.lengths, treeD.lengths, treeCl.lengths, n, e) + DataBits(treeLl.lengths, treeD.lengths, values));
  }

  method DeflateDynamic(writer: Writer, hash: Hash, data: seq<Byte>, datapos: nat, dataend: nat,
                        settings: CompressSettings, final: bool) returns (error: int, ghost p: Piece)
    requires writer.Valid() && Separate(writer, hash)
    requires datapos <= dataend <= |data| && HashReady(hash, data, datapos, settings)
    modifies writer, writer.data, writer.data.data
    modifies hash, hash.head, hash.val, hash.chain, hash.headz, hash.chainz, hash.zeros
    ensures error == 0 <==> (settings.useLz77 ==> WindowSizeOk(settings.lz77.windowsize))
    ensures writer.Valid()
    ensures error == 0 ==> HashReady(hash, data, dataend, settings)
    ensures error == 0 ==> Appends(old(writer.bits), data[..datapos], writer.bits, data[..dataend], final)
    ensures error == 0 ==> PieceOk(data, settings, p) && writer.bits == old(writer.bits) + p.bits
    ensures p.from == datapos && p.to == dataend && p.final == final && p.btype == 2
    ensures writer.data.data == old(writer.data.data) || fresh(writer.data.data)
  {
    hide Writer.Valid;
    hide Hash.Valid;
    hide WindowSizeOk;
    hide Lz77.Expand;
    hide Appends;
    hide ValuesOf;
    hide HeaderFor;
    hide TypeBits;
    hide DataBits;
    hide Coded;
    hide PieceOk;
    hide HeaderBits;
    hide HeaderOk;
    hide WellFormed;
    ghost var before := writer.bits;
    var values;
    ghost var tokens;
    p := Piece(datapos, dataend, final, 2, [], [], NO_HEADER, []);
    error, values, tokens := BlockValues(hash, data, datapos, dataend, settings);
    if error == 0 {
      ghost var h;
      error, h := WriteDynamicBlock(writer, values, data[..datapos], final);
      p := DynamicPiece(data, datapos, dataend, settings, final, tokens, values, h);
      assert writer.bits == before + p.bits;
    }
  }

  /** The piece that a dynamic block is. */
  ghost function DynamicPiece(data: seq<Byte>, from: nat, to: nat, settings: CompressSettings, final: bool,
                              tokens: seq<Token>, values: seq<nat>, h: Header): (p: Piece)
    requires from <= to <= |data| && ValuesOf(data, from, to, settings, tokens, values)
    requires WellFormed(values) && HeaderFor(values, h)
    ensures PieceOk(data, settings, p) && p.from == from && p.to == to && p.final == final && p.btype == 2
    ensures HeaderOk(h.ll, h.d, h.cl, h.n, h.e) && Coded(h.ll, h.d, values)
    ensures p.bits == TypeBits(final, 2) + (HeaderBits(h.ll, h.d, h.cl, h.n, h.e) + DataBits(h.ll, h.d, values))
  {
    Piece(from, to, final, 2, values, tokens, h,
          TypeBits(final, 2) + (HeaderBits(h.ll, h.d, h.cl, h.n, h.e) + DataBits(h.ll, h.d, values)))
  }

  /** The two trees of a dynamic block, fit for its values. */
  method MakeDataTrees(values: seq<nat>) returns (error: int, treeLl: Tree, treeD: Tree)
    requires WellFormed(values)
    ensures error == 0 && ValidTree(treeLl) && ValidTree(treeD)
    ensures Decodable(treeLl.lengths) && Decodable(treeD.lengths)
    ensures Coded(treeLl.lengths, treeD.lengths, values)
    ensures BestCode(treeLl.lengths, LitFrequencies(values), 257, 15) && BestCode(treeD.lengths, DistFrequencies(values), 2, 15)
    ensures 257 <= |treeLl.lengths| <= 286 && treeLl.lengths[256] > 0 && 2 <= |treeD.lengths| <= 30
    ensures forall k :: 0 <= k < |treeLl.lengths + treeD.lengths| ==> (treeLl.lengths + treeD.lengths)[k] <= 15
  {
    hide ValidTree;
    hide Coded;
    hide Decodable;
    hide SymbolCost.Shortest;
    hide BestCode;
    var fl, fd := CountFrequencies(values);
    Pow2Small();
    error, treeLl := MakeFromFrequencies(fl, 257, 15);
    error, treeD := MakeFromFrequencies(fd, 2, 15);
    CodedWithin(fl, fd, treeLl.lengths, treeD.lengths, values);
    TreeIsBest(treeLl, fl, 257, 15);
    TreeIsBest(treeD, fd, 2, 15);
  }

  /** The tree for the code lengths themselves. */
  method MakeClTree(e: seq<nat>) returns (error: int, tree: Tree, n: nat)
    requires LengthRuns.Expand(e, []).Some?
    ensures error == 0 && ValidTree(tree) && Decodable(tree.lengths) && |tree.lengths| == NUM_CODE_LENGTH
    ensures (forall s :: 0 <= s < |tree.lengths| ==> tree.lengths[s] <= 7)
    ensures Trimmed(tree.lengths, n) && RunsCoded(tree.lengths, e) && CutShort(tree.lengths, n)
    ensures RunsFormed(e) && BestCode(tree.lengths, RunFrequencies(e), 19, 7)
  {
    hide ValidTree;
    hide RunsCoded;
    hide Decodable;
    hide SymbolCost.Shortest;
    hide BestCode;
    hide LengthRuns.Expand;
    var f := CountRunFrequencies(e, []);
    Pow2Small();
    error, tree := MakeFromFrequencies(f, NUM_CODE_LENGTH, 7);
    RunsCodedWithin(f, tree.lengths, e);
    TreeIsBest(tree, f, NUM_CODE_LENGTH, 7);
    n := TrimmedCount(tree.lengths);
  }

  // ---- stored blocks ----

  method PutFive(a: array<Byte>, pos: nat, firstbyte: Byte, len: nat, nlen: nat)
    requires pos + 5 <= a.Length && len < 65536 && nlen < 65536
    modifies a
    ensures a[..pos] == old(a[..pos])
    ensures a[pos..pos + 5] == [firstbyte, len % 256, len / 256, nlen % 256, nlen / 256]
  {
    a[pos + 0] := firstbyte;
    a[pos + 1] := len % 256;
    a[pos + 2] := len / 256;
    a[pos + 3] := nlen % 256;
    a[pos + 4] := nlen / 256;
  }

  /** Makes room for a stored block and writes its first five bytes. */
  method PutStoredHead(out: UcVector, len: nat, final: bool)
    requires out.Valid() && len <= 65535
    modifies out, out.data
    ensures out.Valid() && out.size == old(out.size) + 5 + len
    ensures out.Contents()[..old(out.size) + 5] == old(out.Contents()) + StoredHead(len, final)
    ensures out.data == old(out.data) || fresh(out.data)
  {
    var pos, nlen := out.size, 65535 - len;
    ghost var before, head := out.Contents(), StoredHead(len, final);
    out.Resize(out.size + len + 5);
    assert out.data[..pos] == out.Contents()[..pos] == before;
    PutFive(out.data, pos, if final then 1 else 0, len, nlen);
    assert out.data[..pos + 5] == out.data[..pos] + out.data[pos..pos + 5];
  }

  /** Appends one stored block. */
  method PutStored(out: UcVector, block: seq<Byte>, final: bool)
    requires out.Valid() && |block| <= 65535
    modifies out, out.data
    ensures out.Valid() && out.Contents() == old(out.Contents()) + StoredBlock(block, final)
    ensures out.data == old(out.data) || fresh(out.data)
  {
    hide StoredHead;
    PutStoredHead(out, |block|, final);
    out.CopyToEnd(block, |block|);
    assert old(out.Contents()) + StoredBlock(block, final) == old(out.Contents()) + StoredHead(|block|, final) + block;
  }

  /** Data in stored blocks of 65535 bytes, the last of what is left. */
  ghost function StoredStream(data: seq<Byte>): seq<Byte>
  {
    if data == [] then []
    else if |data| <= 65535 then StoredBlock(data, true)
    else StoredBlock(data[..65535], false) + StoredStream(data[65535..])
  }

  /** Stored block k begins with a byte that is 1 for the last block and 0 for the others: the type bits are clear. */
  lemma {:induction false} StoredHeadAt(data: seq<Byte>, k: nat)
    requires 65535 * k < |data|
    ensures 65540 * k < |StoredStream(data)|
    ensures StoredStream(data)[65540 * k] == if 65535 * (k + 1) >= |data| then 1 else 0
  {
    if k > 0 { StoredHeadAt(data[65535..], k - 1); }
  }

  method DeflateNoCompression(out: UcVector, data: seq<Byte>) returns (ghost z: seq<Byte>)
    requires out.Valid()
    modifies out, out.data
    ensures out.Valid() && out.Contents() == old(out.Contents()) + z
    ensures out.data == old(out.data) || fresh(out.data)
    ensures data != [] ==> Appends([], [], Stream(z), data, true)
    ensures z == StoredStream(data)
  {
    hide Appends;
    hide StoredBlock;
    hide StoredStream;
    hide Stream;
    var numdeflateblocks := (|data| + 65534) / 65535;
    var datapos := 0;
    z := [];
    StreamNothing();
    AppendsNothing([], []);
    assert data[..0] == [] && data[0..] == data;
    for i := 0 to numdeflateblocks
      invariant out.Valid() && out.Contents() == old(out.Contents()) + z
      invariant out.data == old(out.data) || fresh(out.data)
      invariant datapos == if i == numdeflateblocks then |data| else 65535 * i
      invariant datapos <= |data|
      invariant z + StoredStream(data[datapos..]) == StoredStream(data)
      invariant Appends([], [], Stream(z), data[..datapos], i > 0 && i == numdeflateblocks)
    {
      var final := i == numdeflateblocks - 1;
      var len := if |data| - datapos < 65535 then |data| - datapos else 65535;
      var block := data[datapos..datapos + len];
      PutStored(out, block, final);
      StoredAppends(z, data[..datapos], block, final);
      assert data[..datapos] + block == data[..datapos + len];
      AppendsMore([], [], Stream(z), data[..datapos], Stream(z + StoredBlock(block, final)), data[..datapos + len], final);
      StoredNext(data, datapos, z);
      z := z + StoredBlock(block, final);
      datapos := datapos + len;
    }
    assert data[..|data|] == data && data[|data|..] == [];
    NothingStored();
  }

  lemma StoredNext(data: seq<Byte>, at: nat, z: seq<Byte>)
    requires at < |data|
    ensures var len := Min(65535, |data| - at);
            z + StoredStream(data[at..])
            == z + StoredBlock(data[at..at + len], at + len == |data|) + StoredStream(data[at + len..])
  {
    hide StoredBlock;
    var len := Min(65535, |data| - at);
    assert data[at..][..len] == data[at..at + len] && data[at..][len..] == data[at + len..];
    NothingStored();
    if len < 65535 || at + len == |data| { assert data[at..at + len] == data[at..]; }
  }

  lemma NothingStored()
    ensures StoredStream([]) == []
  {
  }

  lemma StreamNothing()
    ensures Stream([]) == []
  {
  }

  // ---- whole streams ----

  /** z inflates to data, with or without the length check, whatever bytes follow it. */
  ghost predicate InflatesTo(z: seq<Byte>, data: seq<Byte>)
  {
    forall tail, ignore :: Inflated(z + tail, [], ignore) == Some(data)
  }

  lemma AppendsInflates(bits: seq<Bit>, z: seq<Byte>, data: seq<Byte>)
    requires Appends([], [], bits, data, true) && bits <= Stream(z)
    ensures InflatesTo(z, data)
  {
    hide Blocks;
    hide Stream;
    var nothing: seq<Bit> := [];
    forall tail, ignore ensures Inflated(z + tail, [], ignore) == Some(data) {
      StreamConcat(z, tail);
      assert Blocks(Stream(z + tail), 0, [], ignore) == Blocks(Stream(z + tail), |nothing|, [], ignore);
    }
  }

  /** Where block i starts. */
  function Edge(insize: nat, blocksize: nat, i: nat): (r: nat)
    ensures r <= insize
  {
    Min(i * blocksize, insize)
  }

  function NumBlocks(insize: nat, blocksize: nat): nat
    requires blocksize > 0
  {
    Max(1, (insize + blocksize - 1) / blocksize)
  }

  /** Splitting into blocks: each starts inside the data, only the last is cut short, and together they cover it. */
  lemma BlocksCover(insize: nat, blocksize: nat, i: nat)
    requires blocksize > 0 && i < NumBlocks(insize, blocksize)
    ensures Edge(insize, blocksize, i) == i * blocksize
    ensures Edge(insize, blocksize, i + 1) == Min(i * blocksize + blocksize, insize)
    ensures i + 1 == NumBlocks(insize, blocksize) ==> Edge(insize, blocksize, i + 1) == insize
  {
    var q := (insize + blocksize - 1) / blocksize;
    assert q * blocksize <= insize + blocksize - 1 < q * blocksize + blocksize;
    assert (i + 1) * blocksize == i * blocksize + blocksize;
    if q == 0 {
      assert insize == 0;
    } else {
      assert (q - 1) * blocksize == q * blocksize - blocksize;
      MulMonotone(i, q - 1, blocksize);
    }
  }

  lemma FirstEdge(insize: nat, blocksize: nat)
    ensures Edge(insize, blocksize, 0) == 0
  {
  }

  /** The settings the encoder takes; LZ77 alone restricts the window. */
  predicate SettingsOk(settings: CompressSettings)
  {
    settings.btype == 0
    || (settings.btype <= 2 && (settings.useLz77 ==> WindowSizeOk(settings.lz77.windowsize)))
  }

  ghost function BlockSize(insize: nat, btype: nat): nat
  {
    if btype == 1 then insize else Max(65536, Min(262144, insize / 8 + 8))
  }

  ghost function PieceBits(pieces: seq<Piece>): seq<Bit>
  {
    if pieces == [] then [] else PieceBits(pieces[..|pieces| - 1]) + pieces[|pieces| - 1].bits
  }

  /** The pieces are the first blocks of a stream: they divide the data, and only the last block is final. */
  ghost predicate PiecesOk(data: seq<Byte>, settings: CompressSettings, pieces: seq<Piece>)
    requires BlockSize(|data|, settings.btype) > 0
  {
    forall k: nat :: k < |pieces| ==> PieceAt(data, settings, k, pieces[k])
  }

  ghost predicate PieceAt(data: seq<Byte>, settings: CompressSettings, k: nat, p: Piece)
    requires BlockSize(|data|, settings.btype) > 0
  {
    var size := BlockSize(|data|, settings.btype);
    && p.from == Edge(|data|, size, k) && p.to == Edge(|data|, size, k + 1)
    && p.final == (k + 1 == NumBlocks(|data|, size)) && p.btype == settings.btype
    && PieceOk(data, settings, p)
  }

  lemma PiecesMore(data: seq<Byte>, settings: CompressSettings, pieces: seq<Piece>, p: Piece)
    requires BlockSize(|data|, settings.btype) > 0
    requires PiecesOk(data, settings, pieces) && PieceAt(data, settings, |pieces|, p)
    ensures PiecesOk(data, settings, pieces + [p]) && PieceBits(pieces + [p]) == PieceBits(pieces) + p.bits
  {
    hide PieceAt;
    assert (pieces + [p])[..|pieces|] == pieces;
  }

  /** Where block k begins in the stream. */
  lemma {:induction false} PieceBegins(pieces: seq<Piece>, k: nat, s: seq<Bit>)
    requires k < |pieces| && PieceBits(pieces) <= s
    ensures |PieceBits(pieces[..k])| + |pieces[k].bits| <= |s| && At(s, |PieceBits(pieces[..k])|, pieces[k].bits)
  {
    var n := |pieces| - 1;
    if k < n {
      assert pieces[..n][..k] == pieces[..k];
      PieceBegins(pieces[..n], k, s);
    }
  }

  /** Every block's first bits: whether it is the last, and the type that was asked for. */
  ghost predicate HeadsAre(s: seq<Bit>, pieces: seq<Piece>, btype: nat)
  {
    forall k: nat :: k < |pieces| ==> HeadIs(s, |PieceBits(pieces[..k])|, k + 1 == |pieces|, btype)
  }

  ghost predicate HeadIs(s: seq<Bit>, pos: nat, final: bool, btype: nat)
  {
    pos + 3 <= |s| && Peek(s, pos, 1) == (if final then 1 else 0) && Peek(s, pos + 1, 2) == btype
  }

  lemma PieceHeads(data: seq<Byte>, settings: CompressSettings, pieces: seq<Piece>, s: seq<Bit>)
    requires BlockSize(|data|, settings.btype) > 0 && PiecesOk(data, settings, pieces) && PieceBits(pieces) <= s
    requires |pieces| == NumBlocks(|data|, BlockSize(|data|, settings.btype))
    ensures HeadsAre(s, pieces, settings.btype)
  {
    hide PieceOk;
    hide Peek;
    hide PieceBits;
    hide NumBlocks;
    hide BlockSize;
    hide Edge;
    forall k: nat | k < |pieces| ensures HeadIs(s, |PieceBits(pieces[..k])|, k + 1 == |pieces|, settings.btype) {
      assert PieceAt(data, settings, k, pieces[k]);
      PieceBegins(pieces, k, s);
      PieceHead(data, settings, pieces[k], s, |PieceBits(pieces[..k])|);
    }
  }

  /** How the data is split: one fixed block, or dynamic blocks of 64 to 256 kilobytes. */
  method PlanBlocks(insize: nat, btype: nat) returns (blocksize: nat, numdeflateblocks: nat)
    requires 1 <= btype <= 2 && (btype == 1 ==> insize > 0)
    ensures blocksize == BlockSize(insize, btype)
    ensures blocksize > 0 && numdeflateblocks == NumBlocks(insize, blocksize)
  {
    if btype == 1 {
      blocksize := insize;
    } else {
      blocksize := insize / 8 + 8;
      if blocksize < 65536 { blocksize := 65536; }
      if blocksize > 262144 { blocksize := 262144; }
    }
    var q := (insize + blocksize - 1) / blocksize;
    assert NumBlocks(insize, blocksize) == Max(1, q);
    hide NumBlocks;
    numdeflateblocks := if q == 0 then 1 else q;
  }

  /** One more block, of the type asked for, after the blocks already written. */
  method WriteBlock(writer: Writer, hash: Hash, data: seq<Byte>, start: nat, end: nat,
                    settings: CompressSettings, final: bool) returns (error: int, ghost p: Piece)
    requires writer.Valid() && Separate(writer, hash) && 1 <= settings.btype <= 2
    requires start <= end <= |data| && HashReady(hash, data, start, settings)
    requires Appends([], [], writer.bits, data[..start], false)
    modifies writer, writer.data, writer.data.data
    modifies hash, hash.head, hash.val, hash.chain, hash.headz, hash.chainz, hash.zeros
    ensures error == 0 <==> SettingsOk(settings)
    ensures writer.Valid() && (error == 0 ==> HashReady(hash, data, end, settings))
    ensures error == 0 ==> Appends([], [], writer.bits, data[..end], final)
    ensures p.from == start && p.to == end && p.final == final && p.btype == settings.btype
    ensures error == 0 ==> PieceOk(data, settings, p) && writer.bits == old(writer.bits) + p.bits
    ensures error == 0 ==> HeadIs(writer.bits, |old(writer.bits)|, final, settings.btype)
    ensures writer.data.data == old(writer.data.data) || fresh(writer.data.data)
  {
    hide Writer.Valid;
    hide Hash.Valid;
    hide WindowSizeOk;
    hide Appends;
    hide PieceOk;
    hide Peek;
    ghost var before := writer.bits;
    if settings.btype == 1 {
      error, p := DeflateFixed(writer, hash, data, start, end, settings, final);
    } else {
      error, p := DeflateDynamic(writer, hash, data, start, end, settings, final);
    }
    if error == 0 {
      AppendsMore([], [], before, data[..start], writer.bits, data[..end], final);
      PieceHead(data, settings, p, writer.bits, |before|);
    }
  }

  method WriteBlocks(writer: Writer, hash: Hash, data: seq<Byte>, settings: CompressSettings)
    returns (error: int, ghost pieces: seq<Piece>)
    requires writer.Valid() && writer.bits == [] && Separate(writer, hash)
    requires 1 <= settings.btype <= 2 && (settings.btype == 1 ==> data != [])
    requires HashReady(hash, data, 0, settings)
    modifies writer, writer.data, writer.data.data
    modifies hash, hash.head, hash.val, hash.chain, hash.headz, hash.chainz, hash.zeros
    ensures error == 0 <==> SettingsOk(settings)
    ensures writer.Valid()
    ensures error == 0 ==> Appends([], [], writer.bits, data, true)
    ensures BlockSize(|data|, settings.btype) > 0
    ensures error == 0 ==> |pieces| == NumBlocks(|data|, BlockSize(|data|, settings.btype))
                           && PiecesOk(data, settings, pieces) && writer.bits == PieceBits(pieces)
    ensures writer.data.data == old(writer.data.data) || fresh(writer.data.data)
  {
    hide Writer.Valid;
    hide Hash.Valid;
    hide WindowSizeOk;
    hide Appends;
    hide PieceOk;
    hide PiecesOk;
    hide PieceBits;
    hide HeadIs;
    var insize := |data|;
    var blocksize, numdeflateblocks := PlanBlocks(insize, settings.btype);
    hide NumBlocks;
    hide Edge;
    hide BlockSize;
    AppendsNothing([], []);
    FirstEdge(insize, blocksize);
    NoPieces(data, settings);
    assert data[..0] == [];
    error, pieces := 0, [];
    var i := 0;
    while i != numdeflateblocks && error == 0
      invariant i <= numdeflateblocks
      invariant i > 0 ==> (error == 0 <==> SettingsOk(settings))
      invariant i == 0 ==> error == 0
      invariant writer.data.data == old(writer.data.data) || fresh(writer.data.data)
      invariant writer.Valid() && (error == 0 ==> HashReady(hash, data, Edge(insize, blocksize, i), settings))
      invariant error == 0 ==>
                  Appends([], [], writer.bits, data[..Edge(insize, blocksize, i)], i > 0 && i == numdeflateblocks)
      invariant error == 0 ==> |pieces| == i && PiecesOk(data, settings, pieces) && writer.bits == PieceBits(pieces)
      invariant i > 0 && i == numdeflateblocks ==> Edge(insize, blocksize, i) == insize
      decreases numdeflateblocks - i
    {
      var final := i == numdeflateblocks - 1;
      BlocksCover(insize, blocksize, i);
      var start := i * blocksize;
      var end := start + blocksize;
      if end > insize { end := insize; }
      ghost var p;
      error, p := WriteBlock(writer, hash, data, start, end, settings, final);
      if error == 0 {
        PiecesMore(data, settings, pieces, p);
        pieces := pieces + [p];
      }
      i := i + 1;
    }
    assert data[..insize] == data;
  }

  lemma NoPieces(data: seq<Byte>, settings: CompressSettings)
    requires BlockSize(|data|, settings.btype) > 0
    ensures PiecesOk(data, settings, []) && PieceBits([]) == []
  {
  }

  /** What a stream is made of: stored blocks, or pieces that divide the data as the type asks. */
  ghost predicate StreamOf(z: seq<Byte>, data: seq<Byte>, settings: CompressSettings, pieces: seq<Piece>)
  {
    if settings.btype == 0 then z == StoredStream(data)
    else
      && BlockSize(|data|, settings.btype) > 0
      && |pieces| == NumBlocks(|data|, BlockSize(|data|, settings.btype)) && PiecesOk(data, settings, pieces)
      && z == Pack(PieceBits(pieces)) && HeadsAre(Stream(z), pieces, settings.btype)
  }

  /** Compresses data after what out already holds; the result inflates back to exactly data.
    A stored stream of nothing is the exception: it has no block at all. */
  method Deflatev(out: UcVector, data: seq<Byte>, settings: CompressSettings)
    returns (error: int, ghost z: seq<Byte>, ghost pieces: seq<Piece>)
    requires out.Valid()
    requires settings.btype == 1 ==> data != []
    modifies out, out.data
    ensures out.Valid() && (out.data == old(out.data) || fresh(out.data))
    ensures error == 0 <==> SettingsOk(settings)
    ensures error == 0 ==> out.Contents() == old(out.Contents()) + z
    ensures error == 0 ==> (InflatesTo(z, data) <==> data != [] || settings.btype == 2)
    ensures error == 0 ==> StreamOf(z, data, settings, pieces)
    ensures error == 0 && data == [] && settings.btype == 0 ==> z == []
  {
    hide Hash.Valid;
    hide WindowSizeOk;
    hide Appends;
    hide InflatesTo;
    hide Stream;
    hide Pack;
    hide PiecesOk;
    hide HeadsAre;
    hide NumBlocks;
    z, pieces := [], [];
    if settings.btype > 2 { return 61, z, pieces; }
    if settings.btype == 0 {
      z := DeflateNoCompression(out, data);
      if data != [] { AppendsInflates(Stream(z), z, data); } else { NothingInflates([], false); }
      return 0, z, pieces;
    }
    var writer := new Writer(out);
    var hash := new Hash(settings.lz77.windowsize);
    error, pieces := WriteBlocks(writer, hash, data, settings);
    if error == 0 {
      z := Pack(writer.bits);
      PackStream(writer.bits);
      AppendsInflates(writer.bits, z, data);
      PieceHeads(data, settings, pieces, Stream(z));
    }
  }

  /** No bytes are no stream. */
  lemma NothingInflates(out: seq<Byte>, ignore: bool)
    ensures Inflated([], out, ignore) == None && !InflatesTo([], out)
  {
    hide Blocks;
    StreamNothing();
    TooShort([], 0, out, ignore);
    TooShort([], 0, [], ignore);
    assert Inflated([] + [], [], ignore) == None;
  }
}
