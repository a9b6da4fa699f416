/** Whole blocks and whole streams: the buffered decoder refines the reference one. */
module InflateStream {
  import opened Bits
  import opened HuffmanTree
  import opened InflateSpec
  import opened BitReader
  import opened Vectors
  import opened Inflate
  import opened InflateTrees

  /** A result is acceptable when the reference decoder has one and it is not too large. */
  ghost predicate Fits(maxOutputSize: nat, out: seq<Byte>)
  {
    maxOutputSize == 0 || |out| <= maxOutputSize
  }

  /** error, bp and out are what the reference result r asks for. */
  ghost predicate Agrees(r: Option<(nat, seq<Byte>)>, maxOutputSize: nat, error: int, bp: nat, out: seq<Byte>)
  {
    && (error == 0 <==> r.Some? && Fits(maxOutputSize, r.value.1))
    && (error == 0 ==> r.value == (bp, out))
  }

  method InflateSymbols(out: UcVector, reader: Reader, treeL: Tree, treeD: Tree, maxOutputSize: nat)
    returns (error: int)
    requires out.Valid() && reader.Valid() && reader.bp <= |Stream(reader.data)|
    requires out.size + RESERVED_SIZE <= out.data.Length
    requires ValidTree(treeL) && |treeL.lengths| == NUM_LITLEN
    requires ValidTree(treeD) && |treeD.lengths| == NUM_DISTANCE
    modifies out, out.data, reader
    ensures out.Valid() && reader.Valid() && (out.data == old(out.data) || fresh(out.data))
    ensures Agrees(Symbols(treeL.lengths, treeD.lengths, Stream(reader.data), old(reader.bp), old(out.Contents())),
                   maxOutputSize, error, reader.bp, out.Contents())
  {
    hide Stream;
    hide ValidTree;
    hide Symbols;
    ghost var bits, ll, d := Stream(reader.data), treeL.lengths, treeD.lengths;
    ghost var r := Symbols(ll, d, bits, reader.bp, out.Contents());
    var done := false;
    error := 0;
    while error == 0 && !done
      invariant out.Valid() && reader.Valid() && (out.data == old(out.data) || fresh(out.data))
      invariant error == 0 && reader.bp <= |bits| && out.size + RESERVED_SIZE <= out.data.Length
      invariant r == if done then Some((reader.bp, out.Contents()))
                     else Symbols(ll, d, bits, reader.bp, out.Contents())
      invariant done ==> Fits(maxOutputSize, out.Contents())
      decreases !done, |bits| - reader.bp
    {
      error, done := InflateStep(out, reader, treeL, treeD);
      if error != 0 { return; }
      if out.data.Length - out.size < RESERVED_SIZE {
        out.Reserve(out.size + RESERVED_SIZE);
      }
      if reader.bp > reader.bitsize { return 51; }
      if maxOutputSize != 0 && out.size > maxOutputSize { return 109; }
    }
  }

  method InflateHuffmanBlock(out: UcVector, reader: Reader, btype: nat, maxOutputSize: nat, ghost ignoreNlen: bool)
    returns (error: int)
    requires out.Valid() && reader.Valid() && reader.bp <= |Stream(reader.data)|
    requires btype == 1 || btype == 2
    modifies out, out.data, reader
    ensures out.Valid() && reader.Valid() && (out.data == old(out.data) || fresh(out.data))
    ensures Agrees(Block(Stream(reader.data), old(reader.bp), btype, old(out.Contents()), ignoreNlen),
                   maxOutputSize, error, reader.bp, out.Contents())
  {
    hide Stream;
    hide ValidTree;
    hide Symbols;
    hide DynamicTrees;
    hide FixedLitLen;
    hide FixedDistance;
    hide Stored;
    hide Acceptable;
    var treeL, treeD;
    out.Reserve(out.size + RESERVED_SIZE);
    if btype == 1 {
      error, treeL := GenerateFixedLitLenTree();
      error, treeD := GenerateFixedDistanceTree();
    } else {
      error, treeL, treeD := GetTreeInflateDynamic(reader);
      if error != 0 { return; }
    }
    error := InflateSymbols(out, reader, treeL, treeD, maxOutputSize);
  }

  // ---- stored blocks ----

  lemma TwoByteValue(data: seq<Byte>, k: nat)
    requires k + 1 < |data|
    ensures Peek(Stream(data), 8 * k, 16) == data[k] + 256 * (data[k + 1] as int)
  {
    hide Peek;
    hide Stream;
    Word(data, k);
  }

  lemma StoredBytesAre(data: seq<Byte>, bytepos: nat, n: nat)
    requires bytepos + n <= |data|
    ensures StoredBytes(Stream(data), bytepos, n) == data[bytepos..bytepos + n]
  {
    hide *;
    var x := StoredBytes(Stream(data), bytepos, n);
    forall i | 0 <= i < n ensures x[i] == data[bytepos + i] {
      ByteOfStream(data, bytepos + i);
      assert x[i] == ByteOf(Stream(data), bytepos + i);
    }
    SliceIs(data, bytepos, n, x);
  }

  lemma SliceIs(data: seq<Byte>, at: nat, n: nat, x: seq<Byte>)
    requires at + n <= |data| && |x| == n && forall i :: 0 <= i < n ==> x[i] == data[at + i]
    ensures x == data[at..at + n]
  {
  }

  lemma ByteOfStream(data: seq<Byte>, k: nat)
    requires k < |data|
    ensures ByteOf(Stream(data), k) == data[k]
  {
    hide Peek;
    hide Stream;
    PeekByte(data, k);
  }

  method InflateNoCompression(out: UcVector, reader: Reader, settings: DecompressSettings) returns (error: int)
    requires out.Valid() && reader.Valid() && reader.bp <= |Stream(reader.data)|
    modifies out, out.data, reader
    ensures out.Valid() && (out.data == old(out.data) || fresh(out.data))
    ensures error == 0 ==> reader.Valid()
    ensures Agrees(Stored(Stream(reader.data), old(reader.bp), old(out.Contents()), settings.ignoreNlen),
                   0, error, reader.bp, out.Contents())
  {
    hide Peek;
    hide StoredBytes;
    hide Stream;
    hide Shr;
    hide Low;
    ghost var before := out.Contents();
    var data := reader.data;
    var bytepos := (reader.bp + 7) / 8;
    if bytepos + 4 >= |data| { return 52; }
    TwoByteValue(data, bytepos);
    TwoByteValue(data, bytepos + 2);
    var len := data[bytepos] + 256 * (data[bytepos + 1] as int);
    bytepos := bytepos + 2;
    var nlen := data[bytepos] + 256 * (data[bytepos + 1] as int);
    bytepos := bytepos + 2;
    if !settings.ignoreNlen && len + nlen != 65535 { return 21; }
    out.Resize(out.size + len);
    if bytepos + len > |data| { return 23; }
    StoredBytesAre(data, bytepos, len);
    out.CopyToEnd(data[bytepos..bytepos + len], len);
    bytepos := bytepos + len;
    reader.bp := bytepos * 8;
    reader.avail := 0;
    NothingAvailable(reader.buffer, Stream(data), reader.bp);
    error := 0;
  }

  lemma NothingAvailable(buffer: nat, bits: seq<Bit>, pos: nat)
    ensures Low(buffer, 0) == 0 == Peek(bits, pos, 0)
  {
  }

  // ---- streams ----

  /** One block, whatever its type. */
  method InflateBlock(out: UcVector, reader: Reader, btype: nat, settings: DecompressSettings) returns (error: int)
    requires out.Valid() && reader.Valid() && reader.bp <= |Stream(reader.data)| && btype < 4
    modifies out, out.data, reader
    ensures out.Valid() && (out.data == old(out.data) || fresh(out.data))
    ensures error == 0 ==> reader.Valid()
    ensures Agrees(Block(Stream(reader.data), old(reader.bp), btype, old(out.Contents()), settings.ignoreNlen),
                   settings.maxOutputSize, error, reader.bp, out.Contents())
  {
    hide Stream;
    hide Symbols;
    hide DynamicTrees;
    hide FixedLitLen;
    hide FixedDistance;
    hide Stored;
    if btype == 3 { return 20; }
    if btype == 0 {
      error := InflateNoCompression(out, reader, settings);
    } else {
      error := InflateHuffmanBlock(out, reader, btype, settings.maxOutputSize, settings.ignoreNlen);
    }
    if error == 0 && settings.maxOutputSize != 0 && out.size > settings.maxOutputSize { error := 109; }
  }

  /** Decompresses a whole stream: succeeds exactly when the reference decoder does, with its result. */
  method Inflatev(out: UcVector, input: seq<Byte>, settings: DecompressSettings) returns (error: int)
    requires out.Valid()
    modifies out, out.data
    ensures out.Valid() && (out.data == old(out.data) || fresh(out.data))
    ensures var r := Inflated(input, old(out.Contents()), settings.ignoreNlen);
            && (error == 0 <==> r.Some? && Fits(settings.maxOutputSize, r.value))
            && (error == 0 ==> out.Contents() == r.value)
  {
    hide Stream;
    hide Peek;
    hide Block;
    hide Blocks;
    var reader := new Reader(input);
    ghost var bits := Stream(input);
    ghost var ignore := settings.ignoreNlen;
    ghost var r := Blocks(bits, 0, out.Contents(), ignore);
    var bfinal := 0;
    error := 0;
    while bfinal == 0
      invariant out.Valid() && reader.Valid() && (out.data == old(out.data) || fresh(out.data))
      invariant error == 0 && reader.bp <= |bits|
      invariant bfinal == 0 ==> r == Blocks(bits, reader.bp, out.Contents(), ignore)
      invariant bfinal != 0 ==> r == Some(out.Contents()) && Fits(settings.maxOutputSize, out.Contents())
      decreases bfinal == 0, |bits| - reader.bp
    {
      ghost var pos, before := reader.bp, out.Contents();
      if reader.bitsize - reader.bp < 3 {
        TooShort(bits, pos, before, ignore);
        return 52;
      }
      BlocksUnfold(bits, pos, before, ignore);
      reader.EnsureBits9();
      bfinal := reader.ReadBits(1);
      var btype := reader.ReadBits(2);
      PeekBound(bits, pos, 1);
      PeekBound(bits, pos + 1, 2);
      Pow2Small();
      error := InflateBlock(out, reader, btype, settings);
      if error != 0 { return; }
    }
  }
}
