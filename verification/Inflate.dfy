/** The decompressor: buffered, table-driven, writing into a pre-reserved array. */
module Inflate {
  import opened Bits
  import opened Canonical
  import opened HuffmanTree
  import opened HuffmanTable
  import opened InflateSpec
  import opened BitReader
  import opened Vectors

  const RESERVED_SIZE := 260

  datatype DecompressSettings = DecompressSettings(ignoreNlen: bool, ignoreAdler32: bool, maxOutputSize: nat)

  // ---- one length/distance pair ----

  /** out[from..to] repeats what lies distance bytes before. */
  ghost predicate Repeats(data: seq<Byte>, before: seq<Byte>, to: nat, distance: nat)
    requires distance <= |before|
  {
    && |before| <= to <= |data| && data[..|before|] == before
    && forall k :: |before| <= k < to ==> data[k] == data[k - distance]
  }

  /** memcpy of n bytes from distance before the end, which may not overlap. */
  method CopyBlock(data: array<Byte>, start: nat, backward: nat, n: nat, ghost before: seq<Byte>)
    requires |before| == start <= data.Length - n && backward + n <= start && data[..start] == before
    modifies data
    ensures Repeats(data[..], before, start + n, start - backward)
  {
    for i := 0 to n
      invariant Repeats(data[..], before, start + i, start - backward)
    {
      data[start + i] := data[backward + i];
    }
  }

  /** Copies a match; the source block-copies what cannot overlap and goes byte by byte after that. */
  method CopyMatch(out: UcVector, distance: nat, length: nat)
    requires out.Valid() && 1 <= distance <= out.size && out.size + length <= out.data.Length
    modifies out`size, out.data
    ensures out.Valid() && out.Contents() == Copy(old(out.Contents()), distance, length)
  {
    hide Copy;
    ghost var before := out.Contents();
    var start := out.size;
    var backward := start - distance;
    out.size := out.size + length;
    if distance < length {
      CopyBlock(out.data, start, backward, distance, before);
      start := start + distance;
      for forward := distance to length
        invariant out.size == |before| + length && out.data == old(out.data)
        invariant start == |before| + forward && backward == start - 2 * distance
        invariant Repeats(out.data[..], before, start, distance)
      {
        assert out.data[start - distance] == out.data[start - distance - distance];
        out.data[start] := out.data[backward];
        start := start + 1;
        backward := backward + 1;
      }
    } else {
      CopyBlock(out.data, start, backward, length, before);
    }
    assert out.Contents()[..|before|] == before;
    CopyUnique(before, distance, length, out.Contents());
  }

  /** The reader has run past the end of its data. */
  ghost predicate Past(reader: Reader)
    reads reader
  {
    reader.bp > |Stream(reader.data)|
  }

  /** Decoding a symbol agrees with the reference as long as the reader stays inside the data. */
  lemma DecodedSymbol(lengths: seq<nat>, bits: seq<Bit>, pos: nat, s: nat)
    requires ValidLengths(lengths)
    requires Decoded(lengths, bits, pos, s)
    ensures s == INVALID_SYMBOL ==> NextSymbol(lengths, bits, pos) == None
    ensures s != INVALID_SYMBOL ==> s < |lengths| && lengths[s] > 0
    ensures s != INVALID_SYMBOL ==>
              NextSymbol(lengths, bits, pos) == if pos + lengths[s] <= |bits| then Some(s) else None
  {
    hide CodeAt;
    if s != INVALID_SYMBOL {
      CodeAtSymbol(lengths, s, bits, pos);
      NextSymbolIs(lengths, bits, pos, s);
    }
  }

  /** A length symbol stands for a length of 3 to 258. */
  lemma ExtraBits(bits: seq<Bit>, pos: nat, s: nat)
    requires FIRST_LENGTH_CODE <= s <= LAST_LENGTH_CODE
    ensures LengthExtra(s) <= 5
    ensures 3 <= LengthBase(s) + Peek(bits, pos, LengthExtra(s)) <= 258
  {
    hide Peek;
    Pow2Small();
    PeekBound(bits, pos, LengthExtra(s));
  }

  lemma NoBits(bits: seq<Bit>, pos: nat)
    ensures Peek(bits, pos, 0) == 0
  {
  }

  method ReadLength(reader: Reader, s: nat) returns (length: nat)
    requires reader.Valid() && FIRST_LENGTH_CODE <= s <= LAST_LENGTH_CODE
    modifies reader
    ensures reader.Valid() && reader.bp == old(reader.bp) + LengthExtra(s)
    ensures length == LengthBase(s) + Peek(Stream(reader.data), old(reader.bp), LengthExtra(s))
    ensures 3 <= length <= 258
  {
    hide Peek;
    hide Stream;
    hide LengthBase;
    hide LengthExtra;
    ghost var bits, pos := Stream(reader.data), reader.bp;
    ExtraBits(bits, pos, s);
    length := LengthBase(s);
    var numextrabits := LengthExtra(s);
    if numextrabits != 0 {
      reader.EnsureBits25();
      var extra := reader.ReadBits(numextrabits);
      length := length + extra;
    } else {
      NoBits(bits, pos);
    }
  }

  method ReadDistance(reader: Reader, t: nat) returns (distance: nat)
    requires reader.Valid() && t <= 29 && reader.avail >= 13
    modifies reader
    ensures reader.Valid() && reader.bp == old(reader.bp) + DistanceExtra(t)
    ensures distance == DistanceBase(t) + Peek(Stream(reader.data), old(reader.bp), DistanceExtra(t))
    ensures distance >= 1
  {
    hide Peek;
    hide Stream;
    hide DistanceBase;
    hide DistanceExtra;
    ghost var bits, pos := Stream(reader.data), reader.bp;
    DistanceAtLeastOne(t);
    distance := DistanceBase(t);
    var numextrabits := DistanceExtra(t);
    if numextrabits != 0 {
      var extra := reader.ReadBits(numextrabits);
      distance := distance + extra;
    } else {
      NoBits(bits, pos);
    }
  }

  /** Everything of a match but its copy. */
  method ReadPair(reader: Reader, treeD: Tree, s: nat, ghost out: seq<Byte>)
    returns (error: int, length: nat, distance: nat)
    requires reader.Valid() && ValidTree(treeD) && |treeD.lengths| == NUM_DISTANCE
    requires FIRST_LENGTH_CODE <= s <= LAST_LENGTH_CODE
    modifies reader
    ensures reader.Valid() && reader.bp > old(reader.bp)
    ensures error == 0 ==> 3 <= length <= 258 && distance >= 1
    ensures Match(treeD.lengths, Stream(reader.data), old(reader.bp), s, out)
         == if error != 0 || Past(reader) || distance > |out| then None
            else Some((reader.bp, Copy(out, distance, length)))
  {
    hide Peek;
    hide Stream;
    hide CodeAt;
    hide Decoded;
    hide Copy;
    hide Answers;
    hide Kraft;
    hide DistanceBase;
    hide DistanceExtra;
    hide LengthBase;
    hide LengthExtra;
    hide NextSymbol;
    ghost var bits, pos := Stream(reader.data), reader.bp;
    length := ReadLength(reader, s);
    distance := 0;
    reader.EnsureBits32();
    var codeD := DecodeSymbol(reader, treeD);
    DecodedSymbol(treeD.lengths, bits, pos + LengthExtra(s), codeD);
    if codeD > 29 {
      if codeD <= 31 { error := 18; } else { error := 16; }
      return;
    }
    distance := ReadDistance(reader, codeD);
    error := 0;
  }

  // ---- one block ----

  /** What one loop iteration from (pos, out) to (pos1, out1) says about the reference decoder. */
  ghost predicate Stepped(ll: seq<nat>, d: seq<nat>, bits: seq<Bit>, pos: nat, out: seq<Byte>,
                          error: int, done: bool, pos1: nat, out1: seq<Byte>)
  {
    && |out| <= |out1|
    && pos < pos1
    && Symbols(ll, d, bits, pos, out)
    == if error != 0 || pos1 > |bits| then None
       else if done then Some((pos1, out1))
       else Symbols(ll, d, bits, pos1, out1)
  }

  /** Acts on a decoded symbol: a literal, a length, the end code or an error. */
  method FinishSymbol(out: UcVector, reader: Reader, treeL: Tree, treeD: Tree, code: nat, ghost pos: nat)
    returns (error: int, done: bool)
    requires out.Valid() && reader.Valid() && out.size + 258 <= out.data.Length
    requires ValidTree(treeL) && |treeL.lengths| == NUM_LITLEN
    requires ValidTree(treeD) && |treeD.lengths| == NUM_DISTANCE
    requires Decoded(treeL.lengths, Stream(reader.data), pos, code)
    requires code != INVALID_SYMBOL ==> code < |treeL.lengths| && reader.bp == pos + treeL.lengths[code]
    requires pos < reader.bp
    modifies reader, out`size, out.data
    ensures out.Valid() && reader.Valid()
    ensures old(reader.bp) <= reader.bp && out.size <= old(out.size) + 258
    ensures Stepped(treeL.lengths, treeD.lengths, Stream(reader.data), pos, old(out.Contents()),
                    error, done, reader.bp, out.Contents())
  {
    hide Peek;
    hide Stream;
    hide CodeAt;
    hide Decoded;
    hide Copy;
    hide Answers;
    hide Kraft;
    hide NextSymbol;
    hide Match;
    hide Symbols;
    ghost var bits, before := Stream(reader.data), out.Contents();
    error, done := 0, false;
    DecodedSymbol(treeL.lengths, bits, pos, code);
    SymbolsUnfold(treeL.lengths, treeD.lengths, bits, pos, before);
    if code <= 255 {
      out.PushBack(code);
    } else if FIRST_LENGTH_CODE <= code <= LAST_LENGTH_CODE {
      var length, distance;
      error, length, distance := ReadPair(reader, treeD, code, before);
      if error != 0 { return; }
      if distance > out.size { return 52, done; }
      CopyMatch(out, distance, length);
    } else if code == 256 {
      done := true;
    } else {
      error := 16;
    }
  }

  /** One iteration of the source's loop, which reads two symbols at once after a literal. */
  method InflateStep(out: UcVector, reader: Reader, treeL: Tree, treeD: Tree) returns (error: int, done: bool)
    requires out.Valid() && reader.Valid() && out.size + RESERVED_SIZE <= out.data.Length
    requires ValidTree(treeL) && |treeL.lengths| == NUM_LITLEN
    requires ValidTree(treeD) && |treeD.lengths| == NUM_DISTANCE
    modifies reader, out`size, out.data
    ensures out.Valid() && reader.Valid()
    ensures out.size <= old(out.size) + 259
    ensures Stepped(treeL.lengths, treeD.lengths, Stream(reader.data), old(reader.bp), old(out.Contents()),
                    error, done, reader.bp, out.Contents())
  {
    hide Peek;
    hide Stream;
    hide CodeAt;
    hide Decoded;
    hide Answers;
    hide Kraft;
    hide NextSymbol;
    hide Match;
    hide Symbols;
    ghost var bits, pos, before := Stream(reader.data), reader.bp, out.Contents();
    reader.EnsureBits32();
    var code := DecodeSymbol(reader, treeL);
    if code <= 255 {
      DecodedSymbol(treeL.lengths, bits, pos, code);
      SymbolsUnfold(treeL.lengths, treeD.lengths, bits, pos, before);
      out.PushBack(code);
      ghost var first := reader.bp;
      code := DecodeSymbol(reader, treeL);
      error, done := FinishSymbol(out, reader, treeL, treeD, code, first);
    } else {
      error, done := FinishSymbol(out, reader, treeL, treeD, code, pos);
    }
  }
}
