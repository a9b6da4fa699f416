/** zlib streams (RFC 1950): a header, DEFLATE data and a checksum of what it expands to. */
module Zlib {
  import opened Bits
  import opened InflateSpec
  import opened Vectors
  import opened Inflate
  import opened InflateStream
  import opened Deflate
  import opened DeflateBlocks
  import opened Adler

  // ---- 32-bit numbers, most significant byte first ----

  function Read32(b: seq<Byte>, pos: nat): (r: nat)
    requires pos + 4 <= |b|
    ensures r < TWO_32
  {
    16777216 * (b[pos] as int) + 65536 * (b[pos + 1] as int) + 256 * (b[pos + 2] as int) + b[pos + 3]
  }

  function Bytes32(v: nat): (r: seq<Byte>)
    requires v < TWO_32
    ensures |r| == 4
  {
    [v / 16777216, v / 65536 % 256, v / 256 % 256, v % 256]
  }

  lemma FourDigits(v: nat)
    ensures v == 16777216 * (v / 16777216) + 65536 * (v / 65536 % 256) + 256 * (v / 256 % 256) + v % 256
  {
    var a := v / 256;
    var b := a / 256;
    assert v / 65536 == b && v / 16777216 == b / 256;
  }

  lemma Read32Bytes32(v: nat, prefix: seq<Byte>)
    requires v < TWO_32
    ensures Read32(prefix + Bytes32(v), |prefix|) == v
  {
    var b := prefix + Bytes32(v);
    FourDigits(v);
    assert b[|prefix|] == v / 16777216 && b[|prefix| + 1] == v / 65536 % 256;
    assert b[|prefix| + 2] == v / 256 % 256 && b[|prefix| + 3] == v % 256;
  }

  // ---- the shortest stream ----

  lemma {:induction false} SymbolsConsume(ll: seq<nat>, d: seq<nat>, bits: seq<Bit>, pos: nat, out: seq<Byte>, n: nat)
    requires forall s :: 0 <= s < |ll| ==> ll[s] >= n
    ensures Symbols(ll, d, bits, pos, out).Some? ==> pos + n <= |bits|
  {
    hide Symbols;
    hide NextSymbol;
    hide Match;
    SymbolsUnfold(ll, d, bits, pos, out);
  }

  /** No stream fits in one byte, so the checksum after it never starts before the input does. */
  lemma StreamTwoBytes(data: seq<Byte>, out: seq<Byte>, ignoreNlen: bool)
    requires Inflated(data, out, ignoreNlen).Some?
    ensures |data| >= 2
  {
    hide Symbols;
    hide Blocks;
    hide Peek;
    hide Stream;
    var bits := Stream(data);
    if |bits| < 3 {
      TooShort(bits, 0, out, ignoreNlen);
    } else {
      BlocksUnfold(bits, 0, out, ignoreNlen);
      SymbolsConsume(FixedLitLen(), FixedDistance(), bits, 3, out, 7);
    }
  }

  // ---- decompression ----

  /** A two-byte header: a multiple of 31, DEFLATE with a window of at most 32768, no dictionary. */
  predicate GoodHeader(input: seq<Byte>)
  {
    && |input| >= 2
    && (256 * (input[0] as int) + input[1]) % 31 == 0
    && input[0] % 16 == 8 && input[0] / 16 <= 7 && input[1] / 32 % 2 == 0
  }

  method CheckHeader(input: seq<Byte>) returns (error: int)
    ensures error == 0 <==> GoodHeader(input)
    ensures error != 0 ==> error == if |input| < 2 then 53 else if (256 * (input[0] as int) + input[1]) % 31 != 0 then 24
                                    else if input[0] % 16 != 8 || input[0] / 16 > 7 then 25 else 26
  {
    if |input| < 2 { return 53; }
    if (256 * (input[0] as int) + input[1]) % 31 != 0 { return 24; }
    var cm := input[0] % 16;
    var cinfo := input[0] / 16 % 16;
    var fdict := input[1] / 32 % 2;
    if cm != 8 || cinfo > 7 { return 25; }
    if fdict != 0 { return 26; }
    error := 0;
  }

  /** What a zlib stream decompresses to, appended to out: a good header, good data, a good checksum. */
  ghost function Unzipped(input: seq<Byte>, out: seq<Byte>, settings: DecompressSettings): Option<seq<Byte>>
  {
    if !GoodHeader(input) then None
    else
      match Inflated(input[2..], out, settings.ignoreNlen)
      case None => None
      case Some(r) =>
        if settings.ignoreAdler32 then Some(r)
        else
          StreamTwoBytes(input[2..], out, settings.ignoreNlen);
          if Read32(input, |input| - 4) == Adler32(r) then Some(r) else None
  }

  lemma HeaderSize(input: seq<Byte>)
    requires GoodHeader(input)
    ensures |input| >= 2
  {
  }

  /** Succeeds exactly when there is a good result within the size limit, and yields it. */
  method Decompressv(out: UcVector, input: seq<Byte>, settings: DecompressSettings) returns (error: int)
    requires out.Valid()
    modifies out, out.data
    ensures out.Valid() && (out.data == old(out.data) || fresh(out.data))
    ensures var r := Unzipped(input, old(out.Contents()), settings);
            && (error == 0 <==> r.Some? && Fits(settings.maxOutputSize, r.value))
            && (error == 0 ==> out.Contents() == r.value)
  {
    hide Adler32;
    hide Read32;
    hide Inflated;
    hide GoodHeader;
    ghost var before := out.Contents();
    error := CheckHeader(input);
    if error != 0 { return; }
    HeaderSize(input);
    error := Inflatev(out, input[2..], settings);
    if error != 0 { return; }
    if !settings.ignoreAdler32 {
      StreamTwoBytes(input[2..], before, settings.ignoreNlen);
      var expected := Read32(input, |input| - 4);
      var checksum := ComputeAdler32(out.data[..out.size]);
      if checksum != expected { return 58; }
    }
  }

  // ---- compression ----

  const CMF := 120

  /** Compresses data into a fresh vector; an error leaves it empty. */
  method Compress(data: seq<Byte>, settings: CompressSettings)
    returns (error: int, out: UcVector, ghost z: seq<Byte>, ghost pieces: seq<Piece>)
    requires settings.btype == 1 ==> data != []
    ensures out.Valid() && fresh(out) && fresh(out.data)
    ensures error == 0 <==> SettingsOk(settings)
    ensures error != 0 ==> out.Contents() == []
    ensures error == 0 ==> out.Contents() == [0x78, 0x01] + z + Bytes32(Adler32(data)) && StreamOf(z, data, settings, pieces)
    ensures error == 0 && (data != [] || settings.btype == 2) ==>
              forall ds: DecompressSettings :: Unzipped(out.Contents(), [], ds) == Some(data)
    ensures error == 0 && data == [] && settings.btype == 0 ==>
              forall ds: DecompressSettings :: Unzipped(out.Contents(), [], ds) == None
  {
    hide Adler32;
    hide Read32;
    hide Unzipped;
    hide InflatesTo;
    hide SettingsOk;
    hide StreamOf;
    var deflated := new UcVector([]);
    error, z, pieces := Deflatev(deflated, data, settings);
    out := new UcVector([]);
    if error == 0 {
      var adler32 := ComputeAdler32(data);
      var cmfflg := 256 * CMF;
      var fcheck := 31 - cmfflg % 31;
      cmfflg := cmfflg + fcheck;
      out := new UcVector([cmfflg / 256, cmfflg % 256] + deflated.data[..deflated.size] + Bytes32(adler32));
      assert out.Contents() == [120, 1] + z + Bytes32(Adler32(data));
      if data != [] || settings.btype == 2 {
        forall ds: DecompressSettings ensures Unzipped(out.Contents(), [], ds) == Some(data) {
          UnzippedFrame(z, data, ds);
        }
      } else {
        forall ds: DecompressSettings ensures settings.btype == 0 ==> Unzipped(out.Contents(), [], ds) == None {
          if settings.btype == 0 { UnzippedNothing(ds); }
        }
      }
    }
  }

  /** Header, data and checksum as the encoder frames them. */
  lemma UnzippedFrame(z: seq<Byte>, data: seq<Byte>, settings: DecompressSettings)
    requires InflatesTo(z, data)
    ensures Unzipped([120, 1] + z + Bytes32(Adler32(data)), [], settings) == Some(data)
  {
    hide Adler32;
    hide Read32;
    hide Inflated;
    hide Bytes32;
    var input := [120, 1] + z + Bytes32(Adler32(data));
    assert input[2..] == z + Bytes32(Adler32(data));
    Read32Bytes32(Adler32(data), [120, 1] + z);
    assert Inflated(z + Bytes32(Adler32(data)), [], settings.ignoreNlen) == Some(data);
  }

  /** A stored stream of nothing: a header and a checksum with no block between them. */
  lemma UnzippedNothing(settings: DecompressSettings)
    ensures Unzipped([120, 1] + [] + Bytes32(Adler32([])), [], settings) == None
  {
    assert Adler32([]) == 1 && Bytes32(1) == [0, 0, 0, 1];
    assert ([120, 1] + [] + [0, 0, 0, 1])[2..] == [0, 0, 0, 1];
    hide Adler32;
    hide Bytes32;
    ChecksumAlone([0, 0, 0, 1], settings.ignoreNlen);
  }

  /** Four bytes that begin with a zero are at best the head of a stored block. */
  lemma ChecksumAlone(data: seq<Byte>, ignore: bool)
    requires |data| == 4 && data[0] == 0
    ensures Inflated(data, [], ignore) == None
  {
    hide *;
    var bits := Stream(data);
    PeekByte(data, 0);
    FlagByte(bits, 0, false);
    BlocksUnfold(bits, 0, [], ignore);
    NoStored(bits, ignore);
    InflatedIs(data, [], ignore);
  }

  lemma NoStored(bits: seq<Bit>, ignore: bool)
    requires |bits| == 32
    ensures Block(bits, 3, 0, [], ignore) == None
  {
    hide Peek;
  }

  lemma InflatedIs(data: seq<Byte>, out: seq<Byte>, ignore: bool)
    ensures Inflated(data, out, ignore) == Blocks(Stream(data), 0, out, ignore)
  {
    hide Blocks;
    hide Stream;
  }

  // ---- round trip ----

  /** What was compressed decompresses, checksum and all, to the same bytes; only a stored stream of nothing does not. */
  method ZlibRoundTrip(data: seq<Byte>, compress: CompressSettings, decompress: DecompressSettings)
    returns (error: int, result: seq<Byte>)
    requires SettingsOk(compress) && (compress.btype == 1 ==> data != [])
    ensures error == 0 <==> (data != [] || compress.btype == 2) && Fits(decompress.maxOutputSize, data)
    ensures error == 0 ==> result == data
  {
    hide Unzipped;
    hide StreamOf;
    hide Lz77Encoder.WindowSizeOk;
    var zipped, out;
    ghost var z, pieces;
    error, zipped, z, pieces := Compress(data, compress);
    out := new UcVector([]);
    var stream := zipped.data[..zipped.size];
    assert stream == zipped.Contents() && out.Contents() == [];
    assert Unzipped(stream, [], decompress) == if data != [] || compress.btype == 2 then Some(data) else None;
    error := Decompressv(out, stream, decompress);
    result := out.data[..out.size];
    assert result == out.Contents();
  }

  /** DEFLATE alone: inflating what was deflated gives the same bytes back. */
  method DeflateRoundTrip(data: seq<Byte>, compress: CompressSettings, decompress: DecompressSettings)
    returns (error: int, result: seq<Byte>)
    requires SettingsOk(compress) && (compress.btype == 1 ==> data != [])
    ensures error == 0 <==> (data != [] || compress.btype == 2) && Fits(decompress.maxOutputSize, data)
    ensures error == 0 ==> result == data
  {
    hide Blocks;
    hide StreamOf;
    hide Lz77Encoder.WindowSizeOk;
    var zipped := new UcVector([]);
    var out := new UcVector([]);
    ghost var z, pieces;
    error, z, pieces := Deflatev(zipped, data, compress);
    var stream := zipped.data[..zipped.size];
    assert stream == zipped.Contents() == [] + z == z + [] && out.Contents() == [];
    if data != [] || compress.btype == 2 {
      assert Inflated(z + [], [], decompress.ignoreNlen) == Some(data);
    } else {
      NothingInflates([], decompress.ignoreNlen);
    }
    error := Inflatev(out, stream, decompress);
    result := out.data[..out.size];
    assert result == out.Contents();
  }
}
