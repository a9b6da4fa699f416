/** The decoder's bit reader: a 32-bit look-ahead buffer over a byte string. */
module BitReader {
  import opened Bits

  // ---- what a loaded word holds ----

  lemma TwoBytes(data: seq<Byte>, k: nat)
    ensures Peek(Stream(data), 8 * k, 16)
         == Peek(Stream(data), 8 * k, 8) + 256 * Peek(Stream(data), 8 * (k + 1), 8)
  {
    hide *;
    Pow2Small();
    PeekSplit(Stream(data), 8 * k, 8, 8);
  }

  lemma ThreeBytes(data: seq<Byte>, k: nat)
    ensures Peek(Stream(data), 8 * k, 24)
         == Peek(Stream(data), 8 * k, 16) + 65536 * Peek(Stream(data), 8 * (k + 2), 8)
  {
    hide *;
    Pow2Small();
    PeekSplit(Stream(data), 8 * k, 16, 8);
  }

  lemma FourBytes(data: seq<Byte>, k: nat)
    ensures Peek(Stream(data), 8 * k, 32)
         == Peek(Stream(data), 8 * k, 24) + 16777216 * Peek(Stream(data), 8 * (k + 3), 8)
  {
    hide *;
    Pow2Small();
    PeekSplit(Stream(data), 8 * k, 24, 8);
  }

  /** The byte at k, or zero past the end. */
  function ByteAt(data: seq<Byte>, k: nat): Byte
  {
    if k < |data| then data[k] else 0
  }

  /** Four bytes as one little-endian word. */
  lemma Word(data: seq<Byte>, k: nat)
    ensures Peek(Stream(data), 8 * k, 16) == ByteAt(data, k) + 256 * ByteAt(data, k + 1)
    ensures Peek(Stream(data), 8 * k, 24)
         == ByteAt(data, k) + 256 * ByteAt(data, k + 1) + 65536 * ByteAt(data, k + 2)
    ensures Peek(Stream(data), 8 * k, 32)
         == ByteAt(data, k) + 256 * ByteAt(data, k + 1) + 65536 * ByteAt(data, k + 2) + 16777216 * ByteAt(data, k + 3)
  {
    hide Peek;
    hide Stream;
    PeekByte(data, k);
    PeekByte(data, k + 1);
    PeekByte(data, k + 2);
    PeekByte(data, k + 3);
    TwoBytes(data, k);
    ThreeBytes(data, k);
    FourBytes(data, k);
  }

  /** Shifting out the bits before bp leaves the stream at bp in the low bits. */
  lemma Shifted(bits: seq<Bit>, bp: nat, word: nat, n: nat, m: nat)
    requires bp % 8 + m <= n && word == Peek(bits, 8 * (bp / 8), n)
    ensures Shr(word, bp % 8) == Peek(bits, bp, n - bp % 8)
    ensures Low(Shr(word, bp % 8), m) == Peek(bits, bp, m)
  {
    hide *;
    PeekLow(bits, 8 * (bp / 8), n, bp % 8);
    assert 8 * (bp / 8) + bp % 8 == bp;
    PeekLow(bits, bp, n - bp % 8, m);
  }

  lemma ShlTwice(d: nat, a: nat, b: nat)
    ensures Shl(Shl(d, a), b) == Pow2(a + b) * d
  {
    Pow2Add(a, b);
    hide Pow2;
    var p, q := Pow2(a), Pow2(b);
    assert d * p * q == (p * q) * d;
  }

  /** A byte shifted to the top of a 32-bit word loses all but its low r bits. */
  lemma TopByte(d: Byte, r: nat)
    requires r <= 8
    ensures Low(Shl(Shl(d, 24), 8 - r), 32) == Pow2(32 - r) * Low(d, r)
  {
    hide *;
    var k := 32 - r;
    ShlTwice(d, 24, 8 - r);
    SplitUnique(0, d, k);
    assert 0 + Pow2(k) * d == Pow2(k) * d;
    LowSplit(Pow2(k) * d, k, r);
  }

  lemma FifthByte(data: seq<Byte>, bp: nat, word: nat, top: Byte)
    requires word == Peek(Stream(data), 8 * (bp / 8), 32) && top == ByteAt(data, bp / 8 + 4)
    ensures Shr(word, bp % 8) + Low(Shl(Shl(top, 24), 8 - bp % 8), 32) == Peek(Stream(data), bp, 32)
  {
    hide Peek;
    hide Stream;
    hide Shr;
    hide Low;
    hide Pow2;
    var bits, r := Stream(data), bp % 8;
    Shifted(bits, bp, word, 32, 0);
    TopByte(top, r);
    PeekByte(data, bp / 8 + 4);
    PeekLow(bits, 8 * (bp / 8 + 4), 8, r);
    PeekSplit(bits, bp, 32 - r, r);
    assert bp + (32 - r) == 8 * (bp / 8 + 4);
  }

  // ---- the reader ----

  class Reader {
    const data: seq<Byte>
    const bitsize: nat
    var bp: nat
    var buffer: nat
    /** How many low bits of the buffer are known to be the stream at bp. */
    ghost var avail: nat

    ghost predicate Valid()
      reads this
    {
      && bitsize == 8 * |data|
      && Low(buffer, avail) == Peek(Stream(data), bp, avail)
    }

    constructor (input: seq<Byte>)
      ensures Valid() && data == input && bp == 0
    {
      data := input;
      bitsize := 8 * |input|;
      bp := 0;
      buffer := 0;
      avail := 0;
    }

    method EnsureBits9()
      requires Valid()
      modifies this`buffer, this`avail
      ensures Valid() && avail == 9
    {
      hide Peek;
      hide Stream;
      hide Shr;
      hide Low;
      var start := bp / 8;
      ghost var word := 0;
      if start + 1 < |data| {
        buffer := data[start] + 256 * (data[start + 1] as int);
        word := buffer;
        buffer := Shr(buffer, bp % 8);
      } else {
        buffer := 0;
        if start < |data| { buffer := data[start]; }
        word := buffer;
        buffer := Shr(buffer, bp % 8);
      }
      avail := 9;
      Word(data, start);
      Shifted(Stream(data), bp, word, 16, 9);
    }

    method EnsureBits17()
      requires Valid()
      modifies this`buffer, this`avail
      ensures Valid() && avail == 17
    {
      hide Peek;
      hide Stream;
      hide Shr;
      hide Low;
      var start := bp / 8;
      ghost var word := 0;
      if start + 2 < |data| {
        buffer := data[start] + 256 * (data[start + 1] as int) + 65536 * (data[start + 2] as int);
        word := buffer;
        buffer := Shr(buffer, bp % 8);
      } else {
        buffer := 0;
        if start < |data| { buffer := buffer + data[start]; }
        if start + 1 < |data| { buffer := buffer + 256 * (data[start + 1] as int); }
        word := buffer;
        buffer := Shr(buffer, bp % 8);
      }
      avail := 17;
      Word(data, start);
      Shifted(Stream(data), bp, word, 24, 17);
    }

    method EnsureBits25()
      requires Valid()
      modifies this`buffer, this`avail
      ensures Valid() && avail == 25
    {
      hide Peek;
      hide Stream;
      hide Shr;
      hide Low;
      var start := bp / 8;
      ghost var word := 0;
      if start + 3 < |data| {
        buffer := data[start] + 256 * (data[start + 1] as int) + 65536 * (data[start + 2] as int) + 16777216 * (data[start + 3] as int);
        word := buffer;
        buffer := Shr(buffer, bp % 8);
      } else {
        buffer := 0;
        if start < |data| { buffer := buffer + data[start]; }
        if start + 1 < |data| { buffer := buffer + 256 * (data[start + 1] as int); }
        if start + 2 < |data| { buffer := buffer + 65536 * (data[start + 2] as int); }
        word := buffer;
        buffer := Shr(buffer, bp % 8);
      }
      avail := 25;
      Word(data, start);
      Shifted(Stream(data), bp, word, 32, 25);
    }

    method EnsureBits32()
      requires Valid()
      modifies this`buffer, this`avail
      ensures Valid() && avail == 32
    {
      hide Peek;
      hide Stream;
      hide Shr;
      hide Low;
      hide Pow2;
      var start := bp / 8;
      ghost var word := 0;
      if start + 4 < |data| {
        buffer := data[start] + 256 * (data[start + 1] as int) + 65536 * (data[start + 2] as int) + 16777216 * (data[start + 3] as int);
        word := buffer;
        buffer := Shr(buffer, bp % 8);
        buffer := buffer + Low(Shl(Shl(data[start + 4], 24), 8 - bp % 8), 32);
      } else {
        buffer := 0;
        if start < |data| { buffer := buffer + data[start]; }
        if start + 1 < |data| { buffer := buffer + 256 * (data[start + 1] as int); }
        if start + 2 < |data| { buffer := buffer + 65536 * (data[start + 2] as int); }
        if start + 3 < |data| { buffer := buffer + 16777216 * (data[start + 3] as int); }
        word := buffer;
        buffer := Shr(buffer, bp % 8);
      }
      avail := 32;
      Word(data, start);
      FifthByte(data, bp, word, ByteAt(data, start + 4));
      NoFifthByte(bp % 8);
      PeekLow(Stream(data), bp, 32, 32);
    }

    /** Look at the next n bits without consuming them. */
    method PeekBits(n: nat) returns (r: nat)
      requires Valid() && n <= avail
      ensures r == Peek(Stream(data), bp, n)
    {
      hide Peek;
      hide Stream;
      r := Low(buffer, n);
      PeekLow(Stream(data), bp, avail, n);
      LowLow(buffer, n, avail);
    }

    method AdvanceBits(n: nat)
      requires Valid() && n <= avail
      modifies this
      ensures Valid() && bp == old(bp) + n && avail == old(avail) - n
    {
      hide Peek;
      hide Stream;
      hide Shr;
      hide Low;
      PeekLow(Stream(data), bp, avail, n);
      ShrLow(buffer, n, avail);
      buffer := Shr(buffer, n);
      bp := bp + n;
      avail := avail - n;
    }

    method ReadBits(n: nat) returns (r: nat)
      requires Valid() && n <= avail
      modifies this
      ensures Valid() && bp == old(bp) + n && avail == old(avail) - n
      ensures r == Peek(Stream(data), old(bp), n)
    {
      r := PeekBits(n);
      AdvanceBits(n);
    }
  }

  lemma NoFifthByte(r: nat)
    requires r < 8
    ensures Low(Shl(Shl(0, 24), 8 - r), 32) == 0
  {
    hide *;
    TopByte(0, r);
    LowSmall(0, r);
  }
}
