/** The encoder's bit writer: bits fill the bytes of a vector from the low end. */
module BitWriter {
  import opened Bits
  import opened Vectors

  class Writer {
    const data: UcVector
    /** The source's bit position, an unsigned char that wraps. */
    var bp: nat
    /** Everything written so far, and where it starts in the vector. */
    ghost var bits: seq<Bit>
    ghost const prefix: seq<Byte>

    ghost predicate Valid()
      reads this, data, data.data
    {
      && data.Valid()
      && bp == |bits| % 256
      && data.Contents() == prefix + Pack(bits)
    }

    constructor (out: UcVector)
      requires out.Valid()
      ensures Valid() && data == out && bits == [] && prefix == out.Contents()
    {
      data := out;
      bp := 0;
      bits := [];
      prefix := out.Contents();
    }

    method WriteBit(bit: Bit)
      requires Valid()
      modifies this, data, data.data
      ensures Valid() && bits == old(bits) + [bit]
      ensures data.data == old(data.data) || fresh(data.data)
    {
      hide Pack;
      hide Place;
      PrefixPush(prefix, bits, bit);
      Wraps(|bits|);
      if bp % 8 == 0 { data.Append(0); }
      data.SetLast(data.data[data.size - 1] + Place(bit, bp % 8));
      bits := bits + [bit];
      bp := (bp + 1) % 256;
    }

    /** LSB of value first; a single bit is written unmasked, so it must be one. */
    method WriteBits(value: nat, nbits: nat)
      requires Valid() && (nbits == 1 ==> value < 2)
      modifies this, data, data.data
      ensures Valid() && bits == old(bits) + BitsOf(value, nbits)
      ensures data.data == old(data.data) || fresh(data.data)
    {
      hide BitsOf;
      hide Pack;
      hide Pow2;
      ghost var before := bits;
      BitsOfNone(value);
      if nbits == 1 {
        OneBit(value);
        WriteBit(value);
      } else {
        for i := 0 to nbits
          invariant Valid() && bits == before + BitsOf(value, i)
          invariant data.data == old(data.data) || fresh(data.data)
        {
          BitsOfAppend(value, i);
          WriteBit(Shr(value, i) % 2);
        }
      }
    }

    /** For Huffman codes: MSB of value first. */
    method WriteBitsReversed(value: nat, nbits: nat)
      requires Valid()
      modifies this, data, data.data
      ensures Valid() && bits == old(bits) + BitsOf(Rev(value, nbits), nbits)
      ensures data.data == old(data.data) || fresh(data.data)
    {
      hide BitsOf;
      hide Pack;
      hide Rev;
      hide Shr;
      ghost var before, reversed := bits, Rev(value, nbits);
      BitsOfNone(reversed);
      for i := 0 to nbits
        invariant Valid() && bits == before + BitsOf(reversed, i)
        invariant data.data == old(data.data) || fresh(data.data)
      {
        BitsOfAppend(reversed, i);
        RevBit(value, nbits, i);
        WriteBit(Shr(value, nbits - 1 - i) % 2);
      }
    }
  }

  lemma BitsOfNone(v: nat)
    ensures BitsOf(v, 0) == []
  {
  }

  lemma OneBit(v: nat)
    requires v < 2
    ensures BitsOf(v, 1) == [v]
  {
    assert BitsOf(v / 2, 0) == [];
  }

  /** The wrapped position is as good as the real one: only its low three bits are used. */
  lemma Wraps(n: nat)
    ensures (n % 256 + 1) % 256 == (n + 1) % 256
    ensures (n % 256) % 8 == n % 8
  {
  }

  /** PackPush, after the bytes the vector held before. */
  lemma PrefixPush(prefix: seq<Byte>, bits: seq<Bit>, b: Bit)
    ensures var before := if |bits| % 8 == 0 then prefix + Pack(bits) + [0] else prefix + Pack(bits);
            && |before| > 0
            && before[|before| - 1] + Place(b, |bits| % 8) < 256
            && prefix + Pack(bits + [b]) == before[|before| - 1 := before[|before| - 1] + Place(b, |bits| % 8)]
  {
    hide Pack;
    hide Place;
    PackPush(bits, b);
  }
}
