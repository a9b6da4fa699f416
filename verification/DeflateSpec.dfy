/** What the encoder writes, as bit sequences, and that the reference decoder reads it back. */
module DeflateSpec {
  import opened Bits
  import opened Canonical
  import opened HuffmanTree
  import opened InflateSpec
  import Lz77

  /** The code of a symbol, most significant bit first. */
  function SymBits(lengths: seq<nat>, s: nat): (r: seq<Bit>)
    requires s < |lengths|
    ensures |r| == lengths[s]
  {
    BitsOf(Rev(Code(lengths, s), lengths[s]), lengths[s])
  }

  /** Lengths whose codes can be decoded. */
  ghost predicate Decodable(lengths: seq<nat>)
  {
    ValidLengths(lengths) && Kraft(lengths) == Pow2(MAX_BITS)
  }

  /** Reading back a symbol. */
  lemma SymbolAt(lengths: seq<nat>, s: nat, bits: seq<Bit>, pos: nat)
    requires Decodable(lengths) && s < |lengths| && lengths[s] > 0
    requires At(bits, pos, SymBits(lengths, s))
    ensures NextSymbol(lengths, bits, pos) == Some(s) && pos + lengths[s] <= |bits|
  {
    hide Code;
    hide Rev;
    hide BitsOf;
    hide Kraft;
    hide Peek;
    hide NextSymbol;
    var l, code := lengths[s], Code(lengths, s);
    CodeFits(lengths, s);
    RevBound(code, l);
    PeekAt(bits, pos, Rev(code, l), l);
    RevInvolution(code, l);
    assert CodeAt(lengths, s, bits, pos);
    NextSymbolIs(lengths, bits, pos, s);
  }

  // ---- compressed data ----

  /** Every symbol the codes use has a code. */
  ghost predicate Coded(ll: seq<nat>, d: seq<nat>, values: seq<nat>)
  {
    values != [] ==>
      && values[0] < |ll| && ll[values[0]] > 0
      && if values[0] <= 256 then Coded(ll, d, values[1..])
         else
           && |values| >= 4 && Lz77.PairOk(values[0], values[1], values[2], values[3])
           && values[2] < |d| && d[values[2]] > 0
           && Coded(ll, d, values[4..])
  }

  /** A length/distance pair: length code, extra bits, distance code, extra bits. */
  function PairBits(ll: seq<nat>, d: seq<nat>, v: nat, le: nat, dc: nat, de: nat): seq<Bit>
    requires v < |ll| && dc < |d| && Lz77.PairOk(v, le, dc, de)
  {
    SymBits(ll, v) + (BitsOf(le, LengthExtra(v)) + (SymBits(d, dc) + BitsOf(de, DistanceExtra(dc))))
  }

  ghost function ValuesBits(ll: seq<nat>, d: seq<nat>, values: seq<nat>): seq<Bit>
    requires Coded(ll, d, values)
  {
    if values == [] then []
    else if values[0] <= 256 then SymBits(ll, values[0]) + ValuesBits(ll, d, values[1..])
    else PairBits(ll, d, values[0], values[1], values[2], values[3]) + ValuesBits(ll, d, values[4..])
  }

  lemma MatchDecodes(d: seq<nat>, bits: seq<Bit>, pos: nat, v: nat, le: nat, dc: nat, de: nat, out: seq<Byte>)
    requires Decodable(d) && dc < |d| && d[dc] > 0 && Lz77.PairOk(v, le, dc, de)
    requires At(bits, pos, BitsOf(le, LengthExtra(v)) + (SymBits(d, dc) + BitsOf(de, DistanceExtra(dc))))
    requires DistanceBase(dc) + de <= |out|
    ensures DistanceBase(dc) >= 1
    ensures Match(d, bits, pos, v, out)
         == Some((pos + LengthExtra(v) + d[dc] + DistanceExtra(dc),
                  Copy(out, DistanceBase(dc) + de, LengthBase(v) + le)))
  {
    hide SymBits;
    hide BitsOf;
    hide Peek;
    hide Copy;
    hide NextSymbol;
    hide LengthBase;
    hide LengthExtra;
    hide DistanceBase;
    hide DistanceExtra;
    hide Decodable;
    DistanceAtLeastOne(dc);
    var p := pos + LengthExtra(v);
    AtConcat(bits, pos, BitsOf(le, LengthExtra(v)), SymBits(d, dc) + BitsOf(de, DistanceExtra(dc)));
    AtConcat(bits, p, SymBits(d, dc), BitsOf(de, DistanceExtra(dc)));
    PeekAt(bits, pos, le, LengthExtra(v));
    SymbolAt(d, dc, bits, p);
    PeekAt(bits, p + d[dc], de, DistanceExtra(dc));
  }

  /** The reference decoder undoes the encoding of compressed data. */
  lemma {:induction false} SymbolsDecode(ll: seq<nat>, d: seq<nat>, values: seq<nat>, bits: seq<Bit>, pos: nat, out: seq<Byte>)
    requires Decodable(ll) && Decodable(d) && Coded(ll, d, values)
    requires |ll| > 256 && ll[256] > 0
    requires Lz77.Expand(values, out).Some?
    requires At(bits, pos, ValuesBits(ll, d, values) + SymBits(ll, 256))
    ensures Symbols(ll, d, bits, pos, out)
         == Some((pos + |ValuesBits(ll, d, values)| + ll[256], Lz77.Expand(values, out).value))
  {
    hide SymBits;
    hide PairBits;
    hide Symbols;
    hide Match;
    hide Copy;
    hide NextSymbol;
    hide LengthBase;
    hide LengthExtra;
    hide DistanceBase;
    hide DistanceExtra;
    hide Decodable;
    var end := SymBits(ll, 256);
    if values == [] {
      assert ValuesBits(ll, d, values) + end == end;
      SymbolAt(ll, 256, bits, pos);
      SymbolsUnfold(ll, d, bits, pos, out);
    } else if values[0] <= 256 {
      var rest := ValuesBits(ll, d, values[1..]);
      assert ValuesBits(ll, d, values) + end == SymBits(ll, values[0]) + (rest + end);
      AtConcat(bits, pos, SymBits(ll, values[0]), rest + end);
      SymbolAt(ll, values[0], bits, pos);
      SymbolsUnfold(ll, d, bits, pos, out);
      SymbolsDecode(ll, d, values[1..], bits, pos + ll[values[0]], out + [values[0]]);
    } else {
      PairDecodes(ll, d, values, bits, pos, out);
      SymbolsDecode(ll, d, values[4..], bits,
                    pos + |PairBits(ll, d, values[0], values[1], values[2], values[3])|,
                    Copy(out, DistanceBase(values[2]) + values[3], LengthBase(values[0]) + values[1]));
    }
  }

  lemma {:induction false} PairDecodes(ll: seq<nat>, d: seq<nat>, values: seq<nat>, bits: seq<Bit>, pos: nat, out: seq<Byte>)
    requires Decodable(ll) && Decodable(d) && Coded(ll, d, values) && values != [] && values[0] > 256
    requires |ll| > 256 && Lz77.Expand(values, out).Some?
    requires At(bits, pos, ValuesBits(ll, d, values) + SymBits(ll, 256))
    ensures 1 <= DistanceBase(values[2]) && DistanceBase(values[2]) + values[3] <= |out|
    ensures var next := pos + |PairBits(ll, d, values[0], values[1], values[2], values[3])|;
            var out1 := Copy(out, DistanceBase(values[2]) + values[3], LengthBase(values[0]) + values[1]);
            && Symbols(ll, d, bits, pos, out) == Symbols(ll, d, bits, next, out1)
            && At(bits, next, ValuesBits(ll, d, values[4..]) + SymBits(ll, 256))
            && Lz77.Expand(values, out) == Lz77.Expand(values[4..], out1)
  {
    hide SymBits;
    hide BitsOf;
    hide Symbols;
    hide Match;
    hide Copy;
    hide NextSymbol;
    hide LengthBase;
    hide LengthExtra;
    hide DistanceBase;
    hide DistanceExtra;
    hide Decodable;
    var v, le, dc, de := values[0], values[1], values[2], values[3];
    var end := SymBits(ll, 256);
    var rest := ValuesBits(ll, d, values[4..]);
    var pair := PairBits(ll, d, v, le, dc, de);
    var tail := BitsOf(le, LengthExtra(v)) + (SymBits(d, dc) + BitsOf(de, DistanceExtra(dc)));
    DistanceAtLeastOne(dc);
    assert ValuesBits(ll, d, values) + end == pair + (rest + end);
    AtConcat(bits, pos, pair, rest + end);
    AtConcat(bits, pos, SymBits(ll, v), tail);
    SymbolAt(ll, v, bits, pos);
    SymbolsUnfold(ll, d, bits, pos, out);
    MatchDecodes(d, bits, pos + ll[v], v, le, dc, de, out);
  }

  // ---- padded alphabets ----

  lemma {:induction false} SymBitsZeros(lengths: seq<nat>, n: nat, s: nat)
    requires s < |lengths|
    ensures SymBits(lengths + Zeros(n), s) == SymBits(lengths, s)
  {
    hide Code;
    CodeZeros(lengths, n, s);
  }

  /** Padding both alphabets with absent symbols changes neither the coding nor its bits. */
  lemma {:induction false} ValuesBitsZeros(ll: seq<nat>, m: nat, d: seq<nat>, n: nat, values: seq<nat>)
    requires Coded(ll, d, values)
    ensures Coded(ll + Zeros(m), d + Zeros(n), values)
    ensures ValuesBits(ll + Zeros(m), d + Zeros(n), values) == ValuesBits(ll, d, values)
  {
    hide SymBits;
    hide Lz77.PairOk;
    if values != [] {
      SymBitsZeros(ll, m, values[0]);
      if values[0] <= 256 {
        ValuesBitsZeros(ll, m, d, n, values[1..]);
      } else {
        SymBitsZeros(d, n, values[2]);
        ValuesBitsZeros(ll, m, d, n, values[4..]);
      }
    }
  }

  // ---- which values are coded ----

  /** Literals below 256 and complete pairs: what LZ77 emits. */
  ghost predicate WellFormed(values: seq<nat>)
  {
    values != [] ==>
      if values[0] <= 255 then WellFormed(values[1..])
      else |values| >= 4 && Lz77.PairOk(values[0], values[1], values[2], values[3]) && WellFormed(values[4..])
  }

  lemma {:induction false} ExpandWellFormed(values: seq<nat>, out: seq<Byte>)
    requires Lz77.Expand(values, out).Some?
    ensures WellFormed(values)
  {
    hide Copy;
    hide Pow2;
    if values == [] {
    } else if values[0] <= 255 {
      ExpandWellFormed(values[1..], out + [values[0]]);
    } else {
      ExpandPairStep(values, out);
      ExpandWellFormed(values[4..], Copy(out, DistanceBase(values[2]) + values[3], LengthBase(values[0]) + values[1]));
    }
  }

  lemma ExpandPairStep(values: seq<nat>, out: seq<Byte>)
    requires Lz77.Expand(values, out).Some? && values != [] && values[0] > 255
    ensures |values| >= 4 && Lz77.PairOk(values[0], values[1], values[2], values[3])
    ensures var distance := DistanceBase(values[2]) + values[3];
            && 1 <= distance <= |out|
            && Lz77.Expand(values[4..], Copy(out, distance, LengthBase(values[0]) + values[1])).Some?
  {
    hide Copy;
    DistanceAtLeastOne(values[2]);
  }

  /** A full alphabet codes everything. */
  lemma {:induction false} FullCoded(ll: seq<nat>, d: seq<nat>, values: seq<nat>)
    requires WellFormed(values) && |ll| > LAST_LENGTH_CODE && |d| > 29
    requires (forall s :: 0 <= s < |ll| ==> ll[s] > 0) && (forall s :: 0 <= s < |d| ==> d[s] > 0)
    ensures Coded(ll, d, values)
  {
    hide Pow2;
    if values != [] {
      if values[0] <= 255 { FullCoded(ll, d, values[1..]); } else { FullCoded(ll, d, values[4..]); }
    }
  }

  /** The symbols of a are symbols of b too. */
  ghost predicate Within(a: seq<nat>, b: seq<nat>)
  {
    forall s :: 0 <= s < |a| && a[s] > 0 ==> s < |b| && b[s] > 0
  }

  lemma {:induction false} CodedWithin(ll: seq<nat>, d: seq<nat>, ll1: seq<nat>, d1: seq<nat>, values: seq<nat>)
    requires Coded(ll, d, values) && Within(ll, ll1) && Within(d, d1)
    ensures Coded(ll1, d1, values)
  {
    hide Lz77.PairOk;
    if values != [] {
      if values[0] <= 256 { CodedWithin(ll, d, ll1, d1, values[1..]); } else { CodedWithin(ll, d, ll1, d1, values[4..]); }
    }
  }
}
