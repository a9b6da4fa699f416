/** A reference decoder for DEFLATE streams (RFC 1951 section 3.2): one symbol at a
  time, over a finite bit sequence, with no buffering, no tables and no arrays. */
module InflateSpec {
  import opened Bits
  import opened Canonical
  import opened HuffmanTree

  datatype Option<T> = None | Some(value: T)

  const LENGTH_BASE: seq<nat> :=
    [3, 4, 5, 6, 7, 8, 9, 10, 11, 13, 15, 17, 19, 23, 27, 31, 35, 43, 51, 59,
     67, 83, 99, 115, 131, 163, 195, 227, 258]

  const LENGTH_EXTRA: seq<nat> :=
    [0, 0, 0, 0, 0, 0, 0, 0, 1, 1, 1, 1, 2, 2, 2, 2, 3, 3, 3, 3,
     4, 4, 4, 4, 5, 5, 5, 5, 0]

  const DISTANCE_BASE: seq<nat> :=
    [1, 2, 3, 4, 5, 7, 9, 13, 17, 25, 33, 49, 65, 97, 129, 193, 257, 385, 513,
     769, 1025, 1537, 2049, 3073, 4097, 6145, 8193, 12289, 16385, 24577]

  const DISTANCE_EXTRA: seq<nat> :=
    [0, 0, 0, 0, 1, 1, 2, 2, 3, 3, 4, 4, 5, 5, 6, 6, 7, 7, 8,
     8, 9, 9, 10, 10, 11, 11, 12, 12, 13, 13]

  const CLCL_ORDER: seq<nat> := [16, 17, 18, 0, 8, 7, 9, 6, 10, 5, 11, 4, 12, 3, 13, 2, 14, 1, 15]

  const FIRST_LENGTH_CODE := 257
  const LAST_LENGTH_CODE := 285
  const NUM_LITLEN := 288
  const NUM_DISTANCE := 32
  const NUM_CODE_LENGTH := 19

  function LengthBase(s: nat): nat
    requires FIRST_LENGTH_CODE <= s <= LAST_LENGTH_CODE
  {
    LENGTH_BASE[s - FIRST_LENGTH_CODE]
  }

  function LengthExtra(s: nat): nat
    requires FIRST_LENGTH_CODE <= s <= LAST_LENGTH_CODE
  {
    LENGTH_EXTRA[s - FIRST_LENGTH_CODE]
  }

  function DistanceBase(t: nat): nat
    requires t <= 29
  {
    DISTANCE_BASE[t]
  }

  function DistanceExtra(t: nat): nat
    requires t <= 29
  {
    DISTANCE_EXTRA[t]
  }

  // ---- symbols ----

  /** The symbol whose code comes next and ends inside the stream. */
  ghost function NextSymbol(lengths: seq<nat>, bits: seq<Bit>, pos: nat): (r: Option<nat>)
    ensures r.Some? ==> r.value < |lengths| && lengths[r.value] > 0 && pos + lengths[r.value] <= |bits|
  {
    if exists s: nat :: CodeAt(lengths, s, bits, pos) && pos + lengths[s] <= |bits| then
      var s: nat :| CodeAt(lengths, s, bits, pos) && pos + lengths[s] <= |bits|;
      Some(s)
    else None
  }

  lemma NextSymbolIs(lengths: seq<nat>, bits: seq<Bit>, pos: nat, s: nat)
    requires ValidLengths(lengths) && CodeAt(lengths, s, bits, pos)
    ensures NextSymbol(lengths, bits, pos) == if pos + lengths[s] <= |bits| then Some(s) else None
  {
    hide CodeAt;
    CodeAtSymbol(lengths, s, bits, pos);
    forall t | CodeAt(lengths, t, bits, pos) ensures t == s {
      CodeAtUnique(lengths, s, t, bits, pos);
    }
  }

  // ---- LZ77 copies ----

  /** Appends length bytes, each the one distance bytes before it. */
  function Copy(out: seq<Byte>, distance: nat, length: nat): (r: seq<Byte>)
    requires 1 <= distance <= |out|
    ensures |r| == |out| + length
    decreases length
  {
    if length == 0 then out else Copy(out + [out[|out| - distance]], distance, length - 1)
  }

  /** The characterisation a block copy is checked against. */
  lemma {:induction false} CopyUnique(out: seq<Byte>, distance: nat, length: nat, r: seq<Byte>)
    requires 1 <= distance <= |out| && |r| == |out| + length && r[..|out|] == out
    requires forall i :: |out| <= i < |r| ==> r[i] == r[i - distance]
    ensures r == Copy(out, distance, length)
    decreases length
  {
    if length == 0 {
      assert r == r[..|out|];
    } else {
      var next := out + [out[|out| - distance]];
      assert r[|out|] == r[|out| - distance] == out[|out| - distance];
      assert r[..|next|] == next;
      CopyUnique(next, distance, length - 1, r);
    }
  }

  // ---- compressed blocks ----

  /** The rest of a length/distance pair after its length symbol. */
  ghost function Match(d: seq<nat>, bits: seq<Bit>, pos: nat, s: nat, out: seq<Byte>): (r: Option<(nat, seq<Byte>)>)
    requires FIRST_LENGTH_CODE <= s <= LAST_LENGTH_CODE
    ensures r.Some? ==> pos <= r.value.0 <= |bits| && |out| <= |r.value.1|
  {
    var length := LengthBase(s) + Peek(bits, pos, LengthExtra(s));
    var q := pos + LengthExtra(s);
    match NextSymbol(d, bits, q)
    case None => None
    case Some(t) =>
      if t > 29 then None
      else
        var p := q + d[t];
        var distance := DistanceBase(t) + Peek(bits, p, DistanceExtra(t));
        DistanceAtLeastOne(t);
        if p + DistanceExtra(t) > |bits| || distance > |out| then None
        else Some((p + DistanceExtra(t), Copy(out, distance, length)))
  }

  lemma DistanceAtLeastOne(t: nat)
    requires t <= 29
    ensures DistanceBase(t) >= 1 && DistanceExtra(t) <= 13
  {
  }

  /** Literals and matches up to the end code. */
  ghost function Symbols(ll: seq<nat>, d: seq<nat>, bits: seq<Bit>, pos: nat, out: seq<Byte>)
    : (r: Option<(nat, seq<Byte>)>)
    ensures r.Some? ==> pos <= r.value.0 <= |bits| && |out| <= |r.value.1|
    decreases |bits| - pos
  {
    match NextSymbol(ll, bits, pos)
    case None => None
    case Some(s) =>
      var p := pos + ll[s];
      if s <= 255 then Symbols(ll, d, bits, p, out + [s])
      else if s == 256 then Some((p, out))
      else if s > LAST_LENGTH_CODE then None
      else
        match Match(d, bits, p, s, out)
        case None => None
        case Some(r) => Symbols(ll, d, bits, r.0, r.1)
  }

  function Repeat(x: nat, n: nat): (r: seq<nat>)
    ensures |r| == n && forall i :: 0 <= i < n ==> r[i] == x
  {
    seq(n, _ => x)
  }

  /** The code lengths of a dynamic block, with their repeat codes (RFC 1951 section 3.2.7). */
  ghost function CodeLengths(cl: seq<nat>, bits: seq<Bit>, pos: nat, total: nat, acc: seq<nat>)
    : (r: Option<(nat, seq<nat>)>)
    requires |acc| <= total
    ensures r.Some? ==> pos <= r.value.0 && |r.value.1| == total
    ensures r.Some? && pos <= |bits| ==> r.value.0 <= |bits|
    decreases total - |acc|
  {
    if |acc| == total then Some((pos, acc))
    else
      match NextSymbol(cl, bits, pos)
      case None => None
      case Some(s) =>
        var p := pos + cl[s];
        if s <= 15 then CodeLengths(cl, bits, p, total, acc + [s])
        else if s > 18 || (s == 16 && acc == []) then None
        else
          var x := if s == 16 then acc[|acc| - 1] else 0;
          var extra := if s == 16 then 2 else if s == 17 then 3 else 7;
          var n := (if s == 18 then 11 else 3) + Peek(bits, p, extra);
          if p + extra > |bits| || |acc| + n > total then None
          else CodeLengths(cl, bits, p + extra, total, acc + Repeat(x, n))
  }

  /** The three bits at an offset, or 0 if fewer than that many fields are sent. */
  function Field(bits: seq<Bit>, pos: nat, n: nat, offset: nat): (r: nat)
  {
    if offset < 3 * n then Peek(bits, pos + offset, 3) else 0
  }

  /** The lengths of the code length symbols 0 to 18, each from its own place (section 3.2.7); n fields are sent. */
  function ClLengths(bits: seq<Bit>, pos: nat, n: nat): (r: seq<nat>)
    ensures |r| == NUM_CODE_LENGTH
  {
    [Field(bits, pos, n, 9), Field(bits, pos, n, 51), Field(bits, pos, n, 45), Field(bits, pos, n, 39),
     Field(bits, pos, n, 33), Field(bits, pos, n, 27), Field(bits, pos, n, 21), Field(bits, pos, n, 15),
     Field(bits, pos, n, 12), Field(bits, pos, n, 18), Field(bits, pos, n, 24), Field(bits, pos, n, 30),
     Field(bits, pos, n, 36), Field(bits, pos, n, 42), Field(bits, pos, n, 48), Field(bits, pos, n, 54),
     Field(bits, pos, n, 0), Field(bits, pos, n, 3), Field(bits, pos, n, 6)]
  }

  datatype Trees = Trees(pos: nat, ll: seq<nat>, d: seq<nat>)

  /** The literal/length and distance code lengths from the transmitted sequence. */
  function SplitLengths(lens: seq<nat>, hlit: nat): (r: (seq<nat>, seq<nat>))
    requires hlit <= |lens| && hlit <= NUM_LITLEN && |lens| <= hlit + NUM_DISTANCE
    ensures |r.0| == NUM_LITLEN && |r.1| == NUM_DISTANCE
  {
    (lens[..hlit] + Zeros(NUM_LITLEN - hlit), lens[hlit..] + Zeros(NUM_DISTANCE - (|lens| - hlit)))
  }

  ghost function DynamicTrees(bits: seq<Bit>, pos: nat): (r: Option<Trees>)
    ensures r.Some? ==> pos <= r.value.pos <= |bits|
    ensures r.Some? ==> |r.value.ll| == NUM_LITLEN && |r.value.d| == NUM_DISTANCE
    ensures r.Some? ==> Acceptable(r.value.ll) && Acceptable(r.value.d)
  {
    if pos + 14 > |bits| then None
    else
      var hlit := Peek(bits, pos, 5) + 257;
      var hdist := Peek(bits, pos + 5, 5) + 1;
      var hclen := Peek(bits, pos + 10, 4) + 4;
      PeekBound(bits, pos, 5);
      PeekBound(bits, pos + 5, 5);
      PeekBound(bits, pos + 10, 4);
      Pow2Small();
      if pos + 14 + 3 * hclen > |bits| then None
      else
        var cl := ClLengths(bits, pos + 14, hclen);
        if !Acceptable(cl) then None
        else
          match CodeLengths(cl, bits, pos + 14 + 3 * hclen, hlit + hdist, [])
          case None => None
          case Some((p, lens)) =>
            var (ll, d) := SplitLengths(lens, hlit);
            if ll[256] == 0 || !Acceptable(ll) || !Acceptable(d) then None else Some(Trees(p, ll, d))
  }

  /** The fixed literal/length code of RFC 1951 section 3.2.6. */
  function FixedLitLen(): (r: seq<nat>)
    ensures |r| == NUM_LITLEN
  {
    seq(NUM_LITLEN, i => if i <= 143 then 8 else if i <= 255 then 9 else if i <= 279 then 7 else 8)
  }

  function FixedDistance(): (r: seq<nat>)
    ensures |r| == NUM_DISTANCE
  {
    seq(NUM_DISTANCE, _ => 5)
  }

  // ---- blocks ----

  function StoredBytes(bits: seq<Bit>, bytepos: nat, n: nat): (r: seq<Byte>)
    ensures |r| == n && forall i :: 0 <= i < n ==> r[i] == ByteOf(bits, bytepos + i)
  {
    seq<Byte>(n, i requires 0 <= i < n => ByteOf(bits, bytepos + i))
  }

  /** A stored block; like the source it wants at least one byte after the four length bytes. */
  ghost function Stored(bits: seq<Bit>, pos: nat, out: seq<Byte>, ignoreNlen: bool): (r: Option<(nat, seq<Byte>)>)
    ensures r.Some? ==> pos <= r.value.0 <= |bits| && |out| <= |r.value.1|
  {
    var bytepos := (pos + 7) / 8;
    var size := |bits| / 8;
    if bytepos + 4 >= size then None
    else
      var len := Peek(bits, 8 * bytepos, 16);
      var nlen := Peek(bits, 8 * (bytepos + 2), 16);
      if (!ignoreNlen && len + nlen != 65535) || bytepos + 4 + len > size then None
      else Some((8 * (bytepos + 4 + len), out + StoredBytes(bits, bytepos + 4, len)))
  }

  ghost function Block(bits: seq<Bit>, pos: nat, btype: nat, out: seq<Byte>, ignoreNlen: bool)
    : (r: Option<(nat, seq<Byte>)>)
    ensures r.Some? ==> pos <= r.value.0 <= |bits| && |out| <= |r.value.1|
  {
    if btype == 0 then Stored(bits, pos, out, ignoreNlen)
    else if btype == 1 then Symbols(FixedLitLen(), FixedDistance(), bits, pos, out)
    else if btype == 2 then
      match DynamicTrees(bits, pos)
      case None => None
      case Some(t) => Symbols(t.ll, t.d, bits, t.pos, out)
    else None
  }

  /** All blocks from pos to the final one, appended to out. */
  ghost function Blocks(bits: seq<Bit>, pos: nat, out: seq<Byte>, ignoreNlen: bool): (r: Option<seq<Byte>>)
    ensures r.Some? ==> |out| <= |r.value|
    decreases |bits| - pos
  {
    if pos + 3 > |bits| then None
    else
      match Block(bits, pos + 3, Peek(bits, pos + 1, 2), out, ignoreNlen)
      case None => None
      case Some(r) => if bits[pos] == 1 then Some(r.1) else Blocks(bits, r.0, r.1, ignoreNlen)
  }

  /** What a byte string inflates to, after the bytes already in out. */
  ghost function Inflated(data: seq<Byte>, out: seq<Byte>, ignoreNlen: bool): Option<seq<Byte>>
  {
    Blocks(Stream(data), 0, out, ignoreNlen)
  }

  // ---- one step of each loop ----

  lemma SymbolsUnfold(ll: seq<nat>, d: seq<nat>, bits: seq<Bit>, pos: nat, out: seq<Byte>)
    ensures Symbols(ll, d, bits, pos, out) ==
            match NextSymbol(ll, bits, pos)
            case None => None
            case Some(s) =>
              var p := pos + ll[s];
              if s <= 255 then Symbols(ll, d, bits, p, out + [s])
              else if s == 256 then Some((p, out))
              else if s > LAST_LENGTH_CODE then None
              else
                match Match(d, bits, p, s, out)
                case None => None
                case Some(r) => Symbols(ll, d, bits, r.0, r.1)
  {
  }

  lemma CodeLengthsUnfold(cl: seq<nat>, bits: seq<Bit>, pos: nat, total: nat, acc: seq<nat>)
    requires |acc| < total
    ensures CodeLengths(cl, bits, pos, total, acc) ==
            match NextSymbol(cl, bits, pos)
            case None => None
            case Some(s) =>
              var p := pos + cl[s];
              if s <= 15 then CodeLengths(cl, bits, p, total, acc + [s])
              else if s > 18 || (s == 16 && acc == []) then None
              else
                var x := if s == 16 then acc[|acc| - 1] else 0;
                var extra := if s == 16 then 2 else if s == 17 then 3 else 7;
                var n := (if s == 18 then 11 else 3) + Peek(bits, p, extra);
                if p + extra > |bits| || |acc| + n > total then None
                else CodeLengths(cl, bits, p + extra, total, acc + Repeat(x, n))
  {
  }

  lemma CodeLengthsDone(cl: seq<nat>, bits: seq<Bit>, pos: nat, total: nat, acc: seq<nat>)
    requires |acc| == total
    ensures CodeLengths(cl, bits, pos, total, acc) == Some((pos, acc))
  {
  }

  lemma BlocksUnfold(bits: seq<Bit>, pos: nat, out: seq<Byte>, ignoreNlen: bool)
    requires pos + 3 <= |bits|
    ensures Blocks(bits, pos, out, ignoreNlen) ==
            match Block(bits, pos + 3, Peek(bits, pos + 1, 2), out, ignoreNlen)
            case None => None
            case Some(r) => if Peek(bits, pos, 1) == 1 then Some(r.1) else Blocks(bits, r.0, r.1, ignoreNlen)
  {
    hide Block;
    assert Peek(bits, pos, 1) == bits[pos] + 2 * Peek(bits, pos + 1, 0);
  }

  lemma TooShort(bits: seq<Bit>, pos: nat, out: seq<Byte>, ignoreNlen: bool)
    requires pos + 3 > |bits|
    ensures Blocks(bits, pos, out, ignoreNlen) == None
  {
  }
}
