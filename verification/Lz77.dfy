/** What LZ77 codes mean, and how a length/distance pair is coded. */
module Lz77 {
  import opened Bits
  import opened InflateSpec

  const MAX_LENGTH := 258

  /** A well-formed length/distance quadruple: length code, its extra value, distance code, its extra value. */
  predicate PairOk(v: nat, le: nat, dc: nat, de: nat)
  {
    && FIRST_LENGTH_CODE <= v <= LAST_LENGTH_CODE && le < Pow2(LengthExtra(v))
    && dc <= 29 && de < Pow2(DistanceExtra(dc))
  }

  /** The bytes that a sequence of codes stands for, after the bytes in out. */
  function Expand(values: seq<nat>, out: seq<Byte>): Option<seq<Byte>>
  {
    if values == [] then Some(out)
    else if values[0] <= 255 then Expand(values[1..], out + [values[0]])
    else if |values| < 4 || !PairOk(values[0], values[1], values[2], values[3]) then None
    else
      var length := LengthBase(values[0]) + values[1];
      var distance := DistanceBase(values[2]) + values[3];
      DistanceAtLeastOne(values[2]);
      if distance > |out| then None else Expand(values[4..], Copy(out, distance, length))
  }

  lemma {:induction false} ExpandConcat(a: seq<nat>, b: seq<nat>, out: seq<Byte>)
    requires Expand(a, out).Some?
    ensures Expand(a + b, out) == Expand(b, Expand(a, out).value)
  {
    hide Copy;
    hide LengthBase;
    hide LengthExtra;
    hide DistanceBase;
    hide DistanceExtra;
    hide Pow2;
    if a == [] {
      assert a + b == b;
    } else if a[0] <= 255 {
      assert (a + b)[1..] == a[1..] + b;
      ExpandConcat(a[1..], b, out + [a[0]]);
    } else {
      assert (a + b)[4..] == a[4..] + b;
      DistanceAtLeastOne(a[2]);
      ExpandConcat(a[4..], b, Copy(out, DistanceBase(a[2]) + a[3], LengthBase(a[0]) + a[1]));
    }
  }

  /** The data repeats itself at pos: length bytes equal those offset bytes before. */
  predicate MatchAt(data: seq<Byte>, pos: nat, offset: nat, length: nat)
  {
    && 1 <= offset <= pos && pos + length <= |data|
    && forall k :: pos <= k < pos + length ==> data[k] == data[k - offset]
  }

  /** Appending a literal. */
  lemma ExpandLiteral(values: seq<nat>, start: seq<Byte>, data: seq<Byte>, pos: nat)
    requires pos < |data| && Expand(values, start) == Some(data[..pos])
    ensures Expand(values + [data[pos]], start) == Some(data[..pos + 1])
  {
    hide Expand;
    ExpandConcat(values, [data[pos]], start);
    ExpandOne(data[pos], data[..pos]);
    assert data[..pos] + [data[pos]] == data[..pos + 1];
  }

  lemma ExpandOne(b: Byte, out: seq<Byte>)
    ensures Expand([b], out) == Some(out + [b])
  {
    assert [b][1..] == [];
  }

  /** Appending a match that is really there. */
  lemma ExpandMatch(values: seq<nat>, start: seq<Byte>, data: seq<Byte>, pos: nat, q: seq<nat>, offset: nat, length: nat)
    requires MatchAt(data, pos, offset, length) && Expand(values, start) == Some(data[..pos])
    requires |q| == 4 && PairOk(q[0], q[1], q[2], q[3])
    requires length == LengthBase(q[0]) + q[1] && offset == DistanceBase(q[2]) + q[3]
    ensures Expand(values + q, start) == Some(data[..pos + length])
  {
    hide Expand;
    hide LengthBase;
    hide DistanceBase;
    hide Pow2;
    hide Copy;
    ExpandConcat(values, q, start);
    ExpandPair(q, data[..pos], offset, length);
    assert data[..pos + length][..pos] == data[..pos];
    CopyUnique(data[..pos], offset, length, data[..pos + length]);
  }

  lemma ExpandPair(q: seq<nat>, out: seq<Byte>, offset: nat, length: nat)
    requires |q| == 4 && PairOk(q[0], q[1], q[2], q[3])
    requires length == LengthBase(q[0]) + q[1] && offset == DistanceBase(q[2]) + q[3]
    requires 1 <= offset <= |out|
    ensures Expand(q, out) == Some(Copy(out, offset, length))
  {
    hide Copy;
    hide LengthBase;
    hide DistanceBase;
    hide Pow2;
    assert q[4..] == [];
    NothingMore(Copy(out, offset, length));
  }

  lemma NothingMore(out: seq<Byte>)
    ensures Expand([], out) == Some(out)
  {
  }

  // ---- coding a pair ----

  /** Binary search for the last entry that is at most value; entry 0 if there is none. */
  method SearchCodeIndex(a: seq<nat>, value: nat) returns (r: nat)
    requires a != [] && forall i, j :: 0 <= i < j < |a| ==> a[i] < a[j]
    ensures r < |a| && (r + 1 < |a| ==> value < a[r + 1])
    ensures if a[0] <= value then a[r] <= value else r == 0
  {
    var left, right := 1, |a| - 1;
    while left <= right
      invariant 1 <= left <= right + 1 <= |a|
      invariant forall i :: 1 <= i < left ==> a[i] < value
      invariant forall i :: right < i < |a| ==> a[i] >= value
    {
      var mid := (left + right) / 2;
      if a[mid] >= value { right := mid - 1; } else { left := mid + 1; }
    }
    if left >= |a| || a[left] > value { left := left - 1; }
    r := left;
  }

  lemma TablesAscend()
    ensures |LENGTH_BASE| == |LENGTH_EXTRA| == 29 && |DISTANCE_BASE| == |DISTANCE_EXTRA| == 30
    ensures forall i, j :: 0 <= i < j < 29 ==> LENGTH_BASE[i] < LENGTH_BASE[j]
    ensures forall i, j :: 0 <= i < j < 30 ==> DISTANCE_BASE[i] < DISTANCE_BASE[j]
  {
  }

  lemma TablesStart()
    ensures LENGTH_BASE[0] == 3 && LENGTH_BASE[28] == 258 && DISTANCE_BASE[0] == 1
  {
  }

  /** Consecutive length codes are no further apart than their extra bits can reach. */
  lemma LengthGap(i: nat)
    requires i < 29
    ensures i < 28 ==> LENGTH_BASE[i + 1] - LENGTH_BASE[i] <= Pow2(LENGTH_EXTRA[i])
    ensures i == 28 ==> LENGTH_BASE[i] == 258
  {
    Pow2Small();
  }

  lemma DistanceGap(i: nat)
    requires i < 30
    ensures i < 29 ==> DISTANCE_BASE[i + 1] - DISTANCE_BASE[i] <= Pow2(DISTANCE_EXTRA[i])
    ensures i == 29 ==> DISTANCE_BASE[i] + Pow2(DISTANCE_EXTRA[i]) > 32768
  {
    Pow2Small();
    PowersTo13();
    hide Pow2;
    if i < 15 { NearGap(i); } else { FarGap(i); }
  }

  lemma PowersTo13()
    ensures Pow2(9) == 512 && Pow2(10) == 1024 && Pow2(11) == 2048 && Pow2(12) == 4096 && Pow2(13) == 8192
  {
    Pow2Small();
    Pow2Step(9);
    Pow2Step(10);
    Pow2Step(11);
    Pow2Step(12);
  }

  lemma NearGap(i: nat)
    requires i < 15
    ensures DISTANCE_BASE[i + 1] - DISTANCE_BASE[i] <= Pow2(DISTANCE_EXTRA[i])
  {
    Pow2Small();
    hide Pow2;
  }

  lemma FarGap(i: nat)
    requires 15 <= i < 30
    ensures i < 29 ==> DISTANCE_BASE[i + 1] - DISTANCE_BASE[i] <= Pow2(DISTANCE_EXTRA[i])
    ensures i == 29 ==> DISTANCE_BASE[i] + Pow2(DISTANCE_EXTRA[i]) > 32768
  {
    Pow2Small();
    PowersTo13();
    hide Pow2;
  }

  /** The quadruple for a length and a distance; 258 has its own length code. */
  predicate PairFor(q: seq<nat>, length: nat, distance: nat)
  {
    && |q| == 4 && PairOk(q[0], q[1], q[2], q[3])
    && length == LengthBase(q[0]) + q[1] && distance == DistanceBase(q[2]) + q[3]
    && (length == 258 ==> q[0] == 285)
  }

  /** Every length and distance of DEFLATE has a quadruple. */
  method AddLengthDistance(values: seq<nat>, length: nat, distance: nat) returns (r: seq<nat>)
    requires 3 <= length <= MAX_LENGTH && 1 <= distance <= 32768
    ensures |r| == |values| + 4 && r[..|values|] == values && PairFor(r[|values|..], length, distance)
  {
    hide Pow2;
    TablesAscend();
    TablesStart();
    hide LENGTH_BASE;
    hide LENGTH_EXTRA;
    hide DISTANCE_BASE;
    hide DISTANCE_EXTRA;
    var lengthCode := SearchCodeIndex(LENGTH_BASE, length);
    var extraLength := length - LENGTH_BASE[lengthCode];
    var distCode := SearchCodeIndex(DISTANCE_BASE, distance);
    var extraDistance := distance - DISTANCE_BASE[distCode];
    LengthGap(lengthCode);
    DistanceGap(distCode);
    var q := [lengthCode + FIRST_LENGTH_CODE, extraLength, distCode, extraDistance];
    r := values + q;
    assert r[|values|..] == q;
  }
}
