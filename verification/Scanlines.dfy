/** Filtering and unfiltering one scanline in memory, with the source's separate loops per case. */
module Scanlines {
  import opened Bits
  import opened PngFilters

  /** Where the previous line is, if there is one. */
  datatype Prev = NoLine | Line(pos: nat)

  /** The previous line's bytes; a missing one counts as zeros. */
  function PrevBytes(mem: seq<Byte>, prev: Prev, length: nat): (r: seq<Byte>)
    requires prev.Line? ==> prev.pos + length <= |mem|
    ensures |r| == length
  {
    if prev.Line? then mem[prev.pos..prev.pos + length] else seq<Byte>(length, _ => 0)
  }

  /** A line being worked on: the memory before, where the result goes, and what it is made from. */
  datatype Job = Job(before: seq<Byte>, at: nat, t: nat, bytewidth: nat, line: seq<Byte>, prev: seq<Byte>)

  ghost predicate JobOk(c: Job)
  {
    0 < c.bytewidth <= |c.line| == |c.prev| && c.at + |c.line| <= |c.before|
  }

  /** The first n bytes of the result r are in place; the rest of the memory is as before. */
  ghost predicate Placed(c: Job, now: seq<Byte>, r: seq<Byte>)
    requires JobOk(c)
  {
    && |now| == |c.before| && |r| <= |c.line|
    && now[c.at..c.at + |r|] == r
    && (forall k :: 0 <= k < |now| && !(c.at <= k < c.at + |r|) ==> now[k] == c.before[k])
  }

  lemma PlacedAll(c: Job, now: seq<Byte>, r: seq<Byte>)
    requires JobOk(c) && Placed(c, now, r)
    ensures now == c.before[..c.at] + r + c.before[c.at + |r|..]
  {
  }

  /** The line above, wherever it is, holds the job's previous bytes. */
  ghost predicate Above(c: Job, mem: array<Byte>, prev: Prev)
    reads mem
  {
    match prev
    case NoLine => forall k :: 0 <= k < |c.prev| ==> c.prev[k] == 0
    case Line(pos) => pos + |c.prev| <= mem.Length && forall k :: 0 <= k < |c.prev| ==> mem[pos + k] == c.prev[k]
  }

  // ---- filtering ----

  ghost predicate Filtering(c: Job, now: seq<Byte>, i: nat)
    requires JobOk(c)
  {
    i <= |c.line| && Placed(c, now, Filtered(c.t, c.bytewidth, c.line, c.prev)[..i])
  }

  /** The line and the line above are in input, the result goes to out. */
  ghost predicate FilterPre(c: Job, out: array<Byte>, oo: nat, input: array<Byte>, so: nat, prev: Prev, length: nat, bytewidth: nat)
    reads input
  {
    && JobOk(c) && out != input && c.at == oo && |c.line| == length && c.bytewidth == bytewidth
    && |c.before| == out.Length
    && so + length <= input.Length && (forall k :: 0 <= k < length ==> input[so + k] == c.line[k])
    && Above(c, input, prev)
  }

  lemma NothingFiltered(c: Job)
    requires JobOk(c)
    ensures Filtering(c, c.before, 0)
  {
  }

  lemma FilteringAll(c: Job, now: seq<Byte>)
    requires JobOk(c) && Filtering(c, now, |c.line|)
    ensures now == c.before[..c.at] + Filtered(c.t, c.bytewidth, c.line, c.prev) + c.before[c.at + |c.line|..]
  {
    hide Filtered;
    var f := Filtered(c.t, c.bytewidth, c.line, c.prev);
    assert f[..|c.line|] == f;
    PlacedAll(c, now, f);
  }

  lemma SubZero()
    ensures forall x: Byte :: Sub(x, 0) == x && Add(x, 0) == x
  {
  }

  /** Writes byte i of a filtered line. */
  method PutFiltered(ghost c: Job, out: array<Byte>, pos: nat, v: Byte, ghost i: nat)
    requires JobOk(c) && Filtering(c, out[..], i) && i < |c.line| && pos == c.at + i
    requires v == Sub(c.line[i], Predict(c.t, Left(c.line, c.bytewidth, i), c.prev[i], Left(c.prev, c.bytewidth, i)))
    modifies out
    ensures Filtering(c, out[..], i + 1)
  {
    hide Sub;
    hide Predict;
    ghost var f, now := Filtered(c.t, c.bytewidth, c.line, c.prev), out[..];
    out[pos] := v;
    assert f[..i + 1] == f[..i] + [v];
    assert out[..][c.at..c.at + i] == now[c.at..c.at + i];
    assert out[..][c.at..c.at + (i + 1)] == out[..][c.at..c.at + i] + [v];
  }

  /** With only one neighbour present, the Paeth predictor is that neighbour. */
  lemma PaethOneNeighbour()
    ensures forall x: Byte :: Paeth(x, 0, 0) == x && Paeth(0, x, 0) == x
  {
  }

  method FilterNone(ghost c: Job, out: array<Byte>, oo: nat, input: array<Byte>, so: nat, prev: Prev, length: nat, bytewidth: nat)
    requires FilterPre(c, out, oo, input, so, prev, length, bytewidth) && c.t == 0 && out[..] == c.before
    modifies out
    ensures Filtering(c, out[..], length)
  {
    hide Filtering;
    hide Filtered;
    hide Sub;
    hide Paeth;
    NothingFiltered(c);
    SubZero();
    for i := 0 to length
      invariant Filtering(c, out[..], i)
    {
      PutFiltered(c, out, oo + i, input[so + i], i);
    }
  }

  method FilterSub(ghost c: Job, out: array<Byte>, oo: nat, input: array<Byte>, so: nat, prev: Prev, length: nat, bytewidth: nat)
    requires FilterPre(c, out, oo, input, so, prev, length, bytewidth) && c.t == 1 && out[..] == c.before
    modifies out
    ensures Filtering(c, out[..], length)
  {
    hide Filtering;
    hide Filtered;
    hide Sub;
    hide Paeth;
    NothingFiltered(c);
    SubZero();
    for i := 0 to bytewidth
      invariant Filtering(c, out[..], i)
    {
      PutFiltered(c, out, oo + i, input[so + i], i);
    }
    for i := bytewidth to length
      invariant Filtering(c, out[..], i)
    {
      PutFiltered(c, out, oo + i, Sub(input[so + i], input[so + i - bytewidth]), i);
    }
  }

  method FilterUp(ghost c: Job, out: array<Byte>, oo: nat, input: array<Byte>, so: nat, prev: Prev, length: nat, bytewidth: nat)
    requires FilterPre(c, out, oo, input, so, prev, length, bytewidth) && c.t == 2 && out[..] == c.before
    modifies out
    ensures Filtering(c, out[..], length)
  {
    hide Filtering;
    hide Filtered;
    hide Sub;
    hide Paeth;
    NothingFiltered(c);
    SubZero();
    if prev.Line? {
      for i := 0 to length
        invariant Filtering(c, out[..], i)
      {
        PutFiltered(c, out, oo + i, Sub(input[so + i], input[prev.pos + i]), i);
      }
    } else {
      for i := 0 to length
        invariant Filtering(c, out[..], i)
      {
        PutFiltered(c, out, oo + i, input[so + i], i);
      }
    }
  }

  method FilterAverage(ghost c: Job, out: array<Byte>, oo: nat, input: array<Byte>, so: nat, prev: Prev, length: nat, bytewidth: nat)
    requires FilterPre(c, out, oo, input, so, prev, length, bytewidth) && c.t == 3 && out[..] == c.before
    modifies out
    ensures Filtering(c, out[..], length)
  {
    hide Filtering;
    hide Filtered;
    hide Sub;
    hide Paeth;
    NothingFiltered(c);
    SubZero();
    if prev.Line? {
      for i := 0 to bytewidth
        invariant Filtering(c, out[..], i)
      {
        PutFiltered(c, out, oo + i, Sub(input[so + i], input[prev.pos + i] / 2), i);
      }
      for i := bytewidth to length
        invariant Filtering(c, out[..], i)
      {
        PutFiltered(c, out, oo + i, Sub(input[so + i], Average(input[so + i - bytewidth], input[prev.pos + i])), i);
      }
    } else {
      for i := 0 to bytewidth
        invariant Filtering(c, out[..], i)
      {
        PutFiltered(c, out, oo + i, input[so + i], i);
      }
      for i := bytewidth to length
        invariant Filtering(c, out[..], i)
      {
        PutFiltered(c, out, oo + i, Sub(input[so + i], input[so + i - bytewidth] / 2), i);
      }
    }
  }

  method FilterPaeth(ghost c: Job, out: array<Byte>, oo: nat, input: array<Byte>, so: nat, prev: Prev, length: nat, bytewidth: nat)
    requires FilterPre(c, out, oo, input, so, prev, length, bytewidth) && c.t == 4 && out[..] == c.before
    modifies out
    ensures Filtering(c, out[..], length)
  {
    hide Filtering;
    hide Filtered;
    hide Sub;
    hide Paeth;
    NothingFiltered(c);
    SubZero();
    PaethOneNeighbour();
    if prev.Line? {
      for i := 0 to bytewidth
        invariant Filtering(c, out[..], i)
      {
        PutFiltered(c, out, oo + i, Sub(input[so + i], input[prev.pos + i]), i);
      }
      for i := bytewidth to length
        invariant Filtering(c, out[..], i)
      {
        var p := PaethPredictor(input[so + i - bytewidth], input[prev.pos + i], input[prev.pos + i - bytewidth]);
        PutFiltered(c, out, oo + i, Sub(input[so + i], p), i);
      }
    } else {
      for i := 0 to bytewidth
        invariant Filtering(c, out[..], i)
      {
        PutFiltered(c, out, oo + i, input[so + i], i);
      }
      for i := bytewidth to length
        invariant Filtering(c, out[..], i)
      {
        PutFiltered(c, out, oo + i, Sub(input[so + i], input[so + i - bytewidth]), i);
      }
    }
  }

  /** Filters one line; an unknown type writes nothing. */
  method FilterScanline(out: array<Byte>, oo: nat, input: array<Byte>, so: nat, prev: Prev,
                        length: nat, bytewidth: nat, t: nat)
    requires out != input && oo + length <= out.Length && so + length <= input.Length
    requires prev.Line? ==> prev.pos + length <= input.Length
    requires 0 < bytewidth <= length
    modifies out
    ensures t <= 4 ==>
              out[..] == old(out[..])[..oo]
                + Filtered(t, bytewidth, input[so..so + length], PrevBytes(input[..], prev, length))
                + old(out[..])[oo + length..]
    ensures t > 4 ==> out[..] == old(out[..])
  {
    hide Filtering;
    hide Filtered;
    ghost var c := Job(out[..], oo, t, bytewidth, input[so..so + length], PrevBytes(input[..], prev, length));
    if t == 0 { FilterNone(c, out, oo, input, so, prev, length, bytewidth); }
    else if t == 1 { FilterSub(c, out, oo, input, so, prev, length, bytewidth); }
    else if t == 2 { FilterUp(c, out, oo, input, so, prev, length, bytewidth); }
    else if t == 3 { FilterAverage(c, out, oo, input, so, prev, length, bytewidth); }
    else if t == 4 { FilterPaeth(c, out, oo, input, so, prev, length, bytewidth); }
    if t <= 4 {
      FilteringAll(c, out[..]);
    }
  }
}
