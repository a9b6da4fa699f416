/** Filtering and unfiltering all lines of an image, the latter possibly in place. */
module ImageFilter {
  import opened Bits
  import opened PngFilters
  import opened Scanlines
  import opened Unfiltering

  // ---- specification ----

  function Times(a: nat, n: nat): nat
  {
    a * n
  }

  lemma NextRow(a: nat, n: nat)
    ensures Times(a, n + 1) == Times(a, n) + a && Times(a, 0) == 0
  {
  }

  /** Row y of an image of lines of lb bytes, and the row above it. */
  function Row(img: seq<Byte>, lb: nat, y: nat): (r: seq<Byte>)
    requires Times(lb, y) + lb <= |img|
    ensures |r| == lb
  {
    img[Times(lb, y)..Times(lb, y) + lb]
  }

  function RowAbove(img: seq<Byte>, lb: nat, y: nat): (r: seq<Byte>)
    requires Times(lb, y) <= |img|
    ensures |r| == lb
  {
    if y == 0 then seq<Byte>(lb, _ => 0)
    else
      NextRow(lb, y - 1);
      Row(img, lb, y - 1)
  }

  /** Every line filtered with its own type, the type byte in front. */
  function FilteredImage(img: seq<Byte>, lb: nat, bytewidth: nat, types: seq<Byte>): (r: seq<Byte>)
    requires bytewidth > 0 && Times(lb, |types|) <= |img|
    ensures |r| == Times(1 + lb, |types|)
  {
    NextRow(1 + lb, 0);
    if types == [] then []
    else
      var y := |types| - 1;
      NextRow(lb, y);
      NextRow(1 + lb, y);
      FilteredImage(img, lb, bytewidth, types[..y])
      + ([types[y]] + Filtered(types[y], bytewidth, Row(img, lb, y), RowAbove(img, lb, y)))
  }

  /** Every line reconstructed, from the filtered line and the line reconstructed before it. */
  function UnfilteredImage(data: seq<Byte>, lb: nat, bytewidth: nat, h: nat): (r: seq<Byte>)
    requires bytewidth > 0 && Times(1 + lb, h) <= |data|
    ensures |r| == Times(lb, h)
  {
    NextRow(lb, 0);
    if h == 0 then []
    else
      NextRow(lb, h - 1);
      NextRow(1 + lb, h - 1);
      var done := UnfilteredImage(data, lb, bytewidth, h - 1);
      done + Recon(data[Times(1 + lb, h - 1)], bytewidth, FilteredRow(data, lb, h - 1), RowAbove(done, lb, h - 1))
  }

  /** Row y of filtered data, without its type byte. */
  function FilteredRow(data: seq<Byte>, lb: nat, y: nat): (r: seq<Byte>)
    requires Times(1 + lb, y) + 1 + lb <= |data|
    ensures |r| == lb
  {
    var at := Times(1 + lb, y);
    data[at + 1..at + 1 + lb]
  }

  ghost predicate TypesOk(data: seq<Byte>, lb: nat, h: nat)
    requires Times(1 + lb, h) <= |data|
  {
    forall y: nat :: y < h ==> TypeAt(data, lb, h, y) <= 4
  }

  function TypeAt(data: seq<Byte>, lb: nat, h: nat, y: nat): Byte
    requires Times(1 + lb, h) <= |data| && y < h
  {
    RowInside(1 + lb, y, h);
    data[Times(1 + lb, y)]
  }

  lemma {:induction false} RowInside(a: nat, y: nat, h: nat)
    requires y < h
    ensures Times(a, y) + a <= Times(a, h)
  {
    NextRow(a, y);
    if y + 1 < h {
      NextRow(a, h - 1);
      RowInside(a, y, h - 1);
    }
  }

  lemma RowAboveIs(img: seq<Byte>, lb: nat, y: nat)
    requires Times(lb, y) <= |img|
    ensures RowAbove(img[..Times(lb, y)], lb, y) == RowAbove(img, lb, y)
  {
    if y > 0 {
      NextRow(lb, y - 1);
      assert img[..Times(lb, y)] == img[0..Times(lb, y)];
      SliceOfSlice(img, 0, Times(lb, y), Times(lb, y - 1), lb);
    }
  }

  /** Where a row lies among filtered rows. */
  lemma RowAmong(above: seq<Byte>, t: Byte, line: seq<Byte>, rest: seq<Byte>, lb: nat, y: nat)
    requires |above| == Times(1 + lb, y) && |line| == lb
    ensures var data := above + ([t] + line) + rest;
            && data == above + ([t] + line + rest)
            && Times(1 + lb, y) + 1 + lb <= |data| && data[Times(1 + lb, y)] == t && FilteredRow(data, lb, y) == line
  {
    hide Times;
    assert above + ([t] + line) + rest == above + ([t] + line + rest);
  }

  /** The last row of filtered data, reconstructed. */
  lemma LastRow(data: seq<Byte>, lb: nat, bytewidth: nat, y: nat)
    requires bytewidth > 0 && Times(1 + lb, y + 1) <= |data| && Times(1 + lb, y + 1) == Times(1 + lb, y) + (1 + lb)
    ensures var done := UnfilteredImage(data, lb, bytewidth, y);
            UnfilteredImage(data, lb, bytewidth, y + 1)
            == done + Recon(data[Times(1 + lb, y)], bytewidth, FilteredRow(data, lb, y), RowAbove(done, lb, y))
  {
    hide Recon;
    hide FilteredRow;
    hide RowAbove;
  }

  /** Unfiltering undoes filtering, whatever type each row has. */
  lemma {:induction false} UnfilterFilter(img: seq<Byte>, lb: nat, bytewidth: nat, types: seq<Byte>, rest: seq<Byte>)
    requires bytewidth > 0 && Times(lb, |types|) <= |img|
    ensures UnfilteredImage(FilteredImage(img, lb, bytewidth, types) + rest, lb, bytewidth, |types|) == img[..Times(lb, |types|)]
    decreases |types|
  {
    hide Recon;
    hide Filtered;
    hide FilteredRow;
    hide Row;
    hide RowAbove;
    hide Times;
    NextRow(lb, 0);
    if types != [] {
      var y := |types| - 1;
      NextRow(lb, y);
      NextRow(1 + lb, y);
      var above := FilteredImage(img, lb, bytewidth, types[..y]);
      var line := Filtered(types[y], bytewidth, Row(img, lb, y), RowAbove(img, lb, y));
      var last := [types[y]] + line;
      UnfilterFilter(img, lb, bytewidth, types[..y], last + rest);
      RowAmong(above, types[y], line, rest, lb, y);
      LastRow(above + last + rest, lb, bytewidth, y);
      RowAboveIs(img, lb, y);
      ReconFiltered(types[y], bytewidth, Row(img, lb, y), RowAbove(img, lb, y));
      RowSplit(img, lb, y);
    }
  }

  lemma RowSplit(img: seq<Byte>, lb: nat, y: nat)
    requires Times(lb, y) + lb <= |img|
    ensures img[..Times(lb, y)] + Row(img, lb, y) == img[..Times(lb, y) + lb]
  {
  }

  lemma {:induction false} FilteredTypes(img: seq<Byte>, lb: nat, bytewidth: nat, types: seq<Byte>, rest: seq<Byte>, y: nat)
    requires bytewidth > 0 && Times(lb, |types|) <= |img| && y < |types|
    ensures TypeAt(FilteredImage(img, lb, bytewidth, types) + rest, lb, |types|, y) == types[y]
    decreases |types|
  {
    hide Filtered;
    hide Row;
    hide RowAbove;
    var n := |types| - 1;
    NextRow(lb, n);
    NextRow(1 + lb, n);
    var above := FilteredImage(img, lb, bytewidth, types[..n]);
    var last := [types[n]] + Filtered(types[n], bytewidth, Row(img, lb, n), RowAbove(img, lb, n));
    if y < n {
      RowInside(1 + lb, y, n);
      FilteredTypes(img, lb, bytewidth, types[..n], last + rest, y);
      assert above + last + rest == above + (last + rest);
    }
  }

  /** Every line of an image u and of its filtered data agree by the type byte in front of the line. */
  ghost predicate ImageMeans(data: seq<Byte>, lb: nat, bytewidth: nat, h: nat, u: seq<Byte>)
    requires Times(1 + lb, h) <= |data| && Times(lb, h) <= |u|
  {
    forall y: nat :: y < h ==> RowMeans(data, lb, bytewidth, h, u, y)
  }

  ghost predicate RowMeans(data: seq<Byte>, lb: nat, bytewidth: nat, h: nat, u: seq<Byte>, y: nat)
    requires Times(1 + lb, h) <= |data| && Times(lb, h) <= |u| && y < h
  {
    RowInside(1 + lb, y, h);
    RowInside(lb, y, h);
    LineMeans(data[Times(1 + lb, y)], bytewidth, FilteredRow(data, lb, y), Row(u, lb, y), RowAbove(u, lb, y))
  }

  /** A reconstructed image and its filtered data differ by what the filter types predict. */
  lemma {:induction false} UnfilteredMeans(data: seq<Byte>, lb: nat, bytewidth: nat, h: nat)
    requires bytewidth > 0 && Times(1 + lb, h) <= |data| && TypesOk(data, lb, h)
    ensures ImageMeans(data, lb, bytewidth, h, UnfilteredImage(data, lb, bytewidth, h))
    decreases h
  {
    hide Recon;
    hide LineMeans;
    hide Row;
    hide RowAbove;
    hide FilteredRow;
    if h > 0 {
      var n := h - 1;
      NextRow(lb, n);
      NextRow(1 + lb, n);
      hide Times;
      var u, done := UnfilteredImage(data, lb, bytewidth, h), UnfilteredImage(data, lb, bytewidth, n);
      forall y: nat | y < n ensures TypeAt(data, lb, n, y) <= 4 {
        RowInside(1 + lb, y, n);
        RowInside(1 + lb, y, h);
        assert TypeAt(data, lb, h, y) <= 4;
      }
      UnfilteredMeans(data, lb, bytewidth, n);
      forall y: nat | y < h ensures RowMeans(data, lb, bytewidth, h, u, y) {
        RowInside(1 + lb, y, h);
        RowInside(lb, y, h);
        assert TypeAt(data, lb, h, y) <= 4;
        if y < n {
          RowInside(lb, y, n);
          assert RowMeans(data, lb, bytewidth, n, done, y);
          RowsKept(done, u, lb, y);
        } else {
          LastRow(data, lb, bytewidth, n);
          ReconLineMeans(data[Times(1 + lb, n)], bytewidth, FilteredRow(data, lb, n), RowAbove(done, lb, n));
          RowsLast(done, Recon(data[Times(1 + lb, n)], bytewidth, FilteredRow(data, lb, n), RowAbove(done, lb, n)), lb, n);
        }
      }
    }
  }

  lemma RowsKept(done: seq<Byte>, u: seq<Byte>, lb: nat, y: nat)
    requires Times(lb, y) + lb <= |done| && done <= u
    ensures Times(lb, y) + lb <= |u| && Row(u, lb, y) == Row(done, lb, y) && RowAbove(u, lb, y) == RowAbove(done, lb, y)
  {
    if y > 0 { NextRow(lb, y - 1); }
  }

  lemma RowsLast(done: seq<Byte>, line: seq<Byte>, lb: nat, y: nat)
    requires |done| == Times(lb, y) && |line| == lb
    ensures Row(done + line, lb, y) == line && RowAbove(done + line, lb, y) == RowAbove(done, lb, y)
  {
    if y > 0 { NextRow(lb, y - 1); }
  }

  // ---- unfiltering in memory ----

  /** The memory beyond what has been written is as before. */
  ghost predicate Written<T>(before: seq<T>, now: seq<T>, at: nat, r: seq<T>)
  {
    && |now| == |before| && at + |r| <= |now|
    && now[at..at + |r|] == r
    && (forall k :: 0 <= k < |now| && !(at <= k < at + |r|) ==> now[k] == before[k])
  }

  /** Extending what is written by an adjacent piece. */
  lemma WrittenMore<T>(before: seq<T>, now: seq<T>, at: nat, r: seq<T>, more: seq<T>, after: seq<T>)
    requires Written(before, now, at, r) && at + |r| + |more| <= |now|
    requires after == now[..at + |r|] + more + now[at + |r| + |more|..]
    ensures Written(before, after, at, r + more)
  {
    assert after[at..at + |r + more|] == now[at..at + |r|] + more;
  }

  lemma WrittenPlace<T>(before: seq<T>, now: seq<T>, at: nat, r: seq<T>)
    requires Written(before, now, at, r)
    ensures |now| == |before| && at + |r| <= |now| && now[at..at + |r|] == r
  {
  }

  lemma UnfilteredNext(data: seq<Byte>, lb: nat, bytewidth: nat, h: nat, y: nat)
    requires bytewidth > 0 && y < h && |data| == Times(1 + lb, h) && Times(1 + lb, y + 1) <= |data|
    ensures Times(1 + lb, y) + 1 + lb <= |data|
    ensures var at, done := Times(1 + lb, y), UnfilteredImage(data, lb, bytewidth, y);
            && UnfilteredImage(data, lb, bytewidth, y + 1)
               == done + Recon(data[at], bytewidth, FilteredRow(data, lb, y), RowAbove(done, lb, y))
            && TypeAt(data, lb, h, y) == data[at]
  {
    hide Recon;
    hide RowAbove;
    NextRow(1 + lb, y);
  }

  /** Before row y there are y filter bytes. */
  lemma FilterBytes(lb: nat, y: nat)
    ensures Times(1 + lb, y) == Times(lb, y) + y
  {
  }

  /** The row to be read has not been written over. */
  lemma RowIntact(before: seq<Byte>, now: seq<Byte>, same: bool, input: seq<Byte>, oo: nat, done: seq<Byte>,
                  io: nat, data: seq<Byte>, at: nat, n: nat)
    requires Written(before, now, oo, done) && (same ==> now == input && oo + |done| <= io + at)
    requires io + |data| <= |input| && data == (if same then before else input)[io..io + |data|]
    requires 0 < n && at + n <= |data|
    ensures input[io + at] == data[at]
    ensures input[io + at + 1..io + at + n] == data[at + 1..at + n]
  {
    var w, d := input[io + at..io + at + n], data[at..at + n];
    forall k | 0 <= k < n ensures w[k] == d[k] {
      assert data[at + k] == (if same then before else input)[io..io + |data|][at + k];
    }
    assert w == d;
    assert w[0] == input[io + at] && d[0] == data[at];
    assert w[1..] == input[io + at + 1..io + at + n] && d[1..] == data[at + 1..at + n];
  }

  /** Where row y is read, written, and the row above it. */
  lemma RowBounds(oo: nat, outSize: nat, io: nat, inSize: nat, lb: nat, h: nat, y: nat, prev: Prev)
    requires y < h && oo + Times(lb, h) <= outSize && io + Times(1 + lb, h) <= inSize
    requires prev == if y == 0 then NoLine else Line(oo + Times(lb, y - 1))
    ensures oo + Times(lb, y) + lb <= outSize && io + Times(1 + lb, y) + (1 + lb) <= inSize
    ensures oo <= io ==> oo + Times(lb, y) <= io + Times(1 + lb, y)
    ensures prev.Line? ==> prev.pos + lb == oo + Times(lb, y)
    ensures Times(1 + lb, y) + (1 + lb) == Times(1 + lb, y + 1) <= Times(1 + lb, h)
  {
    RowInside(lb, y, h);
    RowInside(1 + lb, y, h);
    FilterBytes(lb, y);
    NextRow(1 + lb, y);
    if y > 0 { NextRow(lb, y - 1); }
  }

  /** What row y is reconstructed from is still there. */
  lemma RowReady(before: seq<Byte>, now: seq<Byte>, same: bool, input: seq<Byte>, oo: nat, io: nat, lb: nat,
                 y: nat, prev: Prev, data: seq<Byte>, done: seq<Byte>, at: nat)
    requires at == Times(1 + lb, y) && at + (1 + lb) <= |data| && io + |data| <= |input| && |done| == Times(lb, y)
    requires oo + |done| + lb <= |now| && (prev.Line? ==> prev.pos + lb <= |now|)
    requires same ==> now == input && oo + |done| <= io + at && io + |data| <= |before|
    requires Written(before, now, oo, done) && data == (if same then before else input)[io..io + |data|]
    requires prev == if y == 0 then NoLine else Line(oo + Times(lb, y - 1))
    ensures input[io + at] == data[at] && input[io + at + 1..io + at + 1 + lb] == FilteredRow(data, lb, y)
    ensures PrevBytes(now, prev, lb) == RowAbove(done, lb, y)
  {
    hide RowAbove;
    hide Written;
    hide Times;
    hide FilteredRow;
    hide PrevBytes;
    WrittenPlace(before, now, oo, done);
    RowIntact(before, now, same, input, oo, done, io, data, at, 1 + lb);
    RowIs(input, io + at + 1, io + at + (1 + lb), data, lb, y);
    PrevIsAbove(now, oo, lb, y, prev, done);
  }

  /** One more row, read from data that may lie in the same memory further on. */
  method UnfilterRow(out: array<Byte>, oo: nat, input: array<Byte>, io: nat, lb: nat, bytewidth: nat, h: nat, y: nat,
                     prev: Prev, ghost before: seq<Byte>, ghost data: seq<Byte>) returns (error: int)
    requires 0 < bytewidth <= lb && y < h && |data| == Times(1 + lb, h) && Times(1 + lb, y + 1) <= |data|
    requires oo + Times(lb, h) <= out.Length && io + Times(1 + lb, h) <= input.Length && (out == input ==> oo <= io)
    requires Written(before, out[..], oo, UnfilteredImage(data, lb, bytewidth, y))
    requires io + |data| <= |before| || out != input
    requires data == (if out == input then before else input[..])[io..io + |data|]
    requires prev == if y == 0 then NoLine else Line(oo + Times(lb, y - 1))
    modifies out
    ensures error == if TypeAt(data, lb, h, y) <= 4 then 0 else 36
    ensures error == 0 ==> Written(before, out[..], oo, UnfilteredImage(data, lb, bytewidth, y + 1))
  {
    hide LineMeans;
    hide Recon;
    hide RowAbove;
    hide Written;
    hide UnfilteredImage;
    hide Times;
    hide TypeAt;
    hide FilteredRow;
    hide PrevBytes;
    hide Row;
    RowBounds(oo, out.Length, io, input.Length, lb, h, y, prev);
    UnfilteredNext(data, lb, bytewidth, h, y);
    ghost var now, done := out[..], UnfilteredImage(data, lb, bytewidth, y);
    var outindex, inindex := Times(lb, y), Times(1 + lb, y);
    RowReady(before, now, out == input, input[..], oo, io, lb, y, prev, data, done, inindex);
    var so := io + inindex + 1;
    var filterType := input[io + inindex];
    ghost var row := FilteredRow(data, lb, y);
    assert input[..][so..so + lb] == input[so..so + lb];
    error := UnfilterScanline(out, oo + outindex, input, so, prev, bytewidth, filterType, lb);
    if error == 0 {
      WrittenMore(before, now, oo, done, Recon(filterType, bytewidth, row, RowAbove(done, lb, y)), out[..]);
    }
  }

  /** A row's bytes come after its type byte. */
  lemma RowIs(input: seq<Byte>, so: nat, end: nat, data: seq<Byte>, lb: nat, y: nat)
    requires Times(1 + lb, y) + 1 + lb <= |data| && end == so + lb <= |input|
    requires input[so..end] == data[Times(1 + lb, y) + 1..Times(1 + lb, y) + (1 + lb)]
    ensures input[so..so + lb] == FilteredRow(data, lb, y)
  {
    hide Times;
  }

  lemma PrevIsAbove(now: seq<Byte>, oo: nat, lb: nat, y: nat, prev: Prev, done: seq<Byte>)
    requires |done| == Times(lb, y) && oo + Times(lb, y) <= |now| && now[oo..oo + Times(lb, y)] == done
    requires prev == if y == 0 then NoLine else Line(oo + Times(lb, y - 1))
    ensures prev.Line? ==> prev.pos + lb <= oo + Times(lb, y)
    ensures PrevBytes(now, prev, lb) == RowAbove(done, lb, y)
  {
    if y > 0 {
      NextRow(lb, y - 1);
      var a := Times(lb, y - 1);
      SliceOfSlice(now, oo, a + lb, a, lb);
    }
  }

  /** Reconstructs an image, also over the filtered image, as long as the result starts no later. */
  method UnfilterLines(out: array<Byte>, oo: nat, input: array<Byte>, io: nat, lb: nat, bytewidth: nat, h: nat)
    returns (error: int)
    requires h > 0 ==> 0 < bytewidth <= lb
    requires bytewidth > 0
    requires oo + Times(lb, h) <= out.Length && io + Times(1 + lb, h) <= input.Length && (out == input ==> oo <= io)
    modifies out
    ensures error == 0 <==> TypesOk(old(input[..])[io..io + Times(1 + lb, h)], lb, h)
    ensures error == 0 ==>
              Written(old(out[..]), out[..], oo, UnfilteredImage(old(input[..])[io..io + Times(1 + lb, h)], lb, bytewidth, h))
    ensures error == 0 ==>
              ImageMeans(old(input[..])[io..io + Times(1 + lb, h)], lb, bytewidth, h, out[oo..oo + Times(lb, h)])
  {
    hide ImageMeans;
    hide Written;
    hide UnfilteredImage;
    hide TypeAt;
    ghost var before, data := out[..], input[io..io + Times(1 + lb, h)];
    NothingWritten(before, oo, data, lb, bytewidth);
    var prev := NoLine;
    error := 0;
    for y := 0 to h
      invariant Times(1 + lb, y) <= |data|
      invariant Written(before, out[..], oo, UnfilteredImage(data, lb, bytewidth, y))
      invariant prev == if y == 0 then NoLine else Line(oo + Times(lb, y - 1))
      invariant forall k: nat :: k < y ==> TypeAt(data, lb, h, k) <= 4
    {
      RowInside(1 + lb, y, h);
      NextRow(1 + lb, y);
      hide Times;
      error := UnfilterRow(out, oo, input, io, lb, bytewidth, h, y, prev, before, data);
      if error != 0 { return; }
      prev := Line(oo + Times(lb, y));
    }
    UnfilteredMeans(data, lb, bytewidth, h);
    WrittenPlace(before, out[..], oo, UnfilteredImage(data, lb, bytewidth, h));
  }

  lemma NothingWritten(mem: seq<Byte>, at: nat, data: seq<Byte>, lb: nat, bytewidth: nat)
    requires bytewidth > 0 && at <= |mem|
    ensures Times(1 + lb, 0) == 0 && Written(mem, mem, at, UnfilteredImage(data, lb, bytewidth, 0))
  {
  }
}
