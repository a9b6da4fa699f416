/** Reconstructing one scanline in memory, possibly over the filtered bytes themselves. */
module Unfiltering {
  import opened Bits
  import opened PngFilters
  import opened Scanlines

  // ---- what is done and what is still there ----

  ghost predicate Unfiltering(c: Job, now: seq<Byte>, i: nat)
    requires JobOk(c)
  {
    i <= |c.line| && Placed(c, now, Recon(c.t, c.bytewidth, c.line[..i], c.prev))
  }

  /** Result and line may share memory, but the result is never ahead of what is read. */
  ghost predicate UnfilterPre(c: Job, recon: array<Byte>, ro: nat, scanline: array<Byte>, so: nat, length: nat, bytewidth: nat)
  {
    && JobOk(c) && c.at == ro && |c.line| == length && c.bytewidth == bytewidth
    && |c.before| == recon.Length && so + length <= scanline.Length && (recon == scanline ==> ro <= so)
  }

  /** The first i bytes are reconstructed; the rest of the line and the line above are still there. */
  ghost predicate At(c: Job, recon: array<Byte>, scanline: array<Byte>, so: nat, prev: Prev, i: nat)
    reads recon, scanline
  {
    && JobOk(c) && Unfiltering(c, recon[..], i)
    && so + |c.line| <= scanline.Length
    && (forall k :: i <= k < |c.line| ==> scanline[so + k] == c.line[k])
    && (prev.Line? ==> (prev.pos + |c.prev| <= c.at || c.at + |c.line| <= prev.pos)) && Above(c, recon, prev)
    && |c.before| == recon.Length
  }

  /** What byte i must become, given the reconstructed byte to its left. */
  ghost predicate Due(c: Job, i: nat, left: Byte, v: Byte)
    requires JobOk(c) && i < |c.line|
  {
    v == Add(c.line[i], Predict(c.t, left, c.prev[i], Left(c.prev, c.bytewidth, i)))
  }

  lemma AddZero()
    ensures forall x: Byte :: Add(x, 0) == x && Average(0, x) == x / 2 && Average(x, 0) == x / 2
  {
  }

  lemma {:induction false} BlockPlaced(c: Job, now: seq<Byte>, i: nat, block: seq<Byte>)
    requires JobOk(c) && Unfiltering(c, now, i)
    requires i + |block| <= |c.line| && |block| <= c.bytewidth
    requires forall q: nat :: q < |block| ==>
               Due(c, i + q, if i + q < c.bytewidth then 0 else now[c.at + i + q - c.bytewidth], block[q])
    ensures Unfiltering(c, now[..c.at + i] + block + now[c.at + i + |block|..], i + |block|)
  {
    hide Predict;
    hide Add;
    hide Recon;
    var r := Recon(c.t, c.bytewidth, c.line[..i], c.prev);
    var after := now[..c.at + i] + block + now[c.at + i + |block|..];
    forall q {:trigger block[q]} | 0 <= q < |block|
      ensures block[q] == Add(c.line[i + q], Predict(c.t, Left(r + block, c.bytewidth, i + q),
                                                      c.prev[i + q], Left(c.prev, c.bytewidth, i + q)))
    {
      assert Due(c, i + q, if i + q < c.bytewidth then 0 else now[c.at + i + q - c.bytewidth], block[q]);
      if i + q >= c.bytewidth {
        assert now[c.at..c.at + i][i + q - c.bytewidth] == r[i + q - c.bytewidth];
      }
    }
    ReconBlock(c.t, c.bytewidth, c.line, c.prev, i, block);
    assert after[c.at..c.at + (i + |block|)] == now[c.at..c.at + i] + block;
  }

  lemma StartUnfiltering(c: Job)
    requires JobOk(c)
    ensures Unfiltering(c, c.before, 0)
  {
  }

  /** Bytes in place, the others untouched. */
  method StoreBlock(recon: array<Byte>, pos: nat, block: seq<Byte>)
    requires pos + |block| <= recon.Length
    modifies recon
    ensures recon[..] == old(recon[..])[..pos] + block + old(recon[..])[pos + |block|..]
    ensures forall k :: 0 <= k < recon.Length ==>
                          recon[k] == if pos <= k < pos + |block| then block[k - pos] else old(recon[k])
  {
    for q := 0 to |block|
      invariant forall k :: 0 <= k < recon.Length ==>
                              recon[k] == if pos <= k < pos + q then block[k - pos] else old(recon[k])
    {
      recon[pos + q] := block[q];
    }
  }

  /** Writes several bytes of one pixel at once. */
  method PutBlock(ghost c: Job, recon: array<Byte>, ghost scanline: array<Byte>, ghost so: nat, ghost prev: Prev,
                  pos: nat, block: seq<Byte>, ghost i: nat)
    requires At(c, recon, scanline, so, prev, i) && i + |block| <= |c.line| && |block| <= c.bytewidth && pos == c.at + i
    requires recon == scanline ==> c.at <= so
    requires forall q: nat :: q < |block| ==>
               Due(c, i + q, if i + q < c.bytewidth then 0 else recon[c.at + i + q - c.bytewidth], block[q])
    modifies recon
    ensures At(c, recon, scanline, so, prev, i + |block|)
    ensures forall q :: 0 <= q < |block| ==> recon[pos + q] == block[q]
  {
    hide Unfiltering;
    hide Due;
    ghost var now := recon[..];
    BlockPlaced(c, now, i, block);
    StoreBlock(recon, pos, block);
  }

  method PutByte(ghost c: Job, recon: array<Byte>, ghost scanline: array<Byte>, ghost so: nat, ghost prev: Prev,
                 pos: nat, v: Byte, ghost i: nat)
    requires At(c, recon, scanline, so, prev, i) && i < |c.line| && pos == c.at + i
    requires recon == scanline ==> c.at <= so
    requires Due(c, i, if i < c.bytewidth then 0 else recon[c.at + i - c.bytewidth], v)
    modifies recon
    ensures At(c, recon, scanline, so, prev, i + 1)
  {
    hide Unfiltering;
    hide Due;
    PutBlock(c, recon, scanline, so, prev, pos, [v], i);
  }

  // ---- the filter types ----

  method UnfilterNone(ghost c: Job, recon: array<Byte>, ro: nat, scanline: array<Byte>, so: nat, prev: Prev, length: nat, bytewidth: nat)
    requires UnfilterPre(c, recon, ro, scanline, so, length, bytewidth) && c.t == 0
    requires At(c, recon, scanline, so, prev, 0)
    modifies recon
    ensures At(c, recon, scanline, so, prev, length)
  {
    hide Unfiltering;
    hide Add;
    hide Paeth;
    AddZero();
    for i := 0 to length
      invariant At(c, recon, scanline, so, prev, i)
    {
      PutByte(c, recon, scanline, so, prev, ro + i, scanline[so + i], i);
    }
  }

  method UnfilterSub(ghost c: Job, recon: array<Byte>, ro: nat, scanline: array<Byte>, so: nat, prev: Prev, length: nat, bytewidth: nat)
    requires UnfilterPre(c, recon, ro, scanline, so, length, bytewidth) && c.t == 1
    requires At(c, recon, scanline, so, prev, 0)
    modifies recon
    ensures At(c, recon, scanline, so, prev, length)
  {
    hide Unfiltering;
    hide Add;
    hide Paeth;
    AddZero();
    for i := 0 to bytewidth
      invariant At(c, recon, scanline, so, prev, i)
    {
      PutByte(c, recon, scanline, so, prev, ro + i, scanline[so + i], i);
    }
    var j := 0;
    for i := bytewidth to length
      invariant At(c, recon, scanline, so, prev, i)
      invariant j == i - bytewidth
    {
      PutByte(c, recon, scanline, so, prev, ro + i, Add(scanline[so + i], recon[ro + j]), i);
      j := j + 1;
    }
  }

  method UnfilterUp(ghost c: Job, recon: array<Byte>, ro: nat, scanline: array<Byte>, so: nat, prev: Prev, length: nat, bytewidth: nat)
    requires UnfilterPre(c, recon, ro, scanline, so, length, bytewidth) && c.t == 2
    requires At(c, recon, scanline, so, prev, 0)
    modifies recon
    ensures At(c, recon, scanline, so, prev, length)
  {
    hide Unfiltering;
    hide Add;
    hide Paeth;
    AddZero();
    if prev.Line? {
      for i := 0 to length
        invariant At(c, recon, scanline, so, prev, i)
      {
        PutByte(c, recon, scanline, so, prev, ro + i, Add(scanline[so + i], recon[prev.pos + i]), i);
      }
    } else {
      for i := 0 to length
        invariant At(c, recon, scanline, so, prev, i)
      {
        PutByte(c, recon, scanline, so, prev, ro + i, scanline[so + i], i);
      }
    }
  }

  /** The unrolled loop of the average filter: n independent bytes at a time. */
  method AverageBlocks(ghost c: Job, recon: array<Byte>, ro: nat, scanline: array<Byte>, so: nat, prev: Prev,
                       length: nat, bytewidth: nat, n: nat) returns (i: nat, j: nat)
    requires UnfilterPre(c, recon, ro, scanline, so, length, bytewidth) && c.t == 3 && prev.Line?
    requires At(c, recon, scanline, so, prev, bytewidth) && 0 < n <= bytewidth
    modifies recon
    ensures bytewidth <= i <= length && j == i - bytewidth && At(c, recon, scanline, so, prev, i)
  {
    hide Unfiltering;
    hide Add;
    i, j := bytewidth, 0;
    while i + n - 1 < length
      invariant bytewidth <= i <= length && j == i - bytewidth && At(c, recon, scanline, so, prev, i)
    {
      var s := scanline[so + i..so + i + n];
      var r := recon[ro + j..ro + j + n];
      var p := recon[prev.pos + i..prev.pos + i + n];
      var block := seq<Byte>(n, q requires 0 <= q < n => Add(s[q], Average(r[q], p[q])));
      PutBlock(c, recon, scanline, so, prev, ro + i, block, i);
      i, j := i + n, j + n;
    }
  }

  method UnfilterAverage(ghost c: Job, recon: array<Byte>, ro: nat, scanline: array<Byte>, so: nat, prev: Prev, length: nat, bytewidth: nat)
    requires UnfilterPre(c, recon, ro, scanline, so, length, bytewidth) && c.t == 3
    requires At(c, recon, scanline, so, prev, 0)
    modifies recon
    ensures At(c, recon, scanline, so, prev, length)
  {
    hide Unfiltering;
    hide Add;
    hide Paeth;
    AddZero();
    if prev.Line? {
      for i := 0 to bytewidth
        invariant At(c, recon, scanline, so, prev, i)
      {
        PutByte(c, recon, scanline, so, prev, ro + i, Add(scanline[so + i], recon[prev.pos + i] / 2), i);
      }
      var i, j := bytewidth, 0;
      if bytewidth >= 4 {
        i, j := AverageBlocks(c, recon, ro, scanline, so, prev, length, bytewidth, 4);
      } else if bytewidth >= 3 {
        i, j := AverageBlocks(c, recon, ro, scanline, so, prev, length, bytewidth, 3);
      } else if bytewidth >= 2 {
        i, j := AverageBlocks(c, recon, ro, scanline, so, prev, length, bytewidth, 2);
      }
      while i != length
        invariant bytewidth <= i && i <= length && j == i - bytewidth
        invariant At(c, recon, scanline, so, prev, i)
      {
        PutByte(c, recon, scanline, so, prev, ro + i, Add(scanline[so + i], Average(recon[ro + j], recon[prev.pos + i])), i);
        i, j := i + 1, j + 1;
      }
    } else {
      var j := 0;
      for i := 0 to bytewidth
        invariant At(c, recon, scanline, so, prev, i)
      {
        PutByte(c, recon, scanline, so, prev, ro + i, scanline[so + i], i);
      }
      for i := bytewidth to length
        invariant At(c, recon, scanline, so, prev, i)
        invariant j == i - bytewidth
      {
        PutByte(c, recon, scanline, so, prev, ro + i, Add(scanline[so + i], recon[ro + j] / 2), i);
        j := j + 1;
      }
    }
  }

  /** The bytes of a reconstructed pixel, from the pixels to the left, above and above left. */
  function PaethPixel(s: seq<Byte>, left: seq<Byte>, above: seq<Byte>, aboveleft: seq<Byte>): (d: seq<Byte>)
    requires |s| == |left| == |above| == |aboveleft|
    ensures |d| == |s| && forall q :: 0 <= q < |s| ==> d[q] == Add(s[q], Paeth(left[q], above[q], aboveleft[q]))
  {
    seq<Byte>(|s|, q requires 0 <= q < |s| => Add(s[q], Paeth(left[q], above[q], aboveleft[q])))
  }

  ghost predicate PixelIs(c: Job, recon: array<Byte>, from: nat, above: seq<Byte>, d: seq<Byte>)
    requires JobOk(c) && |c.before| == recon.Length && from + |d| <= |c.line| && |d| == |above|
    reads recon
  {
    forall q :: 0 <= q < |d| ==> d[q] == recon[c.at + from + q] && above[q] == c.prev[from + q]
  }

  /** The registers hold the pixel just reconstructed and the one above it; both start as zeros. */
  ghost predicate Registers(c: Job, recon: array<Byte>, i: nat, above: seq<Byte>, d: seq<Byte>)
    requires JobOk(c) && |c.before| == recon.Length && i <= |c.line|
    reads recon
  {
    && |d| == |above| == c.bytewidth
    && if i == 0 then forall q :: 0 <= q < c.bytewidth ==> d[q] == 0 && above[q] == 0
       else i >= c.bytewidth && PixelIs(c, recon, i - c.bytewidth, above, d)
  }

  /** The next pixel, from the registers. */
  method NextPixel(ghost c: Job, recon: array<Byte>, scanline: array<Byte>, so: nat, prev: Prev, n: nat, i: nat,
                   b: seq<Byte>, left: seq<Byte>) returns (above: seq<Byte>, d: seq<Byte>)
    requires At(c, recon, scanline, so, prev, i) && c.t == 4 && prev.Line? && n == c.bytewidth && i + n <= |c.line|
    requires Registers(c, recon, i, b, left)
    ensures |d| == n && above == c.prev[i..i + n]
    ensures forall q: nat :: q < |d| ==>
              Due(c, i + q, if i + q < c.bytewidth then 0 else recon[c.at + i + q - c.bytewidth], d[q])
  {
    hide Unfiltering;
    hide PaethPixel;
    hide Due;
    var s := scanline[so + i..so + i + n];
    var aboveleft := b;
    above := recon[prev.pos + i..prev.pos + i + n];
    assert s == c.line[i..i + n];
    d := PaethPixel(s, left, above, aboveleft);
    PaethDue(c, recon, i, above, b, left, d);
  }

  /** One turn of the unrolled loops of the Paeth filter: a whole pixel, its neighbours kept in registers. */
  method PaethTurn(ghost c: Job, recon: array<Byte>, ro: nat, scanline: array<Byte>, so: nat, prev: Prev,
                   length: nat, n: nat, i: nat, b: seq<Byte>, left: seq<Byte>) returns (above: seq<Byte>, d: seq<Byte>)
    requires UnfilterPre(c, recon, ro, scanline, so, length, n) && c.t == 4 && prev.Line?
    requires At(c, recon, scanline, so, prev, i) && i + n <= length && Registers(c, recon, i, b, left)
    modifies recon
    ensures At(c, recon, scanline, so, prev, i + n) && Registers(c, recon, i + n, above, d)
  {
    hide Unfiltering;
    hide Due;
    hide Registers;
    above, d := NextPixel(c, recon, scanline, so, prev, n, i, b, left);
    PutBlock(c, recon, scanline, so, prev, ro + i, d, i);
    NewRegisters(c, recon, i, above, d);
  }

  /** The pixel computed from the registers is what the filter asks for. */
  lemma PaethDue(c: Job, recon: array<Byte>, i: nat, above: seq<Byte>, b: seq<Byte>, left: seq<Byte>, d: seq<Byte>)
    requires JobOk(c) && |c.before| == recon.Length && c.t == 4 && i + c.bytewidth <= |c.line|
    requires Registers(c, recon, i, b, left) && above == c.prev[i..i + c.bytewidth]
    requires d == PaethPixel(c.line[i..i + c.bytewidth], left, above, b)
    ensures forall q: nat :: q < |d| ==>
              Due(c, i + q, if i + q < c.bytewidth then 0 else recon[c.at + i + q - c.bytewidth], d[q])
  {
    hide Add;
    hide Paeth;
    hide PaethPixel;
    var n := c.bytewidth;
    forall q: nat | q < |d| ensures Due(c, i + q, if i + q < n then 0 else recon[c.at + i + q - n], d[q]) {
      assert c.line[i..i + n][q] == c.line[i + q] && above[q] == c.prev[i + q];
      if i > 0 {
        assert left[q] == recon[c.at + (i - n) + q] && b[q] == c.prev[i - n + q];
      }
    }
  }

  lemma NewRegisters(c: Job, recon: array<Byte>, i: nat, above: seq<Byte>, d: seq<Byte>)
    requires JobOk(c) && |c.before| == recon.Length && i + c.bytewidth <= |c.line|
    requires |d| == c.bytewidth && above == c.prev[i..i + c.bytewidth]
    requires forall q :: 0 <= q < |d| ==> recon[c.at + i + q] == d[q]
    ensures Registers(c, recon, i + c.bytewidth, above, d)
  {
    forall q | 0 <= q < |d| ensures d[q] == recon[c.at + i + q] && above[q] == c.prev[i + q] {
      assert above[q] == c.prev[i..i + c.bytewidth][q];
    }
    assert PixelIs(c, recon, i, above, d);
  }

  method PaethPixels(ghost c: Job, recon: array<Byte>, ro: nat, scanline: array<Byte>, so: nat, prev: Prev,
                     length: nat, n: nat) returns (i: nat)
    requires UnfilterPre(c, recon, ro, scanline, so, length, n) && c.t == 4 && prev.Line?
    requires At(c, recon, scanline, so, prev, 0)
    modifies recon
    ensures n <= i <= length && At(c, recon, scanline, so, prev, i)
  {
    hide Unfiltering;
    var b := seq<Byte>(n, _ => 0);
    var d := b;
    i := 0;
    while i + n - 1 < length
      invariant i <= length && At(c, recon, scanline, so, prev, i) && Registers(c, recon, i, b, d)
    {
      b, d := PaethTurn(c, recon, ro, scanline, so, prev, length, n, i, b, d);
      i := i + n;
    }
  }

  method UnfilterPaeth(ghost c: Job, recon: array<Byte>, ro: nat, scanline: array<Byte>, so: nat, prev: Prev, length: nat, bytewidth: nat)
    requires UnfilterPre(c, recon, ro, scanline, so, length, bytewidth) && c.t == 4
    requires At(c, recon, scanline, so, prev, 0)
    modifies recon
    ensures At(c, recon, scanline, so, prev, length)
  {
    hide Unfiltering;
    hide Add;
    hide Paeth;
    AddZero();
    PaethOneNeighbour();
    if prev.Line? {
      var i := 0;
      if bytewidth == 8 || bytewidth == 6 || (1 <= bytewidth <= 4) {
        i := PaethPixels(c, recon, ro, scanline, so, prev, length, bytewidth);
      } else {
        while i != bytewidth
          invariant i <= bytewidth && At(c, recon, scanline, so, prev, i)
        {
          PutByte(c, recon, scanline, so, prev, ro + i, Add(scanline[so + i], recon[prev.pos + i]), i);
          i := i + 1;
        }
      }
      while i != length
        invariant bytewidth <= i && i <= length
        invariant At(c, recon, scanline, so, prev, i)
      {
        var p := PaethPredictor(recon[ro + i - bytewidth], recon[prev.pos + i], recon[prev.pos + i - bytewidth]);
        PutByte(c, recon, scanline, so, prev, ro + i, Add(scanline[so + i], p), i);
        i := i + 1;
      }
    } else {
      for i := 0 to bytewidth
        invariant At(c, recon, scanline, so, prev, i)
      {
        PutByte(c, recon, scanline, so, prev, ro + i, scanline[so + i], i);
      }
      var j := 0;
      for i := bytewidth to length
        invariant At(c, recon, scanline, so, prev, i)
        invariant j == i - bytewidth
      {
        PutByte(c, recon, scanline, so, prev, ro + i, Add(scanline[so + i], recon[ro + j]), i);
        j := j + 1;
      }
    }
  }

  lemma UnfilteringAll(c: Job, now: seq<Byte>)
    requires JobOk(c) && Unfiltering(c, now, |c.line|)
    ensures now == c.before[..c.at] + Recon(c.t, c.bytewidth, c.line, c.prev) + c.before[c.at + |c.line|..]
  {
    hide Recon;
    assert c.line[..|c.line|] == c.line;
    PlacedAll(c, now, Recon(c.t, c.bytewidth, c.line, c.prev));
  }

  /** Reconstructs one line, also over the filtered line; only an unknown filter type is an error. */
  method UnfilterScanline(recon: array<Byte>, ro: nat, scanline: array<Byte>, so: nat, prev: Prev,
                          bytewidth: nat, t: nat, length: nat) returns (error: int)
    requires ro + length <= recon.Length && so + length <= scanline.Length && (recon == scanline ==> ro <= so)
    requires prev.Line? ==> prev.pos + length <= ro || (ro + length <= prev.pos && prev.pos + length <= recon.Length)
    requires 0 < bytewidth <= length
    modifies recon
    ensures error == if t <= 4 then 0 else 36
    ensures t <= 4 ==>
              recon[..] == old(recon[..])[..ro]
                + Recon(t, bytewidth, old(scanline[so..so + length]), PrevBytes(old(recon[..]), prev, length))
                + old(recon[..])[ro + length..]
    ensures t <= 4 ==>
              LineMeans(t, bytewidth, old(scanline[so..so + length]), recon[ro..ro + length], PrevBytes(old(recon[..]), prev, length))
    ensures t > 4 ==> recon[..] == old(recon[..])
  {
    hide Unfiltering;
    hide Recon;
    hide LineMeans;
    ghost var c := Job(recon[..], ro, t, bytewidth, scanline[so..so + length], PrevBytes(recon[..], prev, length));
    StartUnfiltering(c);
    error := 0;
    if t == 0 { UnfilterNone(c, recon, ro, scanline, so, prev, length, bytewidth); }
    else if t == 1 { UnfilterSub(c, recon, ro, scanline, so, prev, length, bytewidth); }
    else if t == 2 { UnfilterUp(c, recon, ro, scanline, so, prev, length, bytewidth); }
    else if t == 3 { UnfilterAverage(c, recon, ro, scanline, so, prev, length, bytewidth); }
    else if t == 4 { UnfilterPaeth(c, recon, ro, scanline, so, prev, length, bytewidth); }
    else { return 36; }
    UnfilteringAll(c, recon[..]);
    ReconLineMeans(t, bytewidth, c.line, c.prev);
    assert recon[ro..ro + length] == Recon(t, bytewidth, c.line, c.prev);
  }
}
