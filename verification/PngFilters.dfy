/** The five scanline filters (PNG specification, section 9), byte by byte. */
module PngFilters {
  import opened Bits

  function Abs(x: int): nat
  {
    if x < 0 then -x else x
  }

  /** The neighbour closest to a + b - c; ties go to a, then b (section 9.4). */
  function Paeth(a: Byte, b: Byte, c: Byte): Byte
  {
    var p := a + b - c;
    var pa, pb, pc := Abs(p - a), Abs(p - b), Abs(p - c);
    if pa <= pb && pa <= pc then a else if pb <= pc then b else c
  }

  /** The source's selection, which reuses its variables. */
  method PaethPredictor(a: Byte, b: Byte, c: Byte) returns (r: Byte)
    ensures r == Paeth(a, b, c)
  {
    var first := a;
    var pa := if b - c < 0 then -(b - c) else b - c;
    var pb := if a - c < 0 then -(a - c) else a - c;
    var pc := if a + b - c - c < 0 then -(a + b - c - c) else a + b - c - c;
    if pb < pa {
      first := b;
      pa := pb;
    }
    r := if pc < pa then c else first;
  }

  function Average(a: Byte, b: Byte): Byte
  {
    (a + b) / 2
  }

  /** What a filter type predicts from the bytes to the left, above, and above left. */
  function Predict(t: nat, a: Byte, b: Byte, c: Byte): Byte
  {
    if t == 1 then a
    else if t == 2 then b
    else if t == 3 then Average(a, b)
    else if t == 4 then Paeth(a, b, c)
    else 0
  }

  /** Byte i of the pixel to the left, or zero before the line. */
  function Left(s: seq<Byte>, bytewidth: nat, i: nat): Byte
    requires i <= |s| && bytewidth > 0
  {
    if i < bytewidth then 0 else s[i - bytewidth]
  }

  function Add(a: Byte, b: Byte): Byte
  {
    (a + b) % 256
  }

  function Sub(a: Byte, b: Byte): Byte
  {
    (a - b) % 256
  }

  /** A filtered line; prev is the line above, zeros if there is none. */
  function Filtered(t: nat, bytewidth: nat, line: seq<Byte>, prev: seq<Byte>): (r: seq<Byte>)
    requires |line| <= |prev| && bytewidth > 0
    ensures |r| == |line|
  {
    seq<Byte>(|line|, i requires 0 <= i < |line| =>
      Sub(line[i], Predict(t, Left(line, bytewidth, i), prev[i], Left(prev, bytewidth, i))))
  }

  /** The reconstruction of a filtered line, each byte from those before it. */
  function Recon(t: nat, bytewidth: nat, line: seq<Byte>, prev: seq<Byte>): (r: seq<Byte>)
    requires |line| <= |prev| && bytewidth > 0
    ensures |r| == |line|
    decreases |line|
  {
    if line == [] then []
    else
      var n := |line| - 1;
      var r := Recon(t, bytewidth, line[..n], prev);
      r + [Add(line[n], Predict(t, Left(r, bytewidth, n), prev[n], Left(prev, bytewidth, n)))]
  }

  lemma {:induction false} AddSub(a: Byte, b: Byte)
    ensures Add(Sub(a, b), b) == a
  {
  }

  lemma {:induction false} ReconFilteredPrefix(t: nat, bytewidth: nat, line: seq<Byte>, prev: seq<Byte>, n: nat)
    requires n <= |line| <= |prev| && bytewidth > 0
    ensures Recon(t, bytewidth, Filtered(t, bytewidth, line, prev)[..n], prev) == line[..n]
    decreases n
  {
    hide Predict;
    hide Add;
    hide Sub;
    if n > 0 {
      var f := Filtered(t, bytewidth, line, prev);
      ReconFilteredPrefix(t, bytewidth, line, prev, n - 1);
      assert f[..n][..n - 1] == f[..n - 1];
      assert Left(line[..n - 1], bytewidth, n - 1) == Left(line, bytewidth, n - 1);
      AddSub(line[n - 1], Predict(t, Left(line, bytewidth, n - 1), prev[n - 1], Left(prev, bytewidth, n - 1)));
    }
  }

  /** Reconstruction undoes filtering, for every filter type and previous line. */
  lemma {:induction false} ReconFiltered(t: nat, bytewidth: nat, line: seq<Byte>, prev: seq<Byte>)
    requires |line| <= |prev| && bytewidth > 0
    ensures Recon(t, bytewidth, Filtered(t, bytewidth, line, prev), prev) == line
  {
    hide Recon;
    hide Filtered;
    var f := Filtered(t, bytewidth, line, prev);
    ReconFilteredPrefix(t, bytewidth, line, prev, |line|);
    assert f[..|line|] == f && line[..|line|] == line;
  }

  /** Bytes of one pixel do not depend on each other, so several can be reconstructed at once. */
  lemma {:induction false} ReconBlock(t: nat, bytewidth: nat, line: seq<Byte>, prev: seq<Byte>, i: nat, block: seq<Byte>)
    requires |line| <= |prev| && 0 < bytewidth
    requires i + |block| <= |line| && |block| <= bytewidth
    requires forall q {:trigger block[q]} :: 0 <= q < |block| ==>
               block[q] == Add(line[i + q], Predict(t, Left(Recon(t, bytewidth, line[..i], prev) + block, bytewidth, i + q),
                                                    prev[i + q], Left(prev, bytewidth, i + q)))
    ensures Recon(t, bytewidth, line[..i + |block|], prev) == Recon(t, bytewidth, line[..i], prev) + block
    decreases |block|
  {
    hide Predict;
    hide Add;
    if block == [] {
      assert line[..i + |block|] == line[..i];
    } else {
      var n := |block| - 1;
      var r := Recon(t, bytewidth, line[..i], prev);
      forall q {:trigger block[q]} | 0 <= q < n
        ensures Left(r + block[..n], bytewidth, i + q) == Left(r + block, bytewidth, i + q)
      {
      }
      assert forall q :: 0 <= q < n ==> block[..n][q] == block[q];
      ReconBlock(t, bytewidth, line, prev, i, block[..n]);
      assert line[..i + |block|][..i + n] == line[..i + n];
      assert r + block[..n] + [block[n]] == r + block;
      assert Left(r + block[..n], bytewidth, i + n) == Left(r + block, bytewidth, i + n);
    }
  }

  // ---- what the filter types mean ----

  /** p is what filter type t predicts from the byte to the left, the one above, and the one above left:
    nothing, the left one, the upper one, half of both rounded down, or the one nearest to a + b - c,
    where a comes before b and b before c when two are as near. */
  ghost predicate Predicts(t: nat, a: Byte, b: Byte, c: Byte, p: Byte)
  {
    && (t == 0 ==> p == 0)
    && (t == 1 ==> p == a)
    && (t == 2 ==> p == b)
    && (t == 3 ==> 2 * p <= a + b <= 2 * p + 1)
    && (t == 4 ==>
          var q := a + b - c;
          && (p == a || p == b || p == c)
          && Abs(q - p) <= Abs(q - a) && Abs(q - p) <= Abs(q - b) && Abs(q - p) <= Abs(q - c)
          && (Abs(q - a) == Abs(q - p) ==> p == a)
          && (Abs(q - b) == Abs(q - p) ==> p == a || p == b))
  }

  lemma PredictMeaning(t: nat, a: Byte, b: Byte, c: Byte)
    requires t <= 4
    ensures Predicts(t, a, b, c, Predict(t, a, b, c))
    ensures t == 3 ==> 2 * Predict(t, a, b, c) <= a + b <= 2 * Predict(t, a, b, c) + 1
  {
  }

  /** Filtered bytes f and reconstructed bytes r of one line differ by the prediction from r and the line above. */
  ghost predicate LineMeans(t: nat, bytewidth: nat, f: seq<Byte>, r: seq<Byte>, prev: seq<Byte>)
  {
    && |f| == |r| <= |prev|
    && forall i: nat :: i < |f| ==> ByteMeans(t, bytewidth, f, r, prev, i)
  }

  ghost predicate ByteMeans(t: nat, bytewidth: nat, f: seq<Byte>, r: seq<Byte>, prev: seq<Byte>, i: nat)
    requires i < |f| == |r| <= |prev|
  {
    var a, c := if i < bytewidth then 0 else r[i - bytewidth], if i < bytewidth then 0 else prev[i - bytewidth];
    var now: int, was: int := r[i], f[i];
    Predicts(t, a, prev[i], c, (now - was) % 256)
  }

  lemma Difference(x: int, p: Byte)
    requires 0 <= x < 256
    ensures (Add(x, p) - x) % 256 == p && (x - Sub(x, p)) % 256 == p
  {
  }

  lemma FilteredLineMeans(t: nat, bytewidth: nat, line: seq<Byte>, prev: seq<Byte>)
    requires t <= 4 && |line| <= |prev| && bytewidth > 0
    ensures LineMeans(t, bytewidth, Filtered(t, bytewidth, line, prev), line, prev)
  {
    hide Predicts;
    hide Predict;
    hide Sub;
    var f := Filtered(t, bytewidth, line, prev);
    forall i: nat | i < |f| ensures ByteMeans(t, bytewidth, f, line, prev, i) {
      var a, c := Left(line, bytewidth, i), Left(prev, bytewidth, i);
      PredictMeaning(t, a, prev[i], c);
      Difference(line[i], Predict(t, a, prev[i], c));
    }
  }

  /** Every reconstructed byte, for every filter type and previous line. */
  lemma {:induction false} ReconLineMeans(t: nat, bytewidth: nat, line: seq<Byte>, prev: seq<Byte>)
    requires t <= 4 && |line| <= |prev| && bytewidth > 0
    ensures LineMeans(t, bytewidth, line, Recon(t, bytewidth, line, prev), prev)
    decreases |line|
  {
    hide Predicts;
    hide Predict;
    hide Add;
    if line != [] {
      var n := |line| - 1;
      var r, all := Recon(t, bytewidth, line[..n], prev), Recon(t, bytewidth, line, prev);
      ReconLineMeans(t, bytewidth, line[..n], prev);
      var a, c := Left(r, bytewidth, n), Left(prev, bytewidth, n);
      PredictMeaning(t, a, prev[n], c);
      Difference(line[n], Predict(t, a, prev[n], c));
      forall i: nat | i < |line| ensures ByteMeans(t, bytewidth, line, all, prev, i) {
        if i < n { assert ByteMeans(t, bytewidth, line[..n], r, prev, i); }
      }
    }
  }
}
