/** Choosing a filter type for every line, and filtering the image with the choice. */
module FilterChoice {
  import opened Bits
  import opened PngFilters
  import opened Scanlines
  import opened ImageFilter
  import Adler
  import Deflate
  import Inflate
  import InflateSpec
  import Zlib

  /** The source's LFS_ZERO to LFS_FOUR, LFS_MINSUM, LFS_ENTROPY, LFS_BRUTE_FORCE and LFS_PREDEFINED. */
  datatype Strategy =
    | Always(t: Byte)
    | MinSum
    | Entropy
    | BruteForce(zlib: Deflate.CompressSettings)
    | Predefined(types: seq<Byte>)

  /** One of the five types where it is always the same; a type for each line, whichever, where they are given in advance. */
  predicate StrategyOk(strategy: Strategy, h: nat)
  {
    match strategy
    case Always(t) => t <= 4
    case Predefined(types) => |types| >= h
    case _ => true
  }

  /** Filter types of the PNG specification for all of h lines. */
  predicate GoodTypes(strategy: Strategy, h: nat)
    requires StrategyOk(strategy, h)
  {
    strategy.Predefined? ==> forall y :: 0 <= y < h ==> strategy.types[y] <= 4
  }

  lemma SmallerStrategy(strategy: Strategy, a: nat, b: nat)
    requires a <= b && StrategyOk(strategy, b)
    ensures StrategyOk(strategy, a)
  {
  }

  // ---- scores ----

  /** The sum of absolute differences; filter type 0 counts plain bytes instead. */
  function SumAbs(t: nat, line: seq<Byte>): nat
  {
    if line == [] then 0
    else
      var s := line[|line| - 1];
      SumAbs(t, line[..|line| - 1]) + if t == 0 || s < 128 then s else 255 - s
  }

  /** How often x occurs, the filter type itself included. */
  function Occurs(t: nat, line: seq<Byte>, x: nat): nat
  {
    if line == [] then if x == t then 1 else 0
    else Occurs(t, line[..|line| - 1], x) + if line[|line| - 1] == x then 1 else 0
  }

  function Ilog2(i: nat): nat
  {
    var (r0, i0) := if i >= 65536 then (16, i / 65536) else (0, i);
    var (r1, i1) := if i0 >= 256 then (r0 + 8, i0 / 256) else (r0, i0);
    var (r2, i2) := if i1 >= 16 then (r1 + 4, i1 / 16) else (r1, i1);
    var (r3, i3) := if i2 >= 4 then (r2 + 2, i2 / 4) else (r2, i2);
    if i3 >= 2 then r3 + 1 else r3
  }

  /** The shifts find the integer binary logarithm of every 32-bit number. */
  lemma Ilog2Is(i: nat)
    requires 0 < i < Pow2(32)
    ensures Pow2(Ilog2(i)) <= i < Pow2(Ilog2(i) + 1)
  {
    hide Pow2;
    Pow2Small();
    Pow2Add(16, 16);
    var i0 := if i >= 65536 then i / 65536 else i;
    Ilog2Low(i0);
    if i >= 65536 {
      Pow2Add(16, Ilog2(i0));
      Pow2Add(16, Ilog2(i0) + 1);
      Scaled(i, i0, Pow2(Ilog2(i0)), Pow2(Ilog2(i0) + 1));
    }
  }

  lemma Scaled(i: nat, i0: nat, a: nat, b: nat)
    requires i0 == i / 65536 && a <= i0 < b
    ensures 65536 * a <= i < 65536 * b
  {
  }

  lemma Ilog2Low(i: nat)
    requires 0 < i < 65536
    ensures Ilog2(i) <= 15 && Pow2(Ilog2(i)) <= i < Pow2(Ilog2(i) + 1)
  {
    Pow2Small();
    Pow2Step(9);
    Pow2Step(10);
    Pow2Step(11);
    Pow2Step(12);
    Pow2Step(13);
    Pow2Step(14);
    Pow2Step(15);
  }

  /** An integer approximation of i times its logarithm. */
  function Ilog2i(i: nat): int
  {
    if i == 0 then 0 else i * Ilog2(i) + (i - Pow2(Ilog2(i))) * 2
  }

  /** Between two powers of two it runs straight from one's value of i log i to the other's. */
  lemma Ilog2iIs(i: nat, k: nat)
    requires k < 32 && Pow2(k) <= i < Pow2(k + 1)
    ensures Ilog2i(Pow2(k)) == Pow2(k) * k
    ensures (Ilog2i(i) - Pow2(k) * k) * (Pow2(k + 1) - Pow2(k)) == (i - Pow2(k)) * (Pow2(k + 1) * (k + 1) - Pow2(k) * k)
  {
    Pow2Step(k);
    LogIs(Pow2(k), k);
    LogIs(i, k);
    hide Pow2;
    hide Ilog2;
    Chord(i, k, Pow2(k));
  }

  lemma Chord(i: int, k: int, p: int)
    ensures (i * k + (i - p) * 2 - p * k) * (2 * p - p) == (i - p) * (2 * p * (k + 1) - p * k)
  {
    var d := i - p;
    assert i * k == d * k + p * k;
    assert 2 * p * (k + 1) - p * k == p * (k + 2);
    Regroup(d, k + 2, p);
  }

  lemma Regroup(d: int, m: int, p: int)
    ensures d * m * p == d * (p * m)
  {
  }

  lemma LogIs(i: nat, k: nat)
    requires k < 32 && Pow2(k) <= i < Pow2(k + 1)
    ensures i > 0 && Ilog2(i) == k
  {
    hide Pow2;
    hide Ilog2;
    Pow2Small();
    Pow2Monotone(0, k);
    Pow2Monotone(k + 1, 32);
    Ilog2Is(i);
    if Ilog2(i) < k { Pow2Monotone(Ilog2(i) + 1, k); }
    if k < Ilog2(i) { Pow2Monotone(k + 1, Ilog2(i)); }
  }

  function EntropySum(t: nat, line: seq<Byte>, n: nat): int
  {
    if n == 0 then 0 else EntropySum(t, line, n - 1) + Ilog2i(Occurs(t, line, n - 1))
  }

  /** What each strategy minimises. */
  function Score(strategy: Strategy, t: nat, line: seq<Byte>): int
  {
    if strategy.MinSum? then SumAbs(t, line) else if strategy.Entropy? then -EntropySum(t, line, 256) else 0
  }

  method SumOf(t: nat, line: seq<Byte>) returns (sum: nat)
    ensures sum == SumAbs(t, line)
  {
    sum := 0;
    for x := 0 to |line|
      invariant sum == SumAbs(t, line[..x])
    {
      assert line[..x + 1][..x] == line[..x];
      var s := line[x];
      sum := sum + if t == 0 || s < 128 then s else 255 - s;
    }
    assert line[..|line|] == line;
  }

  method EntropyOf(t: nat, line: seq<Byte>) returns (sum: int)
    requires t < 256
    ensures sum == EntropySum(t, line, 256)
  {
    hide Ilog2i;
    var count := new nat[256](_ => 0);
    count[t] := 1;
    for x := 0 to |line|
      invariant forall v: nat :: v < 256 ==> count[v] == Occurs(t, line[..x], v)
    {
      assert line[..x + 1][..x] == line[..x];
      count[line[x]] := count[line[x]] + 1;
    }
    assert line[..|line|] == line;
    sum := 0;
    for x := 0 to 256
      invariant sum == EntropySum(t, line, x)
    {
      sum := sum + Ilog2i(count[x]);
    }
  }

  /** The size of a zlib stream for the line, compressed as the settings ask; it decompresses to the line. */
  ghost predicate SizeOf(zlib: Deflate.CompressSettings, line: seq<Byte>, size: int)
  {
    exists z: seq<Byte>, pieces: seq<Deflate.Piece> :: Deflate.StreamOf(z, line, zlib, pieces) && Framed(z, line, size)
  }

  /** Two bytes of header and four of checksum. */
  ghost predicate Framed(z: seq<Byte>, line: seq<Byte>, size: int)
  {
    size == |z| + 6 && Stands([0x78, 0x01] + z + Zlib.Bytes32(Adler.Adler32(line)), line)
  }

  ghost predicate Stands(z: seq<Byte>, line: seq<Byte>)
  {
    forall ds: Inflate.DecompressSettings :: Zlib.Unzipped(z, [], ds) == InflateSpec.Some(line)
  }

  /** What a strategy measures of an attempt: its score, or for brute force the size it was compressed to. */
  ghost predicate Measured(strategy: Strategy, t: nat, line: seq<Byte>, score: int)
  {
    match strategy
    case BruteForce(zlib) => if Deflate.SettingsOk(zlib.(btype := 1)) then SizeOf(zlib.(btype := 1), line, score) else score == 0
    case _ => score == Score(strategy, t, line)
  }

  /** The size a strategy compares; brute force compresses the attempt with a fixed tree. */
  method ScoreOf(strategy: Strategy, t: nat, line: seq<Byte>) returns (score: int)
    requires t <= 4 && line != [] && !strategy.Always? && !strategy.Predefined?
    ensures Measured(strategy, t, line, score)
  {
    match strategy {
      case MinSum => score := SumOf(t, line);
      case Entropy =>
        var sum := EntropyOf(t, line);
        score := -sum;
      case BruteForce(zlib) =>
        ghost var z, pieces;
        var error, out;
        error, out, z, pieces := Zlib.Compress(line, zlib.(btype := 1));
        score := out.size;
        if error == 0 { assert Framed(z, line, score); }
    }
  }

  // ---- one line ----

  function LineOf(input: seq<Byte>, so: nat, lb: nat): (r: seq<Byte>)
    requires so + lb <= |input|
    ensures |r| == lb
  {
    input[so..so + lb]
  }

  /** Of the five filtered lines, the chosen one is the first whose measure is least. */
  ghost predicate Scored(strategy: Strategy, best: Byte, line: seq<Byte>, above: seq<Byte>, bytewidth: nat, scores: seq<int>)
    requires |line| <= |above| && bytewidth > 0
  {
    && best <= 4 && |scores| == 5
    && forall t: nat :: t <= 4 ==>
         && Measured(strategy, t, Filtered(t, bytewidth, line, above), scores[t])
         && scores[best] <= scores[t] && (t < best ==> scores[best] < scores[t])
  }

  /** The filter type of line y is the one the strategy asks for. */
  ghost predicate Chosen(strategy: Strategy, y: nat, t: Byte, line: seq<Byte>, above: seq<Byte>, bytewidth: nat)
    requires |line| <= |above| && bytewidth > 0
  {
    match strategy
    case Always(u) => t == u
    case Predefined(types) => y < |types| && t == types[y]
    case _ => exists scores: seq<int> :: Scored(strategy, t, line, above, bytewidth, scores)
  }

  /** Tries all five types; the first with the best score wins. */
  method BestFilter(strategy: Strategy, input: array<Byte>, so: nat, prev: Prev, lb: nat, bytewidth: nat)
    returns (best: Byte, attempt: seq<Byte>, ghost scores: seq<int>)
    requires so + lb <= input.Length && (prev.Line? ==> prev.pos + lb <= input.Length) && 0 < bytewidth <= lb
    requires !strategy.Always? && !strategy.Predefined?
    ensures best <= 4
    ensures attempt == Filtered(best, bytewidth, LineOf(input[..], so, lb), PrevBytes(input[..], prev, lb))
    ensures Scored(strategy, best, LineOf(input[..], so, lb), PrevBytes(input[..], prev, lb), bytewidth, scores)
  {
    hide Measured;
    hide Filtered;
    var smallest := 0;
    best, attempt, scores := 0, [], [];
    ghost var line, above := LineOf(input[..], so, lb), PrevBytes(input[..], prev, lb);
    for t := 0 to 5
      invariant |scores| == t
      invariant t > 0 ==> best < t && attempt == Filtered(best, bytewidth, line, above) && smallest == scores[best]
      invariant forall u: nat :: u < t ==>
                  && Measured(strategy, u, Filtered(u, bytewidth, line, above), scores[u])
                  && scores[best] <= scores[u] && (u < best ==> scores[best] < scores[u])
    {
      var trial := new Byte[lb](_ => 0);
      FilterScanline(trial, 0, input, so, prev, lb, bytewidth, t);
      assert trial[..] == Filtered(t, bytewidth, line, above);
      var score := ScoreOf(strategy, t, trial[..]);
      scores := scores + [score];
      if t == 0 || score < smallest {
        best, smallest, attempt := t, score, trial[..];
      }
    }
  }

  /** A line as an encoder may leave it: filtered, or untouched when the type is none of the five. */
  ghost predicate LineFor(t: Byte, f: seq<Byte>, lb: nat, bytewidth: nat, line: seq<Byte>, above: seq<Byte>)
    requires |line| <= |above| && bytewidth > 0
  {
    |f| == lb && (t <= 4 ==> f == Filtered(t, bytewidth, line, above))
  }

  /** Writes the filter type and filters straight into the output. */
  method FilterInto(out: array<Byte>, oo: nat, input: array<Byte>, so: nat, prev: Prev, lb: nat, bytewidth: nat, t: Byte)
    returns (ghost f: seq<Byte>)
    requires out != input && oo + 1 + lb <= out.Length && so + lb <= input.Length
    requires prev.Line? ==> prev.pos + lb <= input.Length
    requires 0 < bytewidth <= lb
    modifies out
    ensures LineFor(t, f, lb, bytewidth, LineOf(input[..], so, lb), PrevBytes(input[..], prev, lb))
    ensures out[..] == old(out[..])[..oo] + ([t] + f) + old(out[..])[oo + (1 + lb)..]
  {
    hide Filtered;
    ghost var before := out[..];
    f := if t <= 4 then Filtered(t, bytewidth, LineOf(input[..], so, lb), PrevBytes(input[..], prev, lb))
         else before[oo + 1..oo + 1 + lb];
    out[oo] := t;
    ghost var now := out[..];
    FilterScanline(out, oo + 1, input, so, prev, lb, bytewidth, t);
    TypeThenLine(before, now, oo, t, f);
    if t > 4 { Untouched(before, now, oo, t, f); }
  }

  lemma Untouched(before: seq<Byte>, now: seq<Byte>, oo: nat, t: Byte, f: seq<Byte>)
    requires oo + 1 + |f| <= |before| && now == before[oo := t] && f == before[oo + 1..oo + 1 + |f|]
    ensures now == before[..oo] + ([t] + f) + before[oo + (1 + |f|)..]
  {
  }

  lemma TypeThenLine(before: seq<Byte>, now: seq<Byte>, oo: nat, t: Byte, f: seq<Byte>)
    requires oo + 1 + |f| <= |before| && now == before[oo := t]
    ensures now[..oo + 1] + f + now[oo + 1 + |f|..] == before[..oo] + ([t] + f) + before[oo + (1 + |f|)..]
  {
  }

  /** Writes the filter type and the bytes of the best attempt. */
  method CopyAttempt(out: array<Byte>, oo: nat, t: Byte, attempt: seq<Byte>)
    requires oo + 1 + |attempt| <= out.Length
    modifies out
    ensures out[..] == old(out[..])[..oo] + ([t] + attempt) + old(out[..])[oo + (1 + |attempt|)..]
  {
    ghost var before := out[..];
    out[oo] := t;
    ghost var now := out[..];
    hide Blit;
    BlitEnds(now, oo + 1, attempt);
    for x := 0 to |attempt|
      invariant out[..] == Blit(now, oo + 1, attempt, x)
    {
      BlitStep(now, oo + 1, attempt, x);
      out[oo + 1 + x] := attempt[x];
    }
    TypeThenLine(before, now, oo, t, attempt);
  }

  /** The filter byte and the line, at oo. */
  method FilterRow(out: array<Byte>, oo: nat, input: array<Byte>, so: nat, prev: Prev, lb: nat, bytewidth: nat,
                   strategy: Strategy, y: nat) returns (t: Byte, ghost f: seq<Byte>)
    requires out != input && oo + 1 + lb <= out.Length && so + lb <= input.Length
    requires prev.Line? ==> prev.pos + lb <= input.Length
    requires 0 < bytewidth <= lb && StrategyOk(strategy, y + 1)
    modifies out
    ensures Chosen(strategy, y, t, LineOf(input[..], so, lb), PrevBytes(input[..], prev, lb), bytewidth)
    ensures LineFor(t, f, lb, bytewidth, LineOf(input[..], so, lb), PrevBytes(input[..], prev, lb))
    ensures out[..] == old(out[..])[..oo] + ([t] + f) + old(out[..])[oo + (1 + lb)..]
  {
    hide Filtered;
    hide Scored;
    if strategy.Always? || strategy.Predefined? {
      t := if strategy.Always? then strategy.t else strategy.types[y];
      f := FilterInto(out, oo, input, so, prev, lb, bytewidth, t);
    } else {
      var attempt;
      ghost var scores;
      t, attempt, scores := BestFilter(strategy, input, so, prev, lb, bytewidth);
      CopyAttempt(out, oo, t, attempt);
      f := attempt;
    }
  }

  // ---- the image ----

  /** Filtered data: a type byte before every line, and the filtered image if all types are good. */
  ghost predicate FilteredWith(data: seq<Byte>, img: seq<Byte>, lb: nat, bytewidth: nat, types: seq<Byte>)
    requires bytewidth > 0 && Times(lb, |types|) <= |img|
  {
    && |data| == Times(1 + lb, |types|)
    && (forall y: nat :: y < |types| ==> TypeAt(data, lb, |types|, y) == types[y])
    && ((forall y :: 0 <= y < |types| ==> types[y] <= 4) ==> data == FilteredImage(img, lb, bytewidth, types))
  }

  /** Every line has the filter type that the strategy asks for. */
  ghost predicate TypesOf(strategy: Strategy, img: seq<Byte>, lb: nat, bytewidth: nat, types: seq<Byte>)
    requires bytewidth > 0 && Times(lb, |types|) <= |img|
  {
    forall y: nat :: y < |types| ==> TypeOf(strategy, img, lb, bytewidth, types, y)
  }

  ghost predicate TypeOf(strategy: Strategy, img: seq<Byte>, lb: nat, bytewidth: nat, types: seq<Byte>, y: nat)
    requires bytewidth > 0 && Times(lb, |types|) <= |img| && y < |types|
  {
    RowInside(lb, y, |types|);
    Chosen(strategy, y, types[y], Row(img, lb, y), RowAbove(img, lb, y), bytewidth)
  }

  lemma TypesMore(strategy: Strategy, img: seq<Byte>, lb: nat, bytewidth: nat, types: seq<Byte>, t: Byte)
    requires bytewidth > 0 && Times(lb, |types|) + lb == Times(lb, |types| + 1) <= |img|
    requires TypesOf(strategy, img, lb, bytewidth, types)
    requires Chosen(strategy, |types|, t, Row(img, lb, |types|), RowAbove(img, lb, |types|), bytewidth)
    ensures TypesOf(strategy, img, lb, bytewidth, types + [t])
  {
    hide Chosen;
    hide Row;
    hide RowAbove;
    hide Times;
    var more := types + [t];
    forall y: nat | y < |more| ensures TypeOf(strategy, img, lb, bytewidth, more, y) {
      RowInside(lb, y, |more|);
      if y < |types| { assert TypeOf(strategy, img, lb, bytewidth, types, y); }
    }
  }

  /** Filters an image into out, with a filter type of the strategy's choice for every line. */
  method FilterLines(out: array<Byte>, oo: nat, input: array<Byte>, io: nat, lb: nat, bytewidth: nat, h: nat, strategy: Strategy)
    returns (ghost types: seq<Byte>, ghost data: seq<Byte>)
    requires out != input && bytewidth > 0 && (h > 0 ==> bytewidth <= lb) && StrategyOk(strategy, h)
    requires oo + Times(1 + lb, h) <= out.Length && io + Times(lb, h) <= input.Length
    modifies out
    ensures |types| == h && TypesOf(strategy, input[io..io + Times(lb, h)], lb, bytewidth, types)
    ensures FilteredWith(data, input[io..io + Times(lb, h)], lb, bytewidth, types)
    ensures Written(old(out[..]), out[..], oo, data)
  {
    hide FilteredWith;
    hide TypesOf;
    hide Chosen;
    hide LineFor;
    hide Filtered;
    hide Written;
    hide Times;
    hide StrategyOk;
    hide Row;
    hide RowAbove;
    hide LineOf;
    hide PrevBytes;
    ghost var before, img := out[..], input[io..io + Times(lb, h)];
    types, data := [], [];
    NothingFilteredYet(before, oo, img, lb, bytewidth);
    var prev := NoLine;
    for y := 0 to h
      invariant |types| == y && Times(lb, y) <= |img| && |data| == Times(1 + lb, y)
      invariant TypesOf(strategy, img, lb, bytewidth, types)
      invariant FilteredWith(data, img, lb, bytewidth, types) && Written(before, out[..], oo, data)
      invariant prev == if y == 0 then NoLine else Line(io + Times(lb, y - 1))
    {
      ghost var now := out[..];
      RowInside(lb, y, h);
      RowInside(1 + lb, y, h);
      NextRow(1 + lb, y);
      NextRow(lb, y);
      InputRow(input[..], io, img, lb, y, prev);
      var outindex, inindex := Times(1 + lb, y), Times(lb, y);
      SmallerStrategy(strategy, y + 1, h);
      var t;
      ghost var f;
      t, f := FilterRow(out, oo + outindex, input, io + inindex, prev, lb, bytewidth, strategy, y);
      LineLength(t, f, lb, bytewidth, Row(img, lb, y), RowAbove(img, lb, y));
      WrittenMore(before, now, oo, data, [t] + f, out[..]);
      FilteredNext(data, img, lb, bytewidth, types, t, f);
      TypesMore(strategy, img, lb, bytewidth, types, t);
      types, data := types + [t], data + ([t] + f);
      prev := Line(io + inindex);
    }
  }

  lemma LineLength(t: Byte, f: seq<Byte>, lb: nat, bytewidth: nat, line: seq<Byte>, above: seq<Byte>)
    requires |line| <= |above| && bytewidth > 0 && LineFor(t, f, lb, bytewidth, line, above)
    ensures |f| == lb
  {
  }

  lemma NothingFilteredYet(mem: seq<Byte>, at: nat, img: seq<Byte>, lb: nat, bytewidth: nat)
    requires bytewidth > 0 && at <= |mem|
    ensures Times(lb, 0) == 0 && Times(1 + lb, 0) == 0
    ensures Written(mem, mem, at, []) && FilteredWith([], img, lb, bytewidth, [])
    ensures forall strategy :: TypesOf(strategy, img, lb, bytewidth, [])
  {
  }

  /** The line and the line above, as the image has them. */
  lemma InputRow(input: seq<Byte>, io: nat, img: seq<Byte>, lb: nat, y: nat, prev: Prev)
    requires io + |img| <= |input| && img == input[io..io + |img|]
    requires Times(lb, y) + lb <= |img|
    requires prev == if y == 0 then NoLine else Line(io + Times(lb, y - 1))
    ensures LineOf(input, io + Times(lb, y), lb) == Row(img, lb, y)
    ensures prev.Line? ==> prev.pos + lb <= |input|
    ensures PrevBytes(input, prev, lb) == RowAbove(img, lb, y)
  {
    var b := Times(lb, y);
    SliceOfSlice(input, io, |img|, b, lb);
    if y > 0 {
      NextRow(lb, y - 1);
      var a := Times(lb, y - 1);
      SliceOfSlice(input, io, |img|, a, lb);
    }
  }

  /** One more line, whatever its type. */
  lemma FilteredNext(data: seq<Byte>, img: seq<Byte>, lb: nat, bytewidth: nat, types: seq<Byte>, t: Byte, f: seq<Byte>)
    requires bytewidth > 0 && Times(lb, |types|) + lb <= |img| && Times(lb, |types|) <= |img|
    requires FilteredWith(data, img, lb, bytewidth, types)
    requires LineFor(t, f, lb, bytewidth, Row(img, lb, |types|), RowAbove(img, lb, |types|))
    ensures Times(lb, |types| + 1) <= |img| && FilteredWith(data + ([t] + f), img, lb, bytewidth, types + [t])
  {
    hide Filtered;
    hide Row;
    hide RowAbove;
    var n, after, more := |types|, data + ([t] + f), types + [t];
    NextRow(lb, n);
    NextRow(1 + lb, n);
    hide Times;
    forall y: nat | y < n + 1 ensures TypeAt(after, lb, n + 1, y) == more[y] {
      if y < n {
        RowInside(1 + lb, y, n);
        assert TypeAt(data, lb, n, y) == types[y];
      }
    }
    if forall y :: 0 <= y < n + 1 ==> more[y] <= 4 {
      assert forall y :: 0 <= y < n ==> types[y] == more[y];
      assert more[..n] == types;
    }
  }
}
