/** Run-length coding of code lengths with the repeat codes 16, 17 and 18 (RFC 1951 section 3.2.7). */
module LengthRuns {
  import opened Bits
  import opened InflateSpec

  /** The number of extra bits after code length symbol s, and what they are added to. */
  function RunExtra(s: nat): nat
  {
    if s == 16 then 2 else if s == 17 then 3 else 7
  }

  function RunBase(s: nat): nat
  {
    if s == 18 then 11 else 3
  }

  /** What an encoded sequence stands for, after the lengths already in acc. */
  function Expand(e: seq<nat>, acc: seq<nat>): Option<seq<nat>>
  {
    if e == [] then Some(acc)
    else if e[0] <= 15 then Expand(e[1..], acc + [e[0]])
    else if e[0] > 18 || |e| < 2 || e[1] >= Pow2(RunExtra(e[0])) || (e[0] == 16 && acc == []) then None
    else
      var x := if e[0] == 16 then acc[|acc| - 1] else 0;
      Expand(e[2..], acc + Repeat(x, RunBase(e[0]) + e[1]))
  }

  lemma {:induction false} ExpandConcat(e: seq<nat>, f: seq<nat>, acc: seq<nat>)
    requires Expand(e, acc).Some?
    ensures Expand(e + f, acc) == Expand(f, Expand(e, acc).value)
  {
    hide Pow2;
    if e == [] {
      assert e + f == f;
    } else if e[0] <= 15 {
      assert (e + f)[1..] == e[1..] + f;
      ExpandConcat(e[1..], f, acc + [e[0]]);
    } else {
      assert (e + f)[2..] == e[2..] + f;
      var x := if e[0] == 16 then acc[|acc| - 1] else 0;
      ExpandConcat(e[2..], f, acc + Repeat(x, RunBase(e[0]) + e[1]));
    }
  }

  lemma ExpandLength(acc: seq<nat>, l: nat)
    requires l <= 15
    ensures Expand([l], acc) == Some(acc + [l])
  {
    assert [l][1..] == [];
  }

  lemma ExpandRun(acc: seq<nat>, s: nat, extra: nat)
    requires 16 <= s <= 18 && extra < Pow2(RunExtra(s)) && (s == 16 ==> acc != [])
    ensures var x := if s == 16 then acc[|acc| - 1] else 0;
            Expand([s, extra], acc) == Some(acc + Repeat(x, RunBase(s) + extra))
  {
    assert [s, extra][2..] == [];
  }

  // ---- the runs to emit ----

  /** How many lengths at the front are equal. */
  ghost function RunLength(lld: seq<nat>): (r: nat)
    requires lld != []
    ensures 1 <= r <= |lld|
  {
    if |lld| == 1 || lld[1] != lld[0] then 1 else 1 + RunLength(lld[1..])
  }

  /** n repeats of the length before: sixes, then what is left if it is worth a code. */
  ghost function Repeats(v: nat, n: nat): seq<nat>
  {
    if n >= 6 then [16, 3] + Repeats(v, n - 6) else if n >= 3 then [16, n - 3] else Repeat(v, n)
  }

  /** A run of n equal lengths: zeros up to 138 at a time, others once and then repeated, short ones as they are. */
  ghost function RunCodes(v: nat, n: nat): seq<nat>
  {
    if v == 0 && n > 138 then [18, 127] + RunCodes(0, n - 138)
    else if v == 0 && n >= 11 then [18, n - 11]
    else if v == 0 && n >= 3 then [17, n - 3]
    else if n >= 4 then [v] + Repeats(v, n - 1)
    else Repeat(v, n)
  }

  /** Run after run, each as long as it is. */
  ghost function RunsOf(lld: seq<nat>): seq<nat>
  {
    if lld == [] then [] else RunCodes(lld[0], RunLength(lld)) + RunsOf(lld[RunLength(lld)..])
  }

  lemma {:induction false} RunLengthIs(lld: seq<nat>, n: nat)
    requires 1 <= n <= |lld| && (forall k :: 0 <= k < n ==> lld[k] == lld[0]) && (n == |lld| || lld[n] != lld[0])
    ensures RunLength(lld) == n
  {
    if n > 1 { RunLengthIs(lld[1..], n - 1); }
  }

  /** The first code of a run, and what is left for the next. */
  lemma ZeroCodes(n: nat)
    requires n >= 3
    ensures n <= 10 ==> RunCodes(0, n) == [17, n - 3] + RunCodes(0, 0)
    ensures n > 10 ==> RunCodes(0, n) == [18, Min(n, 138) - 11] + RunCodes(0, n - Min(n, 138))
  {
    assert RunCodes(0, 0) == [];
  }

  lemma LongCodes(v: nat, n: nat)
    requires v != 0 && n >= 4
    ensures RunCodes(v, n) == [v] + Repeats(v, n - 1) && forall r: nat :: r < 3 ==> RunCodes(v, r) == Repeat(v, r)
  {
  }

  lemma ShortCodes(v: nat, n: nat)
    requires 1 <= n <= 3 && (v == 0 ==> n < 3)
    ensures RunCodes(v, n) == [v] + RunCodes(v, n - 1)
  {
    assert Repeat(v, n) == [v] + Repeat(v, n - 1);
  }

  /** After the first m of a run of n, what remains of the run is a run too. */
  lemma RunRest(lld: seq<nat>, i: nat, n: nat, m: nat)
    requires i < |lld| && 1 <= n && i + n <= |lld| && m <= n
    requires (forall k :: i <= k < i + n ==> lld[k] == lld[i]) && (i + n == |lld| || lld[i + n] != lld[i])
    ensures RunsOf(lld[i + m..]) == RunCodes(lld[i], n - m) + RunsOf(lld[i + n..])
  {
    if m < n {
      var s := lld[i + m..];
      RunLengthIs(s, n - m);
      assert s[n - m..] == lld[i + n..];
    } else {
      assert RunCodes(lld[i], 0) == [];
    }
  }

  // ---- the encoder ----

  /** e[..n] stands for the lengths before i, in no more entries than there are lengths. */
  ghost predicate Encodes(e: seq<nat>, lld: seq<nat>, i: nat)
  {
    i <= |lld| && |e| <= i && Expand(e, []) == Some(lld[..i])
  }

  method PutOne(e: array<nat>, n: nat, ghost lld: seq<nat>, i: nat, value: nat) returns (next: nat)
    requires i < |lld| == e.Length && n <= i && Encodes(e[..n], lld, i) && value == lld[i] <= 15
    modifies e
    ensures next == n + 1 && next <= e.Length && Encodes(e[..next], lld, i + 1) && e[..next] == old(e[..n]) + [value]
  {
    hide Expand;
    ghost var before := e[..n];
    e[n] := value;
    next := n + 1;
    assert e[..next] == before + [value];
    ExpandConcat(before, [value], []);
    ExpandLength(lld[..i], value);
    assert lld[..i] + [value] == lld[..i + 1];
  }

  /** Emits repeat code s for the lengths i to i + count - 1. */
  method PutRun(e: array<nat>, n: nat, ghost lld: seq<nat>, i: nat, s: nat, extra: nat) returns (next: nat)
    requires n <= i <= |lld| == e.Length && Encodes(e[..n], lld, i)
    requires 16 <= s <= 18 && extra < Pow2(RunExtra(s)) && (s == 16 ==> i > 0)
    requires i + RunBase(s) + extra <= |lld|
    requires forall k :: i <= k < i + RunBase(s) + extra ==> lld[k] == if s == 16 then lld[i - 1] else 0
    modifies e
    ensures next == n + 2 && next <= e.Length && Encodes(e[..next], lld, i + RunBase(s) + extra)
    ensures e[..next] == old(e[..n]) + [s, extra]
  {
    hide Expand;
    hide Pow2;
    ghost var before, count := e[..n], RunBase(s) + extra;
    e[n] := s;
    e[n + 1] := extra;
    next := n + 2;
    assert e[..next] == before + [s, extra];
    ExpandConcat(before, [s, extra], []);
    ExpandRun(lld[..i], s, extra);
    assert lld[..i] + Repeat(if s == 16 then lld[i - 1] else 0, count) == lld[..i + count];
  }

  /** The number of further lengths equal to the one at i. */
  method CountEqual(lld: seq<nat>, i: nat) returns (j: nat)
    requires i < |lld|
    ensures i + j < |lld| && forall k :: i <= k <= i + j ==> lld[k] == lld[i]
    ensures i + j + 1 == |lld| || lld[i + j + 1] != lld[i]
  {
    j := 0;
    while i + j + 1 < |lld| && lld[i + j + 1] == lld[i]
      invariant i + j < |lld| && forall k :: i <= k <= i + j ==> lld[k] == lld[i]
    {
      j := j + 1;
    }
  }

  /** The codes at the end of e are all of a run but its last `left` lengths. */
  ghost predicate RunPut(before: seq<nat>, now: seq<nat>, v: nat, run: nat, left: nat)
  {
    now + RunCodes(v, left) == before + RunCodes(v, run)
  }

  lemma RunPutFirst(before: seq<nat>, v: nat, run: nat, left: nat, code: seq<nat>)
    requires RunCodes(v, run) == code + RunCodes(v, left)
    ensures RunPut(before, before + code, v, run, left)
  {
    hide RunCodes;
    assert before + (code + RunCodes(v, left)) == before + code + RunCodes(v, left);
  }

  /** Part of a run of n repeats has been put. */
  ghost predicate RepeatsPut(before: seq<nat>, now: seq<nat>, v: nat, n: nat, left: nat)
  {
    now + Repeats(v, left) == before + Repeats(v, n)
  }

  lemma RepeatsStart(before: seq<nat>, v: nat, n: nat)
    ensures RepeatsPut(before, before, v, n, n)
  {
  }

  lemma RepeatsNext(before: seq<nat>, now: seq<nat>, v: nat, n: nat, left: nat, m: nat)
    requires RepeatsPut(before, now, v, n, left) && (m == 6 <= left || 3 <= m == left < 6)
    ensures RepeatsPut(before, now + [16, m - 3], v, n, left - m)
  {
    assert m < 6 ==> Repeats(v, 0) == [];
    assert now + [16, m - 3] + Repeats(v, left - m) == now + ([16, m - 3] + Repeats(v, left - m));
    assert m < 6 ==> [16, m - 3] + Repeats(v, left - m) == [16, m - 3];
  }

  lemma RepeatsEnd(before: seq<nat>, now: seq<nat>, v: nat, n: nat, left: nat)
    requires RepeatsPut(before + [v], now, v, n, left) && left < 3 && v != 0 && n >= 3
    ensures RunPut(before, now, v, n + 1, left)
  {
    LongCodes(v, n + 1);
    assert before + ([v] + Repeats(v, n)) == before + [v] + Repeats(v, n);
  }

  /** Zeros: one code for as many as it can stand for. */
  method PutZeros(e: array<nat>, n: nat, lld: seq<nat>, i: nat, run: nat) returns (next: nat, done: nat)
    requires i + run <= |lld| == e.Length && n <= i && Encodes(e[..n], lld, i) && run >= 3
    requires lld[i] == 0 && forall k :: i <= k < i + run ==> lld[k] == 0
    modifies e
    ensures i < done <= i + run && next <= done && next <= e.Length && Encodes(e[..next], lld, done)
    ensures RunPut(old(e[..n]), e[..next], lld[i], run, i + run - done)
  {
    hide Encodes;
    hide RunCodes;
    hide RunPut;
    Pow2Small();
    hide Pow2;
    ZeroCodes(run);
    var j := run;
    if j <= 10 {
      next := PutRun(e, n, lld, i, 17, j - 3);
    } else {
      if j > 138 { j := 138; }
      next := PutRun(e, n, lld, i, 18, j - 11);
    }
    done := i + j;
    RunPutFirst(old(e[..n]), 0, run, run - j, if run <= 10 then [17, run - 3] else [18, j - 11]);
  }

  /** A length and its repeats: one plain code, then sixes, then what is left if worth a code. */
  method PutRepeats(e: array<nat>, n: nat, lld: seq<nat>, i: nat, j: nat) returns (next: nat, done: nat)
    requires i + j < |lld| == e.Length && n <= i && Encodes(e[..n], lld, i) && j >= 3
    requires 0 < lld[i] <= 15 && forall k :: i <= k <= i + j ==> lld[k] == lld[i]
    modifies e
    ensures i < done <= i + j + 1 && next <= done && next <= e.Length && Encodes(e[..next], lld, done)
    ensures RunPut(old(e[..n]), e[..next], lld[i], j + 1, i + j + 1 - done)
  {
    hide Encodes;
    hide RepeatsPut;
    hide RunPut;
    Pow2Small();
    hide Pow2;
    ghost var before := e[..n];
    var num, rest := j / 6, j % 6;
    next := PutOne(e, n, lld, i, lld[i]);
    done := i + 1;
    RepeatsStart(before + [lld[i]], lld[i], j);
    for k := 0 to num
      invariant next == n + 1 + 2 * k && done == i + 1 + 6 * k && next <= done
      invariant Encodes(e[..next], lld, done)
      invariant RepeatsPut(before + [lld[i]], e[..next], lld[i], j, i + j + 1 - done)
    {
      RepeatsNext(before + [lld[i]], e[..next], lld[i], j, i + j + 1 - done, 6);
      next := PutRun(e, next, lld, done, 16, 3);
      done := done + 6;
    }
    if rest >= 3 {
      RepeatsNext(before + [lld[i]], e[..next], lld[i], j, i + j + 1 - done, rest);
      next := PutRun(e, next, lld, done, 16, rest - 3);
      done := done + rest;
    }
    RepeatsEnd(before, e[..next], lld[i], j, i + j + 1 - done);
  }

  /** The next code or codes, for some or all of the run at i. */
  method PutSome(e: array<nat>, n: nat, lld: seq<nat>, i: nat) returns (next: nat, done: nat)
    requires i < |lld| == e.Length && n <= i && Encodes(e[..n], lld, i) && lld[i] <= 15
    modifies e
    ensures i < done <= |lld| && next <= done && next <= e.Length && Encodes(e[..next], lld, done)
    ensures e[..next] + RunsOf(lld[done..]) == old(e[..n]) + RunsOf(lld[i..])
  {
    hide Encodes;
    hide RunCodes;
    hide RunsOf;
    hide RunPut;
    ghost var before := e[..n];
    var j := CountEqual(lld, i);
    if lld[i] == 0 && j >= 2 {
      next, done := PutZeros(e, n, lld, i, j + 1);
    } else if j >= 3 {
      next, done := PutRepeats(e, n, lld, i, j);
    } else {
      ShortCodes(lld[i], j + 1);
      next := PutOne(e, n, lld, i, lld[i]);
      done := i + 1;
      RunPutFirst(before, lld[i], j + 1, j, [lld[i]]);
    }
    RunDone(lld, i, j + 1, done, before, e[..next]);
  }

  lemma RunDone(lld: seq<nat>, i: nat, run: nat, done: nat, before: seq<nat>, now: seq<nat>)
    requires i < |lld| && 1 <= run && i <= done <= i + run <= |lld|
    requires (forall k :: i <= k < i + run ==> lld[k] == lld[i]) && (i + run == |lld| || lld[i + run] != lld[i])
    requires RunPut(before, now, lld[i], run, i + run - done)
    ensures now + RunsOf(lld[done..]) == before + RunsOf(lld[i..])
  {
    hide RunCodes;
    hide RunsOf;
    RunRest(lld, i, run, 0);
    RunRest(lld, i, run, done - i);
    Joined(now, before, RunCodes(lld[i], i + run - done), RunCodes(lld[i], run), RunsOf(lld[i + run..]));
  }

  /** The run-length encoder: what it emits stands for the input, and is never longer. */
  method EncodeLengths(lld: seq<nat>) returns (e: array<nat>, n: nat)
    requires forall k :: 0 <= k < |lld| ==> lld[k] <= 15
    ensures fresh(e) && e.Length == |lld| && n <= |lld|
    ensures Expand(e[..n], []) == Some(lld) && e[..n] == RunsOf(lld)
  {
    hide Encodes;
    hide RunsOf;
    e := new nat[|lld|](_ => 0);
    n := 0;
    var i := 0;
    EncodesNothing(lld);
    NoRunsLeft(lld);
    assert e[..0] == [];
    while i < |lld|
      invariant i <= |lld| && n <= i && Encodes(e[..n], lld, i)
      invariant e[..n] + RunsOf(lld[i..]) == RunsOf(lld)
    {
      n, i := PutSome(e, n, lld, i);
    }
    NoRunsLeft(lld);
    EncodesAll(e[..n], lld);
  }

  lemma Joined(now: seq<nat>, before: seq<nat>, a: seq<nat>, b: seq<nat>, rest: seq<nat>)
    requires now + a == before + b
    ensures now + (a + rest) == before + (b + rest)
  {
    assert now + (a + rest) == now + a + rest;
    assert before + (b + rest) == before + b + rest;
  }

  lemma NoRunsLeft(lld: seq<nat>)
    ensures RunsOf(lld[|lld|..]) == [] && RunsOf(lld[0..]) == RunsOf(lld)
  {
    assert lld[0..] == lld;
  }

  lemma EncodesNothing(lld: seq<nat>)
    ensures Encodes([], lld, 0)
  {
  }

  lemma EncodesAll(e: seq<nat>, lld: seq<nat>)
    requires Encodes(e, lld, |lld|)
    ensures Expand(e, []) == Some(lld)
  {
    assert lld[..|lld|] == lld;
  }
}
