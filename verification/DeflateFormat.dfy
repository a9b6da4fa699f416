/** The tables and the fixed codes of RFC 1951, in the closed form that its text gives them. */
module DeflateFormat {
  import opened Bits
  import opened Canonical
  import opened InflateSpec
  import opened Lz77

  // ---- lengths and distances (section 3.2.5) ----

  /** Eight single lengths, then four codes for every number of extra bits, then 258 by itself. */
  lemma LengthTable(s: nat)
    requires 257 <= s <= 285
    ensures s < 265 ==> LengthExtra(s) == 0 && LengthBase(s) == s - 254
    ensures 265 <= s < 285 ==> LengthExtra(s) == (s - 261) / 4
                               && LengthBase(s) == Pow2((s - 261) / 4) * (4 + (s - 261) % 4) + 3
    ensures s == 285 ==> LengthExtra(s) == 0 && LengthBase(s) == 258
  {
    Pow2Small();
    hide Pow2;
  }

  /** Four single distances, then two codes for every number of extra bits. */
  lemma DistanceTable(t: nat)
    requires t <= 29
    ensures t < 4 ==> DistanceExtra(t) == 0 && DistanceBase(t) == t + 1
    ensures 4 <= t ==> DistanceExtra(t) == t / 2 - 1 && DistanceBase(t) == Pow2(t / 2 - 1) * (2 + t % 2) + 1
  {
    Pow2Small();
    PowersTo13();
    hide Pow2;
  }

  // ---- the fixed codes (section 3.2.6) ----

  lemma {:induction false} CountRepeat(a: seq<nat>, x: nat, n: nat, l: nat)
    ensures Count(a + Repeat(x, n), l) == Count(a, l) + if x == l then n else 0
  {
    if n == 0 {
      assert a + Repeat(x, 0) == a;
    } else {
      CountRepeat(a, x, n - 1, l);
      var b := a + Repeat(x, n);
      assert b[..|b| - 1] == a + Repeat(x, n - 1);
    }
  }

  /** How many of the first n literal/length symbols have l bits in the fixed code. */
  lemma FixedCount(n: nat, l: nat)
    requires n <= 288
    ensures Count(FixedLitLen()[..n], l) ==
            if l == 8 then Min(n, 144) + Max(0, n - 280)
            else if l == 9 then Max(0, Min(n, 256) - 144)
            else if l == 7 then Max(0, Min(n, 280) - 256)
            else 0
  {
    hide Count;
    var e: seq<nat> := [];
    var a := e + Repeat(8, Min(n, 144));
    var b := a + Repeat(9, Max(0, Min(n, 256) - 144));
    var c := b + Repeat(7, Max(0, Min(n, 280) - 256));
    CountRepeat(e, 8, Min(n, 144), l);
    CountRepeat(a, 9, Max(0, Min(n, 256) - 144), l);
    CountRepeat(b, 7, Max(0, Min(n, 280) - 256), l);
    CountRepeat(c, 8, Max(0, n - 280), l);
    CountNone(l);
    assert FixedLitLen()[..n] == c + Repeat(8, Max(0, n - 280));
  }

  lemma CountNone(l: nat)
    ensures Count([], l) == 0
  {
  }

  /** The fixed code of every literal/length symbol: 00110000 to 10111111, 110010000 to 111111111,
    0000000 to 0010111, 11000000 to 11000111. */
  lemma FixedCodes(s: nat)
    requires s <= 287
    ensures |FixedLitLen()| == 288
    ensures s <= 143 ==> FixedLitLen()[s] == 8 && Code(FixedLitLen(), s) == 0x30 + s
    ensures 144 <= s <= 255 ==> FixedLitLen()[s] == 9 && Code(FixedLitLen(), s) == 0x190 + (s - 144)
    ensures 256 <= s <= 279 ==> FixedLitLen()[s] == 7 && Code(FixedLitLen(), s) == s - 256
    ensures 280 <= s ==> FixedLitLen()[s] == 8 && Code(FixedLitLen(), s) == 0xC0 + (s - 280)
  {
    hide Count;
    var ll := FixedLitLen();
    assert ll[..288] == ll;
    FixedCount(s, ll[s]);
    NextCodes(ll);
  }

  /** The first codes of 7, 8 and 9 bits. */
  lemma NextCodes(ll: seq<nat>)
    requires ll == FixedLitLen()
    ensures NextCode(ll, 7) == 0 && NextCode(ll, 8) == 48 && NextCode(ll, 9) == 400
  {
    hide Count;
    assert ll[..288] == ll;
    FixedCount(288, 1);
    FixedCount(288, 2);
    FixedCount(288, 3);
    FixedCount(288, 4);
    FixedCount(288, 5);
    FixedCount(288, 6);
    FixedCount(288, 7);
    FixedCount(288, 8);
    assert NextCode(ll, 1) == 0;
    assert NextCode(ll, 3) == 0;
    assert NextCode(ll, 5) == 0;
  }

  /** Fixed distance codes are the symbols themselves, in five bits. */
  lemma FixedDistanceCodes(t: nat)
    requires t <= 31
    ensures |FixedDistance()| == 32 && FixedDistance()[t] == 5 && Code(FixedDistance(), t) == t
  {
    hide Count;
    var d, e: seq<nat> := FixedDistance(), [];
    forall l: nat ensures Count(d, l) == if l == 5 then 32 else 0 {
      CountNone(l);
      CountRepeat(e, 5, 32, l);
      assert d == e + Repeat(5, 32);
    }
    assert NextCode(d, 1) == 0;
    assert NextCode(d, 3) == 0;
    CountNone(5);
    CountRepeat(e, 5, t, 5);
    assert d[..t] == e + Repeat(5, t);
  }
}
