/** Bit-level vocabulary of a DEFLATE stream.

  A stream is a sequence of bits, the low bit of every byte first.  Values packed
  "LSB first" are read by `Peek`; Huffman codes are packed "MSB first", which is
  the bit reversal `Rev` of the value `Peek` sees.  Reading past the end of the
  stream yields zero bits, as the reader's buffer does.

  Words are natural numbers: `Shr` is a right shift, `Low` a mask of the low bits,
  and a bitwise "or" of disjoint fields is their sum. */
module Bits {

  type Byte = x: int | 0 <= x < 256
  type Bit = x: int | 0 <= x < 2

  function Min(a: int, b: int): int { if a < b then a else b }

  function Max(a: int, b: int): int { if a > b then a else b }

  lemma ExtendMany<T>(done: seq<T>, m: seq<T>, rest: seq<T>)
    ensures (done + m) + rest == done + (m + rest)
  {
  }

  lemma {:induction false} SliceOfSlice<T>(s: seq<T>, a: nat, n: nat, b: nat, m: nat)
    requires a + n <= |s| && b + m <= n
    ensures s[a..a + n][b..b + m] == s[a + b..a + b + m]
  {
    var w, d := s[a..a + n][b..b + m], s[a + b..a + b + m];
    assert |w| == |d| == m;
    assert forall k :: 0 <= k < m ==> w[k] == d[k];
  }

  /** The first x elements of a piece put in place. */
  function Blit<T>(before: seq<T>, at: nat, piece: seq<T>, x: nat): (r: seq<T>)
    requires x <= |piece| && at + |piece| <= |before|
    ensures |r| == |before|
  {
    before[..at] + piece[..x] + before[at + x..]
  }

  lemma {:induction false} BlitStep<T>(before: seq<T>, at: nat, piece: seq<T>, x: nat)
    requires x < |piece| && at + |piece| <= |before|
    ensures Blit(before, at, piece, x)[at + x := piece[x]] == Blit(before, at, piece, x + 1)
  {
    var u, v := Blit(before, at, piece, x)[at + x := piece[x]], Blit(before, at, piece, x + 1);
    assert forall k :: 0 <= k < |u| ==> u[k] == v[k];
  }

  /** Elements ahead of the copying are as before. */
  lemma {:induction false} BlitAhead<T>(before: seq<T>, at: nat, piece: seq<T>, x: nat, k: nat)
    requires x <= |piece| && at + |piece| <= |before| && at + x <= k < |before|
    ensures Blit(before, at, piece, x)[k] == before[k]
  {
  }

  lemma {:induction false} BlitEnds<T>(before: seq<T>, at: nat, piece: seq<T>)
    requires at + |piece| <= |before|
    ensures Blit(before, at, piece, 0) == before
    ensures Blit(before, at, piece, |piece|) == before[..at] + piece + before[at + |piece|..]
  {
    assert piece[..|piece|] == piece;
  }

  function Pow2(n: nat): (r: nat)
    ensures r > 0
  {
    if n == 0 then 1 else 2 * Pow2(n - 1)
  }

  lemma Pow2Step(n: nat)
    ensures Pow2(n + 1) == 2 * Pow2(n)
  {
  }

  lemma {:induction false} Pow2Add(a: nat, b: nat)
    ensures Pow2(a + b) == Pow2(a) * Pow2(b)
  {
    if a > 0 {
      Pow2Add(a - 1, b);
      Pow2Step(a - 1);
      Pow2Step(a - 1 + b);
      hide Pow2;
      DoubleProduct(Pow2(a), Pow2(a - 1), Pow2(b));
    }
  }

  lemma DoubleProduct(x: int, p: int, q: int)
    requires x == 2 * p
    ensures x * q == 2 * (p * q)
  {
  }

  lemma {:induction false} Pow2Monotone(a: nat, b: nat)
    requires a <= b
    ensures Pow2(a) <= Pow2(b)
    ensures a < b ==> Pow2(a) < Pow2(b)
    decreases b
  {
    if a < b { Pow2Monotone(a, b - 1); }
  }

  /** The powers the code uses as literals. */
  lemma Pow2Small()
    ensures Pow2(0) == 1 && Pow2(1) == 2 && Pow2(2) == 4 && Pow2(3) == 8 && Pow2(4) == 16
    ensures Pow2(5) == 32 && Pow2(6) == 64 && Pow2(7) == 128 && Pow2(8) == 256 && Pow2(9) == 512
    ensures Pow2(15) == 32768 && Pow2(16) == 65536 && Pow2(24) == 16777216 && Pow2(32) == 4294967296
  {
    assert Pow2(4) == 16;
    assert Pow2(8) == 256;
    Pow2Add(8, 7);
    Pow2Add(8, 8);
    Pow2Add(16, 8);
    Pow2Add(16, 16);
  }

  // ---- shifts and masks ----

  /** v >> k */
  function Shr(v: nat, k: nat): nat
  {
    if k == 0 then v else Shr(v / 2, k - 1)
  }

  /** v << k */
  function Shl(v: nat, k: nat): nat
  {
    v * Pow2(k)
  }

  /** v & ((1 << k) - 1) */
  function Low(v: nat, k: nat): (r: nat)
  {
    if k == 0 then 0 else v % 2 + 2 * Low(v / 2, k - 1)
  }

  lemma {:induction false} LowBound(v: nat, k: nat)
    ensures Low(v, k) < Pow2(k)
  {
    if k > 0 { LowBound(v / 2, k - 1); }
  }

  lemma LowShrStep(b: int, lo: int, p: int, hi: int)
    ensures b + 2 * (lo + p * hi) == (b + 2 * lo) + (2 * p) * hi
  {
  }

  lemma {:induction false} LowShr(v: nat, k: nat)
    ensures v == Low(v, k) + Pow2(k) * Shr(v, k)
  {
    if k > 0 {
      LowShr(v / 2, k - 1);
      LowShrStep(v % 2, Low(v / 2, k - 1), Pow2(k - 1), Shr(v, k));
    }
  }

  /** The split of a word at bit k is unique. */
  lemma {:induction false} SplitUnique(lo: nat, hi: nat, k: nat)
    requires lo < Pow2(k)
    ensures Low(lo + Pow2(k) * hi, k) == lo && Shr(lo + Pow2(k) * hi, k) == hi
  {
    if k > 0 {
      var v, w := lo + Pow2(k) * hi, lo / 2 + Pow2(k - 1) * hi;
      LowShrStep(lo % 2, lo / 2, Pow2(k - 1), hi);
      assert v == lo % 2 + 2 * w;
      SplitUnique(lo / 2, hi, k - 1);
    }
  }

  lemma {:induction false} LowSmall(v: nat, k: nat)
    requires v < Pow2(k)
    ensures Low(v, k) == v && Shr(v, k) == 0
  {
    SplitUnique(v, 0, k);
  }

  lemma {:induction false} LowLow(v: nat, k: nat, n: nat)
    requires k <= n
    ensures Low(Low(v, n), k) == Low(v, k)
  {
    if k > 0 { LowLow(v / 2, k - 1, n - 1); }
  }

  lemma {:induction false} ShrLow(v: nat, k: nat, n: nat)
    requires k <= n
    ensures Shr(Low(v, n), k) == Low(Shr(v, k), n - k)
  {
    if k > 0 { ShrLow(v / 2, k - 1, n - 1); }
  }

  lemma {:induction false} ShrShr(v: nat, a: nat, b: nat)
    ensures Shr(Shr(v, a), b) == Shr(v, a + b)
  {
    if a > 0 { ShrShr(v / 2, a - 1, b); }
  }

  lemma {:induction false} LowSplit(v: nat, a: nat, b: nat)
    ensures Low(v, a + b) == Low(v, a) + Pow2(a) * Low(Shr(v, a), b)
  {
    if a > 0 {
      LowSplit(v / 2, a - 1, b);
      LowShrStep(v % 2, Low(v / 2, a - 1), Pow2(a - 1), Low(Shr(v, a), b));
    }
  }

  lemma ShrBound(v: nat, k: nat, n: nat)
    requires k <= n && v < Pow2(n)
    ensures Shr(v, k) < Pow2(n - k)
  {
    LowSmall(v, n);
    ShrLow(v, k, n);
    LowBound(Shr(v, k), n - k);
  }

  /** The j-th word whose low k bits are lo, among the words of n bits. */
  lemma Stride(lo: nat, j: nat, k: nat, n: nat)
    requires k <= n && lo < Pow2(k) && j < Pow2(n - k)
    ensures lo + j * Pow2(k) < Pow2(n)
    ensures Low(lo + j * Pow2(k), k) == lo && Shr(lo + j * Pow2(k), k) == j
  {
    hide *;
    SplitUnique(lo, j, k);
    MulStrict(Pow2(k), j, Pow2(n - k));
    Pow2Add(n - k, k);
    assert n - k + k == n;
  }

  lemma StrideOnly(e: nat, lo: nat, j: nat, k: nat)
    requires Low(e, k) == lo && Shr(e, k) == j
    ensures e == lo + j * Pow2(k)
  {
    LowShr(e, k);
  }

  /** A shifted word is c exactly when the word lies in the c-th interval of that size. */
  lemma ShrInterval(v: nat, k: nat, c: nat)
    ensures Shr(v, k) == c <==> c * Pow2(k) <= v < c * Pow2(k) + Pow2(k)
  {
    hide *;
    LowShr(v, k);
    LowBound(v, k);
    var lo, h := Low(v, k), Shr(v, k);
    assert v == lo + Pow2(k) * h;
    if h < c { MulStrict(Pow2(k), h, c); }
    if c < h { MulStrict(Pow2(k), c, h); }
  }

  lemma {:induction false} MulStrict(p: nat, a: nat, b: nat)
    requires a < b
    ensures a * p + p <= b * p && p * a == a * p && p * b == b * p
  {
    if a + 1 < b {
      MulStrict(p, a, b - 1);
      assert b * p == (b - 1) * p + p;
    } else {
      assert b * p == (a + 1) * p == a * p + p;
    }
  }

  // ---- streams ----

  /** The low n bits of v, LSB first. */
  function BitsOf(v: nat, n: nat): (r: seq<Bit>)
    ensures |r| == n
  {
    if n == 0 then [] else [v % 2] + BitsOf(v / 2, n - 1)
  }

  function BitAt(bits: seq<Bit>, i: nat): Bit
  {
    if i < |bits| then bits[i] else 0
  }

  /** The n-bit LSB-first value at bit position pos, zero-extended past the end. */
  function Peek(bits: seq<Bit>, pos: nat, n: nat): nat
    decreases n
  {
    if n == 0 then 0 else BitAt(bits, pos) + 2 * Peek(bits, pos + 1, n - 1)
  }

  lemma {:induction false} PeekBound(bits: seq<Bit>, pos: nat, n: nat)
    ensures Peek(bits, pos, n) < Pow2(n)
    decreases n
  {
    if n > 0 { PeekBound(bits, pos + 1, n - 1); }
  }

  /** Masking and shifting a peeked value. */
  lemma {:induction false} PeekLow(bits: seq<Bit>, pos: nat, n: nat, k: nat)
    requires k <= n
    ensures Low(Peek(bits, pos, n), k) == Peek(bits, pos, k)
    ensures Shr(Peek(bits, pos, n), k) == Peek(bits, pos + k, n - k)
    decreases k
  {
    if k > 0 {
      PeekLow(bits, pos + 1, n - 1, k - 1);
      assert pos + 1 + (k - 1) == pos + k;
    }
  }

  lemma PeekSplit(bits: seq<Bit>, pos: nat, a: nat, b: nat)
    ensures Peek(bits, pos, a + b) == Peek(bits, pos, a) + Pow2(a) * Peek(bits, pos + a, b)
  {
    PeekLow(bits, pos, a + b, a);
    LowShr(Peek(bits, pos, a + b), a);
  }

  lemma {:induction false} PeekPast(bits: seq<Bit>, pos: nat, n: nat)
    requires pos >= |bits|
    ensures Peek(bits, pos, n) == 0
    decreases n
  {
    if n > 0 { PeekPast(bits, pos + 1, n - 1); }
  }

  /** `Peek` depends on nothing but the bits it covers. */
  lemma {:induction false} PeekAgree(a: seq<Bit>, i: nat, b: seq<Bit>, j: nat, n: nat)
    requires forall k {:trigger BitAt(a, k)} :: i <= k < i + n ==> BitAt(a, k) == BitAt(b, k - i + j)
    ensures Peek(a, i, n) == Peek(b, j, n)
    decreases n
  {
    if n > 0 {
      assert BitAt(a, i) == BitAt(b, i - i + j);
      PeekAgree(a, i + 1, b, j + 1, n - 1);
    }
  }

  lemma {:induction false} PeekBitsOf(v: nat, n: nat)
    ensures Peek(BitsOf(v, n), 0, n) == Low(v, n)
  {
    if n > 0 {
      PeekBitsOf(v / 2, n - 1);
      PeekAgree(BitsOf(v, n), 1, BitsOf(v / 2, n - 1), 0, n - 1);
    }
  }

  /** b << k */
  function Place(b: Bit, k: nat): nat
  {
    if b == 0 then 0 else Pow2(k)
  }

  /** One more bit at the end of a stream, seen through a window over its end. */
  lemma {:induction false} PeekAppend(bits: seq<Bit>, b: Bit, pos: nat, n: nat)
    ensures Peek(bits + [b], pos, n)
         == Peek(bits, pos, n) + if pos <= |bits| < pos + n then Place(b, |bits| - pos) else 0
    decreases n
  {
    if n > 0 {
      PeekAppend(bits, b, pos + 1, n - 1);
      if pos == |bits| {
        assert BitAt(bits + [b], pos) == b;
      } else if pos < |bits| {
        assert BitAt(bits + [b], pos) == BitAt(bits, pos);
      }
    }
  }

  lemma {:induction false} BitsOfAppend(v: nat, n: nat)
    ensures BitsOf(v, n + 1) == BitsOf(v, n) + [Shr(v, n) % 2]
  {
    if n > 0 { BitsOfAppend(v / 2, n - 1); }
  }

  /** Equal windows hold equal bits. */
  lemma {:induction false} PeekBits(a: seq<Bit>, b: seq<Bit>, pos: nat, n: nat)
    requires Peek(a, pos, n) == Peek(b, pos, n)
    ensures forall k: nat :: pos <= k < pos + n ==> BitAt(a, k) == BitAt(b, k)
    decreases n
  {
    if n > 0 { PeekBits(a, b, pos + 1, n - 1); }
  }

  /** `enc` occurs in `bits` at `pos`. */
  predicate At(bits: seq<Bit>, pos: nat, enc: seq<Bit>)
  {
    pos + |enc| <= |bits| && bits[pos..pos + |enc|] == enc
  }

  lemma AtConcat(bits: seq<Bit>, pos: nat, a: seq<Bit>, b: seq<Bit>)
    requires At(bits, pos, a + b)
    ensures At(bits, pos, a) && At(bits, pos + |a|, b)
  {
    var w := bits[pos..pos + |a + b|];
    assert bits[pos..pos + |a|] == w[..|a|] == a;
    assert bits[pos + |a|..pos + |a| + |b|] == w[|a|..] == b;
  }

  /** Reading back a value that was written LSB first. */
  lemma PeekAt(bits: seq<Bit>, pos: nat, v: nat, n: nat)
    requires At(bits, pos, BitsOf(v, n)) && v < Pow2(n)
    ensures Peek(bits, pos, n) == v
  {
    var s := BitsOf(v, n);
    forall k | pos <= k < pos + n ensures BitAt(bits, k) == BitAt(s, k - pos + 0) {
      assert bits[k] == bits[pos..pos + n][k - pos];
    }
    PeekAgree(bits, pos, s, 0, n);
    PeekBitsOf(v, n);
    LowSmall(v, n);
  }

  /** The k-th byte of a bit sequence, zero-extended. */
  function ByteOf(bits: seq<Bit>, k: nat): Byte
  {
    PeekBound(bits, 8 * k, 8);
    Pow2Small();
    Peek(bits, 8 * k, 8)
  }

  /** The bytes that hold a bit sequence; unused high bits of the last one are zero. */
  function Pack(bits: seq<Bit>): (r: seq<Byte>)
    ensures |r| == (|bits| + 7) / 8
  {
    seq<Byte>((|bits| + 7) / 8, j requires 0 <= j < (|bits| + 7) / 8 => ByteOf(bits, j))
  }

  lemma ByteOfPush(bits: seq<Bit>, b: Bit, j: nat)
    ensures ByteOf(bits + [b], j) == ByteOf(bits, j) + if j == |bits| / 8 then Place(b, |bits| % 8) else 0
    ensures j >= (|bits| + 7) / 8 ==> ByteOf(bits, j) == 0
  {
    hide Peek;
    hide Place;
    PeekAppend(bits, b, 8 * j, 8);
    if j >= (|bits| + 7) / 8 { PeekPast(bits, 8 * j, 8); }
  }

  /** One more bit goes into the last byte, or into a new one. */
  lemma PackPush(bits: seq<Bit>, b: Bit)
    ensures var before := if |bits| % 8 == 0 then Pack(bits) + [0] else Pack(bits);
            var last := |bits| / 8;
            && |before| == last + 1
            && before[last] + Place(b, |bits| % 8) < 256
            && Pack(bits + [b]) == before[last := before[last] + Place(b, |bits| % 8)]
  {
    hide ByteOf;
    hide Place;
    var before := if |bits| % 8 == 0 then Pack(bits) + [0] else Pack(bits);
    var last := |bits| / 8;
    ByteOfPush(bits, b, last);
    forall j | 0 <= j < last ensures Pack(bits + [b])[j] == before[j] {
      ByteOfPush(bits, b, j);
    }
    assert Pack(bits + [b])[last] == before[last] + Place(b, |bits| % 8);
  }

  /** The packed bytes stream the bits again, then zeros. */
  lemma PackStream(bits: seq<Bit>)
    ensures |bits| <= |Stream(Pack(bits))| && Stream(Pack(bits))[..|bits|] == bits
  {
    hide Peek;
    hide Stream;
    var s := Stream(Pack(bits));
    forall i | 0 <= i < |bits| ensures s[i] == bits[i] {
      var j := i / 8;
      PeekByte(Pack(bits), j);
      PeekBits(s, bits, 8 * j, 8);
      assert BitAt(s, i) == BitAt(bits, i);
    }
  }

  // ---- reversal ----

  /** The n-bit reversal of v; `reverseBits` of the source. */
  function Rev(v: nat, n: nat): nat
  {
    if n == 0 then 0 else (v % 2) * Pow2(n - 1) + Rev(v / 2, n - 1)
  }

  lemma {:induction false} RevBound(v: nat, n: nat)
    ensures Rev(v, n) < Pow2(n)
  {
    if n > 0 {
      RevBound(v / 2, n - 1);
      RevUnfold(v, n);
      Pow2Step(n - 1);
      hide Rev;
      hide Pow2;
    }
  }

  lemma RevUnfold(v: nat, n: nat)
    requires n > 0
    ensures Rev(v, n) == (if v % 2 == 1 then Pow2(n - 1) else 0) + Rev(v / 2, n - 1)
  {
    hide Pow2;
    var p := Pow2(n - 1);
    if v % 2 == 1 { assert v % 2 * p == p; } else { assert v % 2 * p == 0; }
  }

  /** Only the low n bits matter. */
  lemma {:induction false} RevLow(v: nat, n: nat)
    ensures Rev(Low(v, n), n) == Rev(v, n)
  {
    if n > 0 { RevLow(v / 2, n - 1); }
  }

  /** The leading l bits (of n, MSB first) of the reversal are the reversal of the low l bits. */
  lemma {:induction false} RevPrefix(v: nat, n: nat, l: nat)
    requires l <= n
    ensures Shr(Rev(v, n), n - l) == Rev(v, l)
    decreases n
  {
    if l == 0 {
      RevBound(v, n);
      LowSmall(Rev(v, n), n);
    } else {
      RevPrefix(v / 2, n - 1, l - 1);
      var x, lo := v % 2, Rev(v / 2, n - 1);
      LowShr(lo, n - l);
      LowBound(lo, n - l);
      Pow2Add(n - l, l - 1);
      assert Rev(v, n) == x * Pow2(n - 1) + lo && Rev(v, l) == x * Pow2(l - 1) + Rev(v / 2, l - 1);
      hide Rev;
      hide Pow2;
      hide Shr;
      hide Low;
      LowShrStep2(Low(lo, n - l), Pow2(n - l), Shr(lo, n - l), x, Pow2(l - 1));
      SplitUnique(Low(lo, n - l), x * Pow2(l - 1) + Shr(lo, n - l), n - l);
    }
  }

  lemma LowShrStep2(lo: int, p: int, hi: int, x: int, q: int)
    ensures x * (p * q) + (lo + p * hi) == lo + p * (x * q + hi)
  {
  }

  lemma {:induction false} RevLowBit(v: nat, n: nat)
    requires n > 0
    ensures Rev(v, n) % 2 == Shr(v, n - 1) % 2
  {
    RevUnfold(v, n);
    if n > 1 {
      RevLowBit(v / 2, n - 1);
      Pow2Step(n - 2);
      hide Pow2;
      hide Rev;
    }
  }

  /** The i-th bit of the reversal. */
  lemma RevBit(v: nat, n: nat, i: nat)
    requires i < n
    ensures Shr(Rev(v, n), i) % 2 == Shr(v, n - 1 - i) % 2
  {
    RevPrefix(v, n, n - i);
    RevLowBit(v, n - i);
  }

  /** Appending one more significant bit to v prepends it to the reversal. */
  lemma {:induction false} RevHigh(v: nat, n: nat, b: Bit)
    requires v < Pow2(n)
    ensures Rev(v + b * Pow2(n), n + 1) == 2 * Rev(v, n) + b
  {
    var w := v + b * Pow2(n);
    RevUnfold(w, n + 1);
    if n > 0 {
      var p := Pow2(n - 1);
      Pow2Step(n - 1);
      hide Pow2;
      assert b * (2 * p) == 2 * (b * p);
      assert w % 2 == v % 2 && w / 2 == v / 2 + b * p;
      RevHigh(v / 2, n - 1, b);
      RevUnfold(v, n);
      hide Rev;
    }
  }

  lemma {:induction false} RevInvolution(v: nat, n: nat)
    requires v < Pow2(n)
    ensures Rev(Rev(v, n), n) == v
  {
    if n > 0 {
      RevBound(v / 2, n - 1);
      var h, b := Rev(v / 2, n - 1), v % 2;
      RevHigh(h, n - 1, b);
      RevInvolution(v / 2, n - 1);
    }
  }

  lemma RevInjective(v: nat, w: nat, n: nat)
    requires v < Pow2(n) && w < Pow2(n) && Rev(v, n) == Rev(w, n)
    ensures v == w
  {
    RevInvolution(v, n);
    RevInvolution(w, n);
  }

  // ---- bytes ----

  /** The bits of a byte string, low bit of each byte first. */
  function Stream(data: seq<Byte>): (r: seq<Bit>)
    ensures |r| == 8 * |data|
  {
    if data == [] then [] else BitsOf(data[0], 8) + Stream(data[1..])
  }

  lemma {:induction false} StreamByteAt(data: seq<Byte>, k: nat)
    requires k < |data|
    ensures At(Stream(data), 8 * k, BitsOf(data[k], 8))
  {
    hide BitsOf;
    var head, rest := BitsOf(data[0], 8), Stream(data[1..]);
    if k > 0 {
      StreamByteAt(data[1..], k - 1);
      assert (head + rest)[8 * k..8 * k + 8] == rest[8 * (k - 1)..8 * (k - 1) + 8];
    }
  }

  /** Eight bits at a byte boundary are that byte, or zero past the end. */
  lemma PeekByte(data: seq<Byte>, k: nat)
    ensures Peek(Stream(data), 8 * k, 8) == if k < |data| then data[k] else 0
  {
    if k < |data| {
      StreamByteAt(data, k);
      Pow2Small();
      PeekAt(Stream(data), 8 * k, data[k], 8);
    } else {
      PeekPast(Stream(data), 8 * k, 8);
    }
  }
}
