/** Where the reduced images lie in memory: filtered, padded to whole bytes per line, and packed. */
module PassLayout {
  import opened ImageFilter
  import opened Padding
  import opened Adam7

  function Bytes(bits: nat): nat
  {
    (bits + 7) / 8
  }

  /** Bits and bytes of a line of n pixels. */
  function LineBits(bpp: nat, n: nat): nat
  {
    Times(bpp, n)
  }

  function LineBytes(bpp: nat, n: nat): nat
  {
    Bytes(LineBits(bpp, n))
  }

  function PackedSize(w: nat, h: nat, bpp: nat, i: nat): nat
    requires i < PASSES
  {
    Bytes(Times(LineBits(bpp, PassW(w, h, i)), PassH(w, h, i)))
  }

  function PaddedSize(w: nat, h: nat, bpp: nat, i: nat): nat
    requires i < PASSES
  {
    Times(LineBytes(bpp, PassW(w, h, i)), PassH(w, h, i))
  }

  function FilteredSize(w: nat, h: nat, bpp: nat, i: nat): nat
    requires i < PASSES
  {
    Times(1 + LineBytes(bpp, PassW(w, h, i)), PassH(w, h, i))
  }

  function PackedStart(w: nat, h: nat, bpp: nat, i: nat): nat
    requires i <= PASSES
  {
    if i == 0 then 0 else PackedStart(w, h, bpp, i - 1) + PackedSize(w, h, bpp, i - 1)
  }

  function PaddedStart(w: nat, h: nat, bpp: nat, i: nat): nat
    requires i <= PASSES
  {
    if i == 0 then 0 else PaddedStart(w, h, bpp, i - 1) + PaddedSize(w, h, bpp, i - 1)
  }

  function FilteredStart(w: nat, h: nat, bpp: nat, i: nat): nat
    requires i <= PASSES
  {
    if i == 0 then 0 else FilteredStart(w, h, bpp, i - 1) + FilteredSize(w, h, bpp, i - 1)
  }

  // ---- order: what lets decoding run in place ----

  lemma PackLine(bits: nat, h: nat)
    ensures Bytes(Times(bits, h)) <= Times(Bytes(bits), h)
  {
    TimesMonotone(bits, 8 * Bytes(bits), h);
    TimesEight(Bytes(bits), h);
  }

  lemma TimesEight(a: nat, n: nat)
    ensures Times(8 * a, n) == 8 * Times(a, n)
  {
  }

  lemma PassOrder(w: nat, h: nat, bpp: nat, i: nat)
    requires i < PASSES
    ensures PackedSize(w, h, bpp, i) <= PaddedSize(w, h, bpp, i) <= FilteredSize(w, h, bpp, i)
  {
    hide Times;
    PackLine(LineBits(bpp, PassW(w, h, i)), PassH(w, h, i));
    TimesMonotone(LineBytes(bpp, PassW(w, h, i)), 1 + LineBytes(bpp, PassW(w, h, i)), PassH(w, h, i));
  }

  /** Packed images start no later than padded ones, and those no later than filtered ones. */
  lemma {:induction false} StartsOrdered(w: nat, h: nat, bpp: nat, i: nat)
    requires i <= PASSES
    ensures PackedStart(w, h, bpp, i) <= PaddedStart(w, h, bpp, i) <= FilteredStart(w, h, bpp, i)
  {
    hide PackedSize;
    hide PaddedSize;
    hide FilteredSize;
    if i > 0 {
      StartsOrdered(w, h, bpp, i - 1);
      PassOrder(w, h, bpp, i - 1);
    }
  }

  lemma {:induction false} StartsGrow(w: nat, h: nat, bpp: nat, i: nat, j: nat)
    requires i <= j <= PASSES
    ensures PackedStart(w, h, bpp, i) <= PackedStart(w, h, bpp, j)
    ensures PaddedStart(w, h, bpp, i) <= PaddedStart(w, h, bpp, j)
    ensures FilteredStart(w, h, bpp, i) <= FilteredStart(w, h, bpp, j)
    decreases j
  {
    hide PackedSize;
    hide PaddedSize;
    hide FilteredSize;
    if i < j { StartsGrow(w, h, bpp, i, j - 1); }
  }

  /** With whole-byte pixels there is no padding. */
  lemma WholeBytes(bpp: nat, n: nat)
    requires bpp % 8 == 0
    ensures LineBits(bpp, n) == 8 * LineBytes(bpp, n) && LineBytes(bpp, n) == Times(bpp / 8, n)
  {
    TimesEight(bpp / 8, n);
  }

  lemma NoPadding(w: nat, h: nat, bpp: nat, i: nat)
    requires i < PASSES && bpp % 8 == 0
    ensures PackedSize(w, h, bpp, i) == PaddedSize(w, h, bpp, i)
  {
    hide Times;
    WholeBytes(bpp, PassW(w, h, i));
    TimesEight(LineBytes(bpp, PassW(w, h, i)), PassH(w, h, i));
  }

  lemma {:induction false} NoPaddingStarts(w: nat, h: nat, bpp: nat, i: nat)
    requires i <= PASSES && bpp % 8 == 0
    ensures PackedStart(w, h, bpp, i) == PaddedStart(w, h, bpp, i)
  {
    hide PackedSize;
    hide PaddedSize;
    if i > 0 {
      NoPaddingStarts(w, h, bpp, i - 1);
      NoPadding(w, h, bpp, i - 1);
    }
  }

  // ---- computing the layout ----

  datatype Layout = Layout(passw: seq<nat>, passh: seq<nat>, filtered: seq<nat>, padded: seq<nat>, packed: seq<nat>)

  ghost predicate LayoutOf(l: Layout, w: nat, h: nat, bpp: nat)
  {
    && |l.passw| == |l.passh| == PASSES && |l.filtered| == |l.padded| == |l.packed| == PASSES + 1
    && (forall i: nat :: i < PASSES ==> l.passw[i] == PassW(w, h, i) && l.passh[i] == PassH(w, h, i))
    && (forall i: nat :: i <= PASSES ==>
          && l.filtered[i] == FilteredStart(w, h, bpp, i)
          && l.padded[i] == PaddedStart(w, h, bpp, i)
          && l.packed[i] == PackedStart(w, h, bpp, i))
  }

  /** Width and height of each pass. */
  method PassDimensions(w: nat, h: nat) returns (passw: seq<nat>, passh: seq<nat>)
    ensures |passw| == |passh| == PASSES
    ensures forall i: nat :: i < PASSES ==> passw[i] == PassW(w, h, i) && passh[i] == PassH(w, h, i)
  {
    hide RawW;
    hide RawH;
    passw, passh := [], [];
    for i := 0 to PASSES
      invariant |passw| == |passh| == i
      invariant forall k: nat :: k < i ==> passw[k] == PassW(w, h, k) && passh[k] == PassH(w, h, k)
    {
      var pw, ph := RawW(w, i), RawH(h, i);
      if pw == 0 { ph := 0; }
      if ph == 0 { pw := 0; }
      passw, passh := passw + [pw], passh + [ph];
    }
  }

  /** The bytes pass i takes: with filter bytes, padded per line, and packed. */
  method PassSizes(w: nat, h: nat, bpp: nat, ghost i: nat, passw: nat, passh: nat)
    returns (filtered: nat, padded: nat, packed: nat)
    requires i < PASSES && passw == PassW(w, h, i) && passh == PassH(w, h, i)
    ensures filtered == FilteredSize(w, h, bpp, i)
    ensures padded == PaddedSize(w, h, bpp, i) && packed == PackedSize(w, h, bpp, i)
  {
    EmptyPass(w, h, bpp, i);
    hide PassW;
    hide PassH;
    hide Times;
    var bits := Times(bpp, passw);
    filtered := if passw != 0 && passh != 0 then Times(1 + (bits + 7) / 8, passh) else 0;
    padded := Times((bits + 7) / 8, passh);
    packed := (Times(bits, passh) + 7) / 8;
  }

  method GetPassValues(w: nat, h: nat, bpp: nat) returns (l: Layout)
    ensures LayoutOf(l, w, h, bpp)
  {
    hide PassW;
    hide PassH;
    hide FilteredSize;
    hide PaddedSize;
    hide PackedSize;
    var passw, passh := PassDimensions(w, h);
    var filtered, padded, packed: seq<nat> := [0], [0], [0];
    for i := 0 to PASSES
      invariant |filtered| == |padded| == |packed| == i + 1
      invariant forall k: nat :: k <= i ==> filtered[k] == FilteredStart(w, h, bpp, k)
      invariant forall k: nat :: k <= i ==> padded[k] == PaddedStart(w, h, bpp, k)
      invariant forall k: nat :: k <= i ==> packed[k] == PackedStart(w, h, bpp, k)
    {
      var filteredSize, paddedSize, packedSize := PassSizes(w, h, bpp, i, passw[i], passh[i]);
      filtered := filtered + [filtered[i] + filteredSize];
      padded := padded + [padded[i] + paddedSize];
      packed := packed + [packed[i] + packedSize];
    }
    l := Layout(passw, passh, filtered, padded, packed);
  }

  /** A pass without pixels takes no bytes, not even filter bytes. */
  lemma EmptyPass(w: nat, h: nat, bpp: nat, i: nat)
    requires i < PASSES
    ensures PassW(w, h, i) == 0 <==> PassH(w, h, i) == 0
    ensures PassW(w, h, i) == 0 ==> FilteredSize(w, h, bpp, i) == 0
  {
  }

  // ---- the decoder's prediction ----

  /** The split division that avoids a large product. */
  function RawSizeIdat(w: nat, h: nat, bpp: nat): nat
  {
    var line := w / 8 * bpp + 1 + (w % 8 * bpp + 7) / 8;
    h * line
  }

  lemma RawSizeIdatIs(w: nat, h: nat, bpp: nat)
    ensures RawSizeIdat(w, h, bpp) == Times(1 + LineBytes(bpp, w), h)
  {
    SplitProduct(w, bpp);
    var line := w / 8 * bpp + 1 + (w % 8 * bpp + 7) / 8;
    assert line == 1 + LineBytes(bpp, w);
    assert h * line == line * h;
  }

  lemma SplitProduct(n: nat, bpp: nat)
    ensures Times(bpp, n) == 8 * (n / 8 * bpp) + n % 8 * bpp
    ensures Bytes(Times(bpp, n)) == n / 8 * bpp + (n % 8 * bpp + 7) / 8
  {
    var a, r := n / 8, n % 8;
    assert n == 8 * a + r;
    assert bpp * (8 * a + r) == 8 * (a * bpp) + r * bpp;
    var p, q := a * bpp, r * bpp;
    assert (8 * p + q + 7) / 8 == p + (q + 7) / 8;
  }

  function RawSize(w: nat, h: nat, bpp: nat): nat
  {
    var n := w * h;
    n / 8 * bpp + (n % 8 * bpp + 7) / 8
  }

  lemma RawSizeIs(w: nat, h: nat, bpp: nat)
    ensures RawSize(w, h, bpp) == Bytes(Times(bpp, w * h))
  {
    SplitProduct(w * h, bpp);
  }

  /** What the decoder expects pass i to take; only passes that may lack columns are guarded. */
  function ExpectedPart(w: nat, h: nat, bpp: nat, i: nat): nat
    requires i < PASSES
  {
    if i == 0 then RawSizeIdat((w + 7) / 8, (h + 7) / 8, bpp)
    else if i == 1 then if w > 4 then RawSizeIdat((w + 3) / 8, (h + 7) / 8, bpp) else 0
    else if i == 2 then RawSizeIdat((w + 3) / 4, (h + 3) / 8, bpp)
    else if i == 3 then if w > 2 then RawSizeIdat((w + 1) / 4, (h + 3) / 4, bpp) else 0
    else if i == 4 then RawSizeIdat((w + 1) / 2, (h + 1) / 4, bpp)
    else if i == 5 then if w > 1 then RawSizeIdat(w / 2, (h + 1) / 2, bpp) else 0
    else RawSizeIdat(w, h / 2, bpp)
  }

  function ExpectedSize(w: nat, h: nat, bpp: nat): nat
  {
    ExpectedPart(w, h, bpp, 0) + ExpectedPart(w, h, bpp, 1) + ExpectedPart(w, h, bpp, 2) + ExpectedPart(w, h, bpp, 3)
    + ExpectedPart(w, h, bpp, 4) + ExpectedPart(w, h, bpp, 5) + ExpectedPart(w, h, bpp, 6)
  }

  lemma ExpectedPartIs(w: nat, h: nat, bpp: nat, i: nat)
    requires w > 0 && i < PASSES
    ensures ExpectedPart(w, h, bpp, i) == if RawW(w, i) == 0 then 0 else RawSizeIdat(RawW(w, i), RawH(h, i), bpp)
  {
    hide RawSizeIdat;
    if i == 0 {
      assert RawW(w, 0) == (w + 7) / 8 > 0 && RawH(h, 0) == (h + 7) / 8;
    } else if i == 1 {
      assert RawW(w, 1) == (w + 3) / 8 && RawH(h, 1) == (h + 7) / 8;
    } else if i == 2 {
      assert RawW(w, 2) == (w + 3) / 4 > 0 && RawH(h, 2) == (h + 3) / 8;
    } else if i == 3 {
      assert RawW(w, 3) == (w + 1) / 4 && RawH(h, 3) == (h + 3) / 4;
    } else if i == 4 {
      assert RawW(w, 4) == (w + 1) / 2 > 0 && RawH(h, 4) == (h + 1) / 4;
    } else if i == 5 {
      assert RawW(w, 5) == w / 2 && RawH(h, 5) == (h + 1) / 2;
    } else {
      assert RawW(w, 6) == w && RawH(h, 6) == h / 2;
    }
  }

  lemma ExpectedTerm(w: nat, h: nat, bpp: nat, i: nat)
    requires w > 0 && i < PASSES
    ensures FilteredSize(w, h, bpp, i) == ExpectedPart(w, h, bpp, i)
  {
    ExpectedPartIs(w, h, bpp, i);
    hide RawW;
    hide RawH;
    hide ExpectedPart;
    RawSizeIdatIs(RawW(w, i), RawH(h, i), bpp);
  }

  /** The prediction is exact. */
  lemma ExpectedSizeIs(w: nat, h: nat, bpp: nat)
    requires w > 0
    ensures ExpectedSize(w, h, bpp) == FilteredStart(w, h, bpp, PASSES)
  {
    hide ExpectedPart;
    hide FilteredSize;
    ExpectedTerm(w, h, bpp, 0);
    ExpectedTerm(w, h, bpp, 1);
    ExpectedTerm(w, h, bpp, 2);
    ExpectedTerm(w, h, bpp, 3);
    ExpectedTerm(w, h, bpp, 4);
    ExpectedTerm(w, h, bpp, 5);
    ExpectedTerm(w, h, bpp, 6);
    FilteredUnfold(w, h, bpp);
    hide FilteredStart;
  }

  lemma FilteredUnfold(w: nat, h: nat, bpp: nat)
    ensures FilteredStart(w, h, bpp, PASSES)
         == FilteredSize(w, h, bpp, 0) + FilteredSize(w, h, bpp, 1) + FilteredSize(w, h, bpp, 2) + FilteredSize(w, h, bpp, 3)
          + FilteredSize(w, h, bpp, 4) + FilteredSize(w, h, bpp, 5) + FilteredSize(w, h, bpp, 6)
  {
    hide FilteredSize;
    assert FilteredStart(w, h, bpp, 1) == FilteredStart(w, h, bpp, 0) + FilteredSize(w, h, bpp, 0);
    assert FilteredStart(w, h, bpp, 2) == FilteredStart(w, h, bpp, 1) + FilteredSize(w, h, bpp, 1);
    assert FilteredStart(w, h, bpp, 3) == FilteredStart(w, h, bpp, 2) + FilteredSize(w, h, bpp, 2);
    assert FilteredStart(w, h, bpp, 4) == FilteredStart(w, h, bpp, 3) + FilteredSize(w, h, bpp, 3);
    assert FilteredStart(w, h, bpp, 5) == FilteredStart(w, h, bpp, 4) + FilteredSize(w, h, bpp, 4);
    assert FilteredStart(w, h, bpp, 6) == FilteredStart(w, h, bpp, 5) + FilteredSize(w, h, bpp, 5);
  }
}
