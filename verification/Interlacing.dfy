/** Moving pixels between an image and its seven reduced images, as bits or as whole bytes. */
module Interlacing {
  import opened ImageFilter
  import opened Adam7

  /** An image of w by h pixels of k cells each, and where its packed passes start. A cell is a bit or a byte. */
  datatype Grid = Grid(w: nat, h: nat, k: nat, starts: seq<nat>)

  function PassCells(g: Grid, i: nat): nat
    requires i < PASSES
  {
    Times(g.k, Times(PassW(g.w, g.h, i), PassH(g.w, g.h, i)))
  }

  ghost predicate GridOk(g: Grid)
  {
    && g.k > 0 && |g.starts| == PASSES + 1
    && forall i: nat :: i < PASSES ==> g.starts[i] + PassCells(g, i) <= g.starts[i + 1]
  }

  /** Where pixel (x, y) of pass i is packed, and where it is in the image. */
  function Slot(g: Grid, i: nat, y: nat, x: nat): nat
    requires i < PASSES && |g.starts| == PASSES + 1
  {
    g.starts[i] + Times(g.k, Times(PassW(g.w, g.h, i), y) + x)
  }

  function Pixel(g: Grid, i: nat, y: nat, x: nat): nat
    requires i < PASSES
  {
    Times(g.k, Times(g.w, Line(i, y)) + Col(i, x))
  }

  // ---- places do not overlap ----

  lemma CellOrder(w: nat, y: nat, x: nat, y1: nat, x1: nat)
    requires x < w && (y < y1 || (y == y1 && x < x1))
    ensures Times(w, y) + x < Times(w, y1) + x1
  {
    if y < y1 { RowInside(w, y, y1); }
  }

  lemma CellInside(w: nat, h: nat, y: nat, x: nat)
    requires x < w && y < h
    ensures Times(w, y) + x < Times(w, h)
  {
    RowInside(w, y, h);
  }

  lemma SlotInside(g: Grid, i: nat, y: nat, x: nat)
    requires GridOk(g) && InPass(g.w, g.h, i, y, x)
    ensures g.starts[i] <= Slot(g, i, y, x) && Slot(g, i, y, x) + g.k <= g.starts[i] + PassCells(g, i) <= g.starts[i + 1]
  {
    hide Times;
    hide PassW;
    hide PassH;
    var pw, ph := PassW(g.w, g.h, i), PassH(g.w, g.h, i);
    CellInside(pw, ph, y, x);
    RowInside(g.k, Times(pw, y) + x, Times(pw, ph));
  }

  lemma {:induction false} StartsAscend(g: Grid, i: nat, j: nat)
    requires GridOk(g) && i <= j <= PASSES
    ensures g.starts[i] <= g.starts[j]
    decreases j
  {
    hide PassCells;
    if i < j {
      StartsAscend(g, i, j - 1);
      assert g.starts[j - 1] + PassCells(g, j - 1) <= g.starts[j - 1 + 1];
    }
  }

  /** The scan order of the passes. */
  predicate Earlier(i: nat, y: nat, x: nat, i1: nat, y1: nat, x1: nat)
  {
    i < i1 || (i == i1 && (y < y1 || (y == y1 && x < x1)))
  }

  lemma SlotsOrdered(g: Grid, i: nat, y: nat, x: nat, i1: nat, y1: nat, x1: nat)
    requires GridOk(g) && InPass(g.w, g.h, i, y, x) && InPass(g.w, g.h, i1, y1, x1) && Earlier(i, y, x, i1, y1, x1)
    ensures Slot(g, i, y, x) + g.k <= Slot(g, i1, y1, x1)
  {
    hide Times;
    hide PassW;
    hide PassH;
    SlotInside(g, i, y, x);
    if i < i1 {
      StartsAscend(g, i + 1, i1);
    } else {
      var pw := PassW(g.w, g.h, i);
      CellOrder(pw, y, x, y1, x1);
      RowInside(g.k, Times(pw, y) + x, Times(pw, y1) + x1);
    }
  }

  lemma PixelInside(g: Grid, i: nat, y: nat, x: nat)
    requires InPass(g.w, g.h, i, y, x)
    ensures Pixel(g, i, y, x) + g.k <= Times(g.k, Times(g.w, g.h))
  {
    PassInside(g.w, g.h, i, y, x);
    hide Times;
    hide Line;
    hide Col;
    CellInside(g.w, g.h, Line(i, y), Col(i, x));
    RowInside(g.k, Times(g.w, Line(i, y)) + Col(i, x), Times(g.w, g.h));
  }

  lemma PixelsApart(g: Grid, i: nat, y: nat, x: nat, i1: nat, y1: nat, x1: nat)
    requires InPass(g.w, g.h, i, y, x) && InPass(g.w, g.h, i1, y1, x1)
    requires (i, y, x) != (i1, y1, x1)
    ensures Pixel(g, i, y, x) + g.k <= Pixel(g, i1, y1, x1) || Pixel(g, i1, y1, x1) + g.k <= Pixel(g, i, y, x)
  {
    PassInside(g.w, g.h, i, y, x);
    PassInside(g.w, g.h, i1, y1, x1);
    hide Times;
    hide Line;
    hide Col;
    hide PassW;
    hide PassH;
    var c, l, c1, l1 := Col(i, x), Line(i, y), Col(i1, x1), Line(i1, y1);
    if c == c1 && l == l1 {
      PlaceUnique(i, y, x, i1, y1, x1);
    } else if l < l1 || (l == l1 && c < c1) {
      CellOrder(g.w, l, c, l1, c1);
      RowInside(g.k, Times(g.w, l) + c, Times(g.w, l1) + c1);
    } else {
      CellOrder(g.w, l1, c1, l, c);
      RowInside(g.k, Times(g.w, l1) + c1, Times(g.w, l) + c);
    }
  }

  // ---- agreement ----

  /** A pixel is the same in the packed passes and in the image. */
  ghost predicate Same<T(!new)>(g: Grid, packed: seq<T>, img: seq<T>, i: nat, y: nat, x: nat)
    requires GridOk(g)
  {
    InPass(g.w, g.h, i, y, x) ==>
      && Slot(g, i, y, x) + g.k <= |packed| && Pixel(g, i, y, x) + g.k <= |img|
      && packed[Slot(g, i, y, x)..Slot(g, i, y, x) + g.k] == img[Pixel(g, i, y, x)..Pixel(g, i, y, x) + g.k]
  }

  ghost predicate SameBefore<T(!new)>(g: Grid, packed: seq<T>, img: seq<T>, i1: nat, y1: nat, x1: nat)
    requires GridOk(g)
  {
    forall i: nat, y: nat, x: nat :: Earlier(i, y, x, i1, y1, x1) ==> Same(g, packed, img, i, y, x)
  }

  /** All pixels of all passes. */
  ghost predicate Interlaced<T(!new)>(g: Grid, packed: seq<T>, img: seq<T>)
    requires GridOk(g)
  {
    forall i: nat, y: nat, x: nat :: Same(g, packed, img, i, y, x)
  }

  lemma SliceKept<T>(before: seq<T>, at: nat, piece: seq<T>, after: seq<T>, from: nat, n: nat)
    requires at + |piece| <= |before| && after == before[..at] + piece + before[at + |piece|..]
    requires from + n <= |before| && (from + n <= at || at + |piece| <= from)
    ensures after[from..from + n] == before[from..from + n]
  {
    var u, v := after[from..from + n], before[from..from + n];
    assert forall k :: 0 <= k < n ==> u[k] == v[k];
  }

  /** Packing one more pixel. */
  lemma PackStep<T(!new)>(g: Grid, packed: seq<T>, img: seq<T>, after: seq<T>, i1: nat, y1: nat, x1: nat)
    requires GridOk(g) && |g.starts| == PASSES + 1 && InPass(g.w, g.h, i1, y1, x1) && SameBefore(g, packed, img, i1, y1, x1)
    requires Slot(g, i1, y1, x1) + g.k <= |packed| && Pixel(g, i1, y1, x1) + g.k <= |img|
    requires var s, p := Slot(g, i1, y1, x1), Pixel(g, i1, y1, x1);
             after == packed[..s] + img[p..p + g.k] + packed[s + g.k..]
    ensures SameBefore(g, after, img, i1, y1, x1 + 1)
  {
    hide GridOk;
    hide PassW;
    hide PassH;
    hide Slot;
    hide Pixel;
    var s, p := Slot(g, i1, y1, x1), Pixel(g, i1, y1, x1);
    forall i: nat, y: nat, x: nat | Earlier(i, y, x, i1, y1, x1 + 1) ensures Same(g, after, img, i, y, x) {
      if InPass(g.w, g.h, i, y, x) {
        if (i, y, x) == (i1, y1, x1) {
          assert after[s..s + g.k] == img[p..p + g.k];
        } else {
          assert Same(g, packed, img, i, y, x);
          SlotsOrdered(g, i, y, x, i1, y1, x1);
          SliceKept(packed, s, img[p..p + g.k], after, Slot(g, i, y, x), g.k);
        }
      }
    }
  }

  /** Unpacking one more pixel. */
  lemma UnpackStep<T(!new)>(g: Grid, packed: seq<T>, img: seq<T>, after: seq<T>, i1: nat, y1: nat, x1: nat)
    requires GridOk(g) && |g.starts| == PASSES + 1 && InPass(g.w, g.h, i1, y1, x1) && SameBefore(g, packed, img, i1, y1, x1)
    requires Slot(g, i1, y1, x1) + g.k <= |packed| && Pixel(g, i1, y1, x1) + g.k <= |img|
    requires var s, p := Slot(g, i1, y1, x1), Pixel(g, i1, y1, x1);
             after == img[..p] + packed[s..s + g.k] + img[p + g.k..]
    ensures SameBefore(g, packed, after, i1, y1, x1 + 1)
  {
    hide GridOk;
    hide PassW;
    hide PassH;
    hide Slot;
    hide Pixel;
    var s, p := Slot(g, i1, y1, x1), Pixel(g, i1, y1, x1);
    forall i: nat, y: nat, x: nat | Earlier(i, y, x, i1, y1, x1 + 1) ensures Same(g, packed, after, i, y, x) {
      if InPass(g.w, g.h, i, y, x) {
        if (i, y, x) == (i1, y1, x1) {
          assert after[p..p + g.k] == packed[s..s + g.k];
        } else {
          assert Same(g, packed, img, i, y, x);
          PixelsApart(g, i, y, x, i1, y1, x1);
          SliceKept(img, p, packed[s..s + g.k], after, Pixel(g, i, y, x), g.k);
        }
      }
    }
  }

  lemma RowDone<T(!new)>(g: Grid, packed: seq<T>, img: seq<T>, i: nat, y: nat, x: nat)
    requires GridOk(g) && i < PASSES && SameBefore(g, packed, img, i, y, x) && x >= PassW(g.w, g.h, i)
    ensures SameBefore(g, packed, img, i, y + 1, 0)
  {
    hide GridOk;
    hide Slot;
    hide Pixel;
    hide PassW;
    hide PassH;
    forall j: nat, b: nat, a: nat | Earlier(j, b, a, i, y + 1, 0) ensures Same(g, packed, img, j, b, a) {
      if InPass(g.w, g.h, j, b, a) { assert Earlier(j, b, a, i, y, x); }
    }
  }

  lemma PassDone<T(!new)>(g: Grid, packed: seq<T>, img: seq<T>, i: nat, y: nat)
    requires GridOk(g) && i < PASSES && SameBefore(g, packed, img, i, y, 0) && y >= PassH(g.w, g.h, i)
    ensures SameBefore(g, packed, img, i + 1, 0, 0)
  {
    hide GridOk;
    hide Slot;
    hide Pixel;
    hide PassW;
    hide PassH;
    forall j: nat, b: nat, a: nat | Earlier(j, b, a, i + 1, 0, 0) ensures Same(g, packed, img, j, b, a) {
      if InPass(g.w, g.h, j, b, a) { assert Earlier(j, b, a, i, y, 0); }
    }
  }

  lemma AllDone<T(!new)>(g: Grid, packed: seq<T>, img: seq<T>)
    requires GridOk(g) && SameBefore(g, packed, img, PASSES, 0, 0)
    ensures Interlaced(g, packed, img)
  {
    hide GridOk;
    hide Slot;
    hide Pixel;
    forall i: nat, y: nat, x: nat ensures Same(g, packed, img, i, y, x) {
      if InPass(g.w, g.h, i, y, x) { assert Earlier(i, y, x, PASSES, 0, 0); }
    }
  }

  lemma NothingDone<T(!new)>(g: Grid, packed: seq<T>, img: seq<T>)
    requires GridOk(g)
    ensures SameBefore(g, packed, img, 0, 0, 0)
  {
    hide GridOk;
    hide Same;
  }

  // ---- what interlacing determines ----

  /** The passes determine every pixel of the image. */
  lemma ImageDetermined<T(!new)>(g: Grid, packed: seq<T>, img: seq<T>, other: seq<T>)
    requires GridOk(g) && Interlaced(g, packed, img) && Interlaced(g, packed, other)
    requires Times(g.k, Times(g.w, g.h)) <= |img| && Times(g.k, Times(g.w, g.h)) <= |other|
    ensures img[..Times(g.k, Times(g.w, g.h))] == other[..Times(g.k, Times(g.w, g.h))]
  {
    var n := Times(g.k, Times(g.w, g.h));
    forall c | 0 <= c < n ensures img[c] == other[c] {
      CellSame(g, packed, img, other, c);
    }
  }

  lemma CellSame<T(!new)>(g: Grid, packed: seq<T>, img: seq<T>, other: seq<T>, c: nat)
    requires GridOk(g) && Interlaced(g, packed, img) && Interlaced(g, packed, other)
    requires c < Times(g.k, Times(g.w, g.h)) <= |img| && Times(g.k, Times(g.w, g.h)) <= |other|
    ensures img[c] == other[c]
  {
    var p, b := SplitTimes(c, g.k, Times(g.w, g.h));
    var line, col := SplitTimes(p, g.w, g.h);
    var i, y, x := PassCovers(g.w, g.h, col, line);
    hide GridOk;
    hide Slot;
    hide InPass;
    hide Times;
    assert Same(g, packed, img, i, y, x) && Same(g, packed, other, i, y, x);
    var at := Pixel(g, i, y, x);
    assert c == at + b;
    assert img[c] == img[at..at + g.k][b] && other[c] == other[at..at + g.k][b];
  }

  lemma {:induction false} SplitTimes(c: nat, k: nat, n: nat) returns (q: nat, b: nat)
    requires c < Times(k, n)
    ensures q < n && b < k && c == Times(k, q) + b
  {
    NextRow(k, n - 1);
    if c >= Times(k, n - 1) {
      q, b := n - 1, c - Times(k, n - 1);
    } else {
      q, b := SplitTimes(c, k, n - 1);
    }
  }
}
