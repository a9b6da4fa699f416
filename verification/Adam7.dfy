/** The geometry of Adam7 interlacing (PNG specification, section 8.2): seven reduced images. */
module Adam7 {

  const PASSES := 7
  /** Where each pass starts, and its steps, as tables. */
  function StartX(i: nat): (r: nat)
    requires i < PASSES
    ensures r < 8
  {
    if i == 0 then 0 else if i == 1 then 4 else if i == 2 then 0 else if i == 3 then 2 else if i == 4 then 0 else if i == 5 then 1 else 0
  }

  function StartY(i: nat): (r: nat)
    requires i < PASSES
    ensures r < 8
  {
    if i == 0 then 0 else if i == 1 then 0 else if i == 2 then 4 else if i == 3 then 0 else if i == 4 then 2 else if i == 5 then 0 else 1
  }

  function StepX(i: nat): (r: nat)
    requires i < PASSES
    ensures r > 0
  {
    if i == 0 then 8 else if i == 1 then 8 else if i == 2 then 4 else if i == 3 then 4 else if i == 4 then 2 else if i == 5 then 2 else 1
  }

  function StepY(i: nat): (r: nat)
    requires i < PASSES
    ensures r > 0
  {
    if i == 0 then 8 else if i == 1 then 8 else if i == 2 then 8 else if i == 3 then 4 else if i == 4 then 4 else if i == 5 then 2 else 2
  }

  // ---- which pixels a pass has ----

  function RawW(w: nat, i: nat): nat
    requires i < PASSES
  {
    (w + StepX(i) - StartX(i) - 1) / StepX(i)
  }

  function RawH(h: nat, i: nat): nat
    requires i < PASSES
  {
    (h + StepY(i) - StartY(i) - 1) / StepY(i)
  }

  /** A pass without rows has no columns either, and the other way round. */
  function PassW(w: nat, h: nat, i: nat): nat
    requires i < PASSES
  {
    if RawH(h, i) == 0 then 0 else RawW(w, i)
  }

  function PassH(w: nat, h: nat, i: nat): nat
    requires i < PASSES
  {
    if RawW(w, i) == 0 then 0 else RawH(h, i)
  }

  function Col(i: nat, x: nat): nat
    requires i < PASSES
  {
    StartX(i) + x * StepX(i)
  }

  function Line(i: nat, y: nat): nat
    requires i < PASSES
  {
    StartY(i) + y * StepY(i)
  }

  /** Pixel (x, y) of pass i exists. */
  predicate InPass(w: nat, h: nat, i: nat, y: nat, x: nat)
  {
    i < PASSES && y < PassH(w, h, i) && x < PassW(w, h, i)
  }

  /** The pass an image pixel belongs to. */
  function PassOf(col: nat, line: nat): (i: nat)
    ensures i < PASSES
  {
    if line % 2 == 1 then 6
    else if col % 2 == 1 then 5
    else if line % 4 == 2 then 4
    else if col % 4 == 2 then 3
    else if line % 8 == 4 then 2
    else if col % 8 == 4 then 1
    else 0
  }

  /** The pattern of section 8.2: which of the seven passes each pixel of an 8 by 8 square belongs to. */
  lemma PassPattern(col: nat, line: nat)
    ensures PassOf(col, line) + 1 ==
            [[1, 6, 4, 6, 2, 6, 4, 6],
             [7, 7, 7, 7, 7, 7, 7, 7],
             [5, 6, 5, 6, 5, 6, 5, 6],
             [7, 7, 7, 7, 7, 7, 7, 7],
             [3, 6, 4, 6, 3, 6, 4, 6],
             [7, 7, 7, 7, 7, 7, 7, 7],
             [5, 6, 5, 6, 5, 6, 5, 6],
             [7, 7, 7, 7, 7, 7, 7, 7]][line % 8][col % 8]
  {
    Mod8(col);
    Mod8(line);
    PassSquare(col % 8, line % 8);
  }

  lemma PassSquare(x: nat, y: nat)
    requires x < 8 && y < 8
    ensures PassOf(x, y) + 1 ==
            [[1, 6, 4, 6, 2, 6, 4, 6],
             [7, 7, 7, 7, 7, 7, 7, 7],
             [5, 6, 5, 6, 5, 6, 5, 6],
             [7, 7, 7, 7, 7, 7, 7, 7],
             [3, 6, 4, 6, 3, 6, 4, 6],
             [7, 7, 7, 7, 7, 7, 7, 7],
             [5, 6, 5, 6, 5, 6, 5, 6],
             [7, 7, 7, 7, 7, 7, 7, 7]][y][x]
  {
  }

  lemma {:induction false} CeilDiv(n: nat, start: nat, delta: nat, k: nat)
    requires start < delta
    ensures k < (n + delta - start - 1) / delta <==> start + k * delta < n
  {
    var q := (n + delta - start - 1) / delta;
    assert q * delta <= n + delta - start - 1 < q * delta + delta;
    if k < q {
      MulLe(k + 1, q, delta);
    } else {
      MulLe(q, k, delta);
    }
  }

  lemma MulLe(a: nat, b: nat, c: nat)
    requires a <= b
    ensures a * c <= b * c && (a + 1) * c == a * c + c
  {
  }

  /** A pass pixel is a pixel of the image. */
  lemma PassInside(w: nat, h: nat, i: nat, y: nat, x: nat)
    requires i < PASSES
    ensures InPass(w, h, i, y, x) <==> Col(i, x) < w && Line(i, y) < h
  {
    CeilDiv(w, StartX(i), StepX(i), x);
    CeilDiv(h, StartY(i), StepY(i), y);
  }

  /** Every image pixel is in the pass PassOf says, */
  lemma PassCovers(w: nat, h: nat, col: nat, line: nat) returns (i: nat, y: nat, x: nat)
    requires col < w && line < h
    ensures i == PassOf(col, line) && InPass(w, h, i, y, x) && Col(i, x) == col && Line(i, y) == line
  {
    i := PassOf(col, line);
    x := (col - StartX(i)) / StepX(i);
    y := (line - StartY(i)) / StepY(i);
    InCase(col, line, i, y, x);
    PassInside(w, h, i, y, x);
  }

  lemma ModDiv(n: nat, r: nat, d: nat)
    requires d > 0 && n % d == r
    ensures n >= r && r + (n - r) / d * d == n
  {
    var q := n / d;
    assert n == q * d + r;
    DivExact(q, d);
  }

  lemma DivExact(q: nat, d: nat)
    requires d > 0
    ensures q * d / d == q
  {
    DivBetween(q * d, q, d);
  }

  lemma Mod8(n: nat)
    ensures n % 2 == n % 8 % 2 && n % 4 == n % 8 % 4 && n % 1 == 0
  {
  }

  lemma PassResidues(col: nat, line: nat)
    ensures var i := PassOf(col, line); col % StepX(i) == StartX(i) && line % StepY(i) == StartY(i)
  {
    Mod8(col);
    Mod8(line);
    var i := PassOf(col, line);
    if i == 0 { assert col % 8 == 0 && line % 8 == 0; }
    else if i == 1 { assert col % 8 == 4 && line % 8 == 0; }
    else if i == 2 { assert col % 4 == 0 && line % 8 == 4; }
    else if i == 3 { assert col % 4 == 2 && line % 4 == 0; }
    else if i == 4 { assert col % 2 == 0 && line % 4 == 2; }
    else if i == 5 { assert col % 2 == 1 && line % 2 == 0; }
    else { assert col % 1 == 0 && line % 2 == 1; }
  }

  lemma InCase(col: nat, line: nat, i: nat, y: int, x: int)
    requires i == PassOf(col, line)
    requires x == (col - StartX(i)) / StepX(i) && y == (line - StartY(i)) / StepY(i)
    ensures x >= 0 && y >= 0 && Col(i, x) == col && Line(i, y) == line
  {
    hide PassOf;
    hide StartX;
    hide StartY;
    hide StepX;
    hide StepY;
    PassResidues(col, line);
    ModDiv(col, StartX(i), StepX(i));
    ModDiv(line, StartY(i), StepY(i));
  }

  /** and in no other, at no other place. */
  lemma PassUnique(i: nat, y: nat, x: nat)
    requires i < PASSES
    ensures PassOf(Col(i, x), Line(i, y)) == i
  {
    StartInside(i);
    hide StartX;
    hide StartY;
    hide StepX;
    hide StepY;
    DivBetween(Col(i, x), x, StepX(i));
    DivBetween(Line(i, y), y, StepY(i));
    FromResidues(Col(i, x), Line(i, y), i);
  }

  lemma FromResidues(col: nat, line: nat, i: nat)
    requires i < PASSES && col % StepX(i) == StartX(i) && line % StepY(i) == StartY(i)
    ensures PassOf(col, line) == i
  {
    Mod8(col);
    Mod8(line);
    if i == 0 { assert col % 8 == 0 && line % 8 == 0; }
    else if i == 1 { assert col % 8 == 4 && line % 8 == 0; }
    else if i == 2 { assert col % 4 == 0 && line % 8 == 4; }
    else if i == 3 { assert col % 4 == 2 && line % 4 == 0; }
    else if i == 4 { assert col % 2 == 0 && line % 4 == 2; }
    else if i == 5 { assert col % 2 == 1 && line % 2 == 0; }
    else { assert line % 2 == 1; }
  }

  lemma PlaceUnique(i: nat, y: nat, x: nat, j: nat, y1: nat, x1: nat)
    requires i < PASSES && j < PASSES && Col(i, x) == Col(j, x1) && Line(i, y) == Line(j, y1)
    ensures i == j && y == y1 && x == x1
  {
    PassUnique(i, y, x);
    PassUnique(j, y1, x1);
    hide PassOf;
    hide StartX;
    hide StartY;
    hide StepX;
    hide StepY;
    MulInjective(x, x1, StepX(i));
    MulInjective(y, y1, StepY(i));
  }

  lemma MulInjective(a: nat, b: nat, d: nat)
    requires d > 0 && a * d == b * d
    ensures a == b
  {
    if a < b { MulLe(a + 1, b, d); MulLe(a, a, d); } else if b < a { MulLe(b + 1, a, d); MulLe(b, b, d); }
  }

  // ---- areas ----

  function AreaUpTo(w: nat, h: nat, i: nat): nat
    requires i <= PASSES
  {
    if i == 0 then 0 else AreaUpTo(w, h, i - 1) + PassW(w, h, i - 1) * PassH(w, h, i - 1)
  }

  lemma CeilIs(n: nat, start: nat, delta: nat)
    requires start < delta
    ensures (n + delta - start - 1) / delta == n / delta + if n % delta > start then 1 else 0
  {
    var q, r := n / delta, n % delta;
    assert n == q * delta + r;
    MulLe(q, q, delta);
    if r > start {
      DivBetween(n + delta - start - 1, q + 1, delta);
    } else {
      DivBetween(n + delta - start - 1, q, delta);
    }
  }

  lemma DivBetween(n: nat, q: nat, d: nat)
    requires d > 0 && q * d <= n < q * d + d
    ensures n / d == q && n % d == n - q * d
  {
    var k := n / d;
    assert n == k * d + n % d;
    if k < q { MulLe(k + 1, q, d); MulLe(k, k, d); } else if k > q { MulLe(q + 1, k, d); MulLe(q, q, d); }
  }

  lemma DivNext(n: nat, d: nat)
    requires d > 0
    ensures if n % d == d - 1 then (n + 1) / d == n / d + 1 && (n + 1) % d == 0
            else (n + 1) / d == n / d && (n + 1) % d == n % d + 1
  {
    var q := n / d;
    assert n == q * d + n % d;
    MulLe(q, q, d);
    if n % d == d - 1 { DivBetween(n + 1, q + 1, d); } else { DivBetween(n + 1, q, d); }
  }

  lemma Widths(w: nat)
    ensures var a, r := w / 8, w % 8;
            && RawW(w, 0) == a + (if r > 0 then 1 else 0)
            && RawW(w, 1) == a + (if r > 4 then 1 else 0)
            && RawW(w, 2) == 2 * a + (if r > 0 then 1 else 0) + (if r > 4 then 1 else 0)
            && RawW(w, 3) == 2 * a + (if r > 2 then 1 else 0) + (if r > 6 then 1 else 0)
            && RawW(w, 4) == 4 * a + (r + 1) / 2
            && RawW(w, 5) == 4 * a + r / 2
            && RawW(w, 6) == w
  {
  }

  /** The pixels of the passes in line number h: all w of them. */
  lemma LineShare(w: nat, h: nat)
    ensures (if h % 8 == 0 then RawW(w, 0) + RawW(w, 1) else 0)
          + (if h % 8 == 4 then RawW(w, 2) else 0)
          + (if h % 4 == 0 then RawW(w, 3) else 0)
          + (if h % 4 == 2 then RawW(w, 4) else 0)
          + (if h % 2 == 0 then RawW(w, 5) else RawW(w, 6)) == w
  {
    Widths(w);
    hide RawW;
    Mod8(h);
    var a, r := w / 8, w % 8;
    assert w == 8 * a + r;
    assert RawW(w, 2) + RawW(w, 3) == RawW(w, 4) == w - RawW(w, 5);
    assert RawW(w, 0) + RawW(w, 1) == RawW(w, 2);
  }

  lemma NextLine(h: nat, i: nat)
    requires i < PASSES
    ensures RawH(h + 1, i) == RawH(h, i) + if h % StepY(i) == StartY(i) then 1 else 0
  {
    StartInside(i);
    hide StartY;
    hide StepY;
    CeilIs(h, StartY(i), StepY(i));
    CeilIs(h + 1, StartY(i), StepY(i));
    DivNext(h, StepY(i));
  }

  lemma StartInside(i: nat)
    requires i < PASSES
    ensures StartX(i) < StepX(i) && StartY(i) < StepY(i)
  {
  }

  lemma AreaNext(w: nat, h: nat, i: nat)
    requires i < PASSES
    ensures PassW(w, h + 1, i) * PassH(w, h + 1, i)
         == PassW(w, h, i) * PassH(w, h, i) + if h % StepY(i) == StartY(i) then RawW(w, i) else 0
  {
    hide StartY;
    hide StepY;
    hide RawW;
    hide RawH;
    hide PassW;
    hide PassH;
    NextLine(h, i);
    AreaRaw(w, h, i);
    AreaRaw(w, h + 1, i);
    var a, b := RawW(w, i), RawH(h, i);
    assert a * (b + 1) == a * b + a;
  }

  lemma AreaRaw(w: nat, h: nat, i: nat)
    requires i < PASSES
    ensures PassW(w, h, i) * PassH(w, h, i) == RawW(w, i) * RawH(h, i)
  {
    hide RawW;
    hide RawH;
    if RawW(w, i) == 0 || RawH(h, i) == 0 {
      assert RawW(w, i) * RawH(h, i) == 0;
    }
  }

  /** The areas of the passes add up to the area of the image. */
  lemma {:induction false} AreasSum(w: nat, h: nat)
    ensures AreaUpTo(w, h, PASSES) == w * h
  {
    hide RawW;
    hide RawH;
    hide PassW;
    hide PassH;
    if h == 0 {
      NoLines(w);
    } else {
      AreasSum(w, h - 1);
      assert w * h == w * (h - 1) + w;
      AreaNext(w, h - 1, 0);
      AreaNext(w, h - 1, 1);
      AreaNext(w, h - 1, 2);
      AreaNext(w, h - 1, 3);
      AreaNext(w, h - 1, 4);
      AreaNext(w, h - 1, 5);
      AreaNext(w, h - 1, 6);
      LineShare(w, h - 1);
      AreaUnfold(w, h);
      AreaUnfold(w, h - 1);
      hide AreaUpTo;
    }
  }

  lemma AreaUnfold(w: nat, h: nat)
    ensures AreaUpTo(w, h, PASSES)
         == PassW(w, h, 0) * PassH(w, h, 0) + PassW(w, h, 1) * PassH(w, h, 1) + PassW(w, h, 2) * PassH(w, h, 2)
          + PassW(w, h, 3) * PassH(w, h, 3) + PassW(w, h, 4) * PassH(w, h, 4) + PassW(w, h, 5) * PassH(w, h, 5)
          + PassW(w, h, 6) * PassH(w, h, 6)
  {
    hide PassW;
    hide PassH;
    assert AreaUpTo(w, h, 1) == AreaUpTo(w, h, 0) + PassW(w, h, 0) * PassH(w, h, 0);
    assert AreaUpTo(w, h, 2) == AreaUpTo(w, h, 1) + PassW(w, h, 1) * PassH(w, h, 1);
    assert AreaUpTo(w, h, 3) == AreaUpTo(w, h, 2) + PassW(w, h, 2) * PassH(w, h, 2);
    assert AreaUpTo(w, h, 4) == AreaUpTo(w, h, 3) + PassW(w, h, 3) * PassH(w, h, 3);
    assert AreaUpTo(w, h, 5) == AreaUpTo(w, h, 4) + PassW(w, h, 4) * PassH(w, h, 4);
    assert AreaUpTo(w, h, 6) == AreaUpTo(w, h, 5) + PassW(w, h, 5) * PassH(w, h, 5);
  }

  lemma NoLines(w: nat)
    ensures AreaUpTo(w, 0, PASSES) == 0
  {
    hide PassW;
    hide PassH;
    AreaUnfold(w, 0);
    NoLine(w, 0);
    NoLine(w, 1);
    NoLine(w, 2);
    NoLine(w, 3);
    NoLine(w, 4);
    NoLine(w, 5);
    NoLine(w, 6);
    hide AreaUpTo;
  }

  lemma NoLine(w: nat, i: nat)
    requires i < PASSES
    ensures PassW(w, 0, i) * PassH(w, 0, i) == 0
  {
    StartInside(i);
    hide StartY;
    hide StepY;
    CeilIs(0, StartY(i), StepY(i));
    assert RawH(0, i) == 0;
  }
}
