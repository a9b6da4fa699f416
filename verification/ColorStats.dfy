/** Statistics of an image of up to 8 bits a channel: which colours, greys and transparency it has. */
module ColorStats {
  import opened Bits
  import opened ColorTree
  import opened ColorModes
  import opened PackedPixels

  const MAX_COLORS := 257

  // ---- what the statistics are about ----

  predicate IsGrey(c: Color)
  {
    c.r == c.g && c.r == c.b
  }

  predicate SameRgb(c: Color, d: Color)
  {
    c.r == d.r && c.g == d.g && c.b == d.b
  }

  /** The fewest bits of grey that hold a value. */
  function RequiredBits(v: Byte): (r: nat)
    ensures r == 1 || r == 2 || r == 4 || r == 8
  {
    if v == 0 || v == 255 then 1
    else if v % 17 == 0 then if v % 85 == 0 then 2 else 4
    else 8
  }

  function MaxBits(colors: seq<Color>): (r: nat)
    ensures r == 1 || r == 2 || r == 4 || r == 8
  {
    if colors == [] then 1 else Max(MaxBits(colors[..|colors| - 1]), RequiredBits(colors[|colors| - 1].r))
  }

  ghost predicate Colorful(colors: seq<Color>)
  {
    exists i :: 0 <= i < |colors| && !IsGrey(colors[i])
  }

  /** Transparency that one transparent colour cannot give: a translucent pixel,
    two transparent colours, or a transparent colour that is opaque elsewhere. */
  ghost predicate NeedsAlpha(colors: seq<Color>)
  {
    || (exists i :: 0 <= i < |colors| && 0 < colors[i].a < 255)
    || (exists i, j :: 0 <= i < |colors| && 0 <= j < |colors| && colors[i].a == 0 && colors[j].a == 0
                       && !SameRgb(colors[i], colors[j]))
    || (exists i, j :: 0 <= i < |colors| && 0 <= j < |colors| && colors[i].a == 0 && colors[j].a == 255
                       && SameRgb(colors[i], colors[j]))
  }

  ghost predicate Clear(colors: seq<Color>)
  {
    exists i :: 0 <= i < |colors| && colors[i].a == 0
  }

  ghost function Hues(colors: seq<Color>): set<Color>
  {
    set c | c in colors
  }

  predicate NoTwins(colors: seq<Color>)
  {
    forall i, j :: 0 <= i < j < |colors| ==> colors[i] != colors[j]
  }

  lemma {:induction false} MaxBitsHas(colors: seq<Color>, i: nat)
    requires i < |colors|
    ensures RequiredBits(colors[i].r) <= MaxBits(colors)
  {
    if i < |colors| - 1 {
      MaxBitsHas(colors[..|colors| - 1], i);
      assert colors[..|colors| - 1][i] == colors[i];
    }
  }

  /** The bits counted when counting stops at the first colour that brings them to d.
    With d at most the depth of an index this may miss what later colours need. */
  function Counted(colors: seq<Color>, d: nat): (r: nat)
    ensures r == 1 || r == 2 || r == 4 || r == 8
  {
    if colors == [] then 1
    else
      var b := Counted(colors[..|colors| - 1], d);
      if b >= d then b else Max(b, RequiredBits(colors[|colors| - 1].r))
  }

  lemma CountedNext(colors: seq<Color>, c: Color, d: nat)
    ensures Counted(colors + [c], d) ==
            if Counted(colors, d) >= d then Counted(colors, d) else Max(Counted(colors, d), RequiredBits(c.r))
  {
    assert (colors + [c])[..|colors|] == colors;
  }

  /** Nothing is missed before counting stops. */
  lemma {:induction false} CountedBelow(colors: seq<Color>, d: nat)
    ensures Counted(colors, d) <= MaxBits(colors)
    ensures Counted(colors, d) < d ==> Counted(colors, d) == MaxBits(colors)
  {
    if colors != [] { CountedBelow(colors[..|colors| - 1], d); }
  }

  /** Once it has stopped, counting stays where it is. */
  lemma {:induction false} CountedStays(colors: seq<Color>, i: nat, d: nat)
    requires i <= |colors| && Counted(colors[..i], d) >= d
    ensures Counted(colors, d) == Counted(colors[..i], d)
  {
    if i == |colors| {
      assert colors[..i] == colors;
    } else {
      assert colors[..|colors| - 1][..i] == colors[..i];
      CountedStays(colors[..|colors| - 1], i, d);
    }
  }

  /** For indices of 1 bit nothing is counted. */
  lemma CountedOne(colors: seq<Color>)
    ensures Counted(colors, 1) == 1
  {
    assert colors[..0] == [];
    CountedStays(colors, 0, 1);
  }

  /** Otherwise it is the need of the first colour that needs at least d bits. */
  lemma CountedFirst(colors: seq<Color>, i: nat, d: nat)
    requires d > 1 && i < |colors| && RequiredBits(colors[i].r) >= d
    requires forall k :: 0 <= k < i ==> RequiredBits(colors[k].r) < d
    ensures Counted(colors, d) == RequiredBits(colors[i].r)
  {
    CountedBelow(colors[..i], d);
    MaxBelow(colors[..i], d);
    assert colors[..i + 1] == colors[..i] + [colors[i]];
    CountedNext(colors[..i], colors[i], d);
    CountedStays(colors, i + 1, d);
  }

  lemma {:induction false} MaxBelow(colors: seq<Color>, d: nat)
    requires d > 1 && forall k :: 0 <= k < |colors| ==> RequiredBits(colors[k].r) < d
    ensures MaxBits(colors) < d
  {
    if colors != [] { MaxBelow(colors[..|colors| - 1], d); }
  }

  /** Nothing is missed where no colour needs more than d bits. */
  lemma {:induction false} CountedAll(colors: seq<Color>, d: nat)
    requires forall k :: 0 <= k < |colors| ==> RequiredBits(colors[k].r) <= d
    ensures d >= 1 ==> Counted(colors, d) == MaxBits(colors)
  {
    if colors != [] { CountedAll(colors[..|colors| - 1], d); }
  }

  /** A list without twins has as many members as colours. */
  lemma {:induction false} CountNoTwins(colors: seq<Color>)
    requires NoTwins(colors)
    ensures |Hues(colors)| == |colors|
  {
    if colors == [] {
      assert Hues(colors) == {};
    } else {
      var n := |colors| - 1;
      CountNoTwins(colors[..n]);
      assert Hues(colors) == Hues(colors[..n]) + {colors[n]};
      assert colors[n] !in Hues(colors[..n]);
    }
  }

  lemma FewerHues(a: seq<Color>, b: seq<Color>)
    requires forall c :: c in a ==> c in b
    ensures |Hues(a)| <= |Hues(b)|
  {
    SubsetSize(Hues(a), Hues(b));
  }

  lemma {:induction false} SubsetSize(a: set<Color>, b: set<Color>)
    requires a <= b
    ensures |a| <= |b|
  {
    if a != {} {
      var c :| c in a;
      SubsetSize(a - {c}, b - {c});
    }
  }

  /** As many colours among no others are all of them. */
  lemma SameHues(a: seq<Color>, b: seq<Color>)
    requires (forall c :: c in a ==> c in b) && |Hues(a)| >= |Hues(b)|
    ensures forall c :: c in b ==> c in a
  {
    forall c | c in b ensures c in a {
      if c !in a {
        assert Hues(a) <= Hues(b) - {c};
        SubsetSize(Hues(a), Hues(b) - {c});
      }
    }
  }

  lemma {:induction false} HuesAtMost(colors: seq<Color>)
    ensures |Hues(colors)| <= |colors|
  {
    if colors == [] {
      assert Hues(colors) == {};
    } else {
      var n := |colors| - 1;
      HuesAtMost(colors[..n]);
      assert Hues(colors) == Hues(colors[..n]) + {colors[n]};
    }
  }

  // ---- what a mode says about its pixels ----

  ghost function Pixels(data: seq<Byte>, n: nat, m: Mode): (r: seq<Color>)
    requires ValidMode(m) && Holds(|data|, n, m)
    ensures |r| == n && forall i: nat :: i < n ==> r[i] == PixelAt(data, i, m)
  {
    assert forall i: nat :: i < n ==> HasPixel(|data|, i, m);
    seq(n, i requires 0 <= i < n => PixelAt(data, i, m))
  }

  /** What a mode cannot have. */
  lemma PixelLimits(data: seq<Byte>, i: nat, m: Mode)
    requires ValidMode(m) && HasPixel(|data|, i, m)
    ensures m.colortype == Grey || m.colortype == GreyAlpha ==> IsGrey(PixelAt(data, i, m))
    ensures !CanHaveAlpha(m) ==> PixelAt(data, i, m).a == 255
  {
    hide Packed;
  }

  /** A pixel of one sample has one of the colours of its values. */
  lemma NarrowColor(data: seq<Byte>, i: nat, m: Mode)
    requires ValidMode(m) && HasPixel(|data|, i, m) && Narrow(m)
    ensures PixelAt(data, i, m) in ColorsOf(m)
  {
    hide Packed;
    Pow2Small();
    var v := SingleSample(data, i, m);
    assert ColorsOf(m)[v] == Meaning(m, [v]);
  }

  /** The colours of all values of a sample. */
  function ColorsOf(m: Mode): (r: seq<Color>)
    requires ValidMode(m) && Narrow(m)
    ensures |r| == Highest(m.bitdepth) + 1
  {
    seq(Highest(m.bitdepth) + 1, v requires 0 <= v <= Highest(m.bitdepth) => Meaning(m, [v]))
  }

  lemma FewColors(data: seq<Byte>, n: nat, m: Mode)
    requires ValidMode(m) && Holds(|data|, n, m) && Narrow(m)
    ensures |Hues(Pixels(data, n, m))| <= Highest(m.bitdepth) + 1
  {
    hide PixelAt;
    hide ColorsOf;
    forall c | c in Pixels(data, n, m) ensures c in ColorsOf(m) {
      var i :| 0 <= i < n && Pixels(data, n, m)[i] == c;
      assert HasPixel(|data|, i, m);
      NarrowColor(data, i, m);
    }
    FewerHues(Pixels(data, n, m), ColorsOf(m));
    HuesAtMost(ColorsOf(m));
  }

  /** How many colours are worth looking for. */
  function Limit(m: Mode): (r: nat)
    requires ValidMode(m)
    ensures 0 < r <= MAX_COLORS && (r < MAX_COLORS ==> Narrow(m) && r == Highest(m.bitdepth) + 1)
  {
    if Bpp(m) <= 8 then Min(MAX_COLORS, Highest(Bpp(m)) + 1) else MAX_COLORS
  }

  // ---- collecting them ----

  class Stats {
    var colored: bool
    var key: bool
    var keyR: nat
    var keyG: nat
    var keyB: nat
    var alpha: bool
    var numcolors: nat
    /** The first 256 colours. */
    var palette: seq<Color>
    var bits: nat
    var numpixels: nat
    var allowPalette: bool
    var allowGreyscale: bool

    constructor ()
      ensures Fresh() && allowPalette && allowGreyscale
    {
      colored, key, keyR, keyG, keyB, alpha := false, false, 0, 0, 0, false;
      numcolors, palette, bits, numpixels := 0, [], 1, 0;
      allowPalette, allowGreyscale := true, true;
    }

    predicate Fresh()
      reads this
    {
      !colored && !key && keyR == keyG == keyB == 0 && !alpha && numcolors == 0 && palette == [] && bits == 1 && numpixels == 0
    }

    predicate MatchesKey(c: Color)
      reads this
    {
      c.r == keyR && c.g == keyG && c.b == keyB
    }

    /** What is known of transparency after some of the pixels: a clash with an earlier opaque pixel may be overlooked. */
    ghost predicate AlphaSoFar(colors: seq<Color>)
      reads this
    {
      && !(alpha && key)
      && (alpha ==> NeedsAlpha(colors))
      && (!alpha ==>
            && (key <==> Clear(colors))
            && (forall i :: 0 <= i < |colors| ==> colors[i].a == 0 || colors[i].a == 255)
            && (key ==> forall i :: 0 <= i < |colors| && colors[i].a == 0 ==> MatchesKey(colors[i])))
    }

    /** What is known of the number of colours, given those found; at most max are looked for. */
    ghost predicate ColorsSoFar(colors: seq<Color>, found: seq<Color>, max: nat)
      reads this
    {
      && |found| == numcolors <= max && NoTwins(found)
      && palette == found[..Min(256, |found|)]
      && (forall c :: c in found ==> c in colors)
      && (numcolors < max ==> forall c :: c in colors ==> c in found)
    }

    method NoteAlpha(c: Color, done: bool, ghost colors: seq<Color>) returns (now: bool)
      requires done == alpha || (done && c.a == 255)
      requires AlphaSoFar(colors) && bits <= 8
      modifies this`alpha, this`key, this`keyR, this`keyG, this`keyB, this`bits
      ensures now == (alpha || done) && AlphaSoFar(colors + [c])
      ensures old(alpha) ==> alpha
      ensures bits == if alpha && !old(alpha) then 8 else old(bits)
    {
      now := done;
      ghost var all := colors + [c];
      assert forall i :: 0 <= i < |colors| ==> all[i] == colors[i];
      assert all[|colors|] == c;
      if !done {
        var matchkey := MatchesKey(c);
        if c.a != 255 && (c.a != 0 || (key && !matchkey)) {
          alpha, key, now := true, false, true;
          if bits < 8 { bits := 8; }
        } else if c.a == 0 && !alpha && !key {
          key, keyR, keyG, keyB := true, c.r, c.g, c.b;
        } else if c.a == 255 && key && matchkey {
          alpha, key, now := true, false, true;
          if bits < 8 { bits := 8; }
        }
      }
    }

    /** Greys and depths so far, for pixels of d bits. */
    ghost predicate GreySoFar(colors: seq<Color>, d: nat)
      reads this
    {
      && (colored <==> Colorful(colors))
      && bits == if colored || alpha then 8 else Counted(colors, d)
    }

    /** Counting bits has stopped once they reach the pixel's size. */
    ghost predicate BitsDone(done: bool, d: nat)
      reads this
    {
      (done ==> bits >= d) && (!colored && !alpha ==> done == (bits >= d))
    }

    method NoteGrey(c: Color, bitsDone: bool, done: bool, bpp: nat, ghost colors: seq<Color>) returns (now: bool, bitsNow: bool)
      requires done == colored || (done && IsGrey(c))
      requires BitsDone(bitsDone, bpp) && GreySoFar(colors, bpp)
      modifies this`colored, this`bits
      ensures now == (colored || done) && GreySoFar(colors + [c], bpp) && BitsDone(bitsNow, bpp)
      ensures old(colored) ==> colored
    {
      now := done;
      ghost var all := colors + [c];
      assert forall i :: 0 <= i < |colors| ==> all[i] == colors[i];
      assert all[|colors|] == c;
      CountedNext(colors, c, bpp);
      if !bitsDone && bits < 8 {
        var required := RequiredBits(c.r);
        if required > bits { bits := required; }
      }
      bitsNow := bits >= bpp;
      if !done && !IsGrey(c) {
        colored, now := true, true;
        if bits < 8 { bits := 8; }
      }
    }

    /** The tree knows the colours found, by their numbers. */
    ghost predicate Known(tree: Tree, found: seq<Color>)
      requires tree.Valid()
      reads tree
    {
      forall c :: tree.IndexOf(c) >= 0 <==> c in found
    }

    method NoteColor(c: Color, tree: Tree, max: nat, ghost colors: seq<Color>, ghost found: seq<Color>)
      returns (done: bool, ghost now: seq<Color>)
      requires tree.Valid() && Known(tree, found) && ColorsSoFar(colors, found, max) && numcolors < max
      modifies this`numcolors, this`palette, tree
      ensures tree.Valid() && Known(tree, now) && ColorsSoFar(colors + [c], now, max)
      ensures done == (numcolors >= max)
    {
      now := found;
      var index := tree.Get(c);
      if index < 0 {
        tree.Add(c, numcolors);
        if numcolors < 256 { palette := palette + [c]; }
        now := found + [c];
        numcolors := numcolors + 1;
      }
      done := numcolors >= max;
    }

    /** A pixel like the one before it changes nothing. */
    lemma Repeated(c: Color, colors: seq<Color>, found: seq<Color>, d: nat, max: nat)
      requires colors != [] && c == colors[|colors| - 1]
      requires AlphaSoFar(colors) && GreySoFar(colors, d) && (allowPalette ==> ColorsSoFar(colors, found, max))
      ensures AlphaSoFar(colors + [c]) && GreySoFar(colors + [c], d)
      ensures allowPalette ==> ColorsSoFar(colors + [c], found, max)
    {
      var all := colors + [c];
      assert forall i :: 0 <= i < |colors| ==> all[i] == colors[i];
      assert all[|colors|] == colors[|colors| - 1];
      CountedNext(colors, c, d);
      CountedBelow(colors, d);
      MaxBitsHas(colors, |colors| - 1);
    }

    /** What the finished statistics say of an image of pixels of d bits. The key is doubled to 16 bits. */
    ghost predicate Describes(colors: seq<Color>, d: nat)
      reads this
    {
      && (colored <==> Colorful(colors))
      && (alpha <==> NeedsAlpha(colors))
      && (key <==> !NeedsAlpha(colors) && Clear(colors))
      && (key ==> forall i :: 0 <= i < |colors| && colors[i].a == 0 ==>
                                keyR == 257 * colors[i].r && keyG == 257 * colors[i].g && keyB == 257 * colors[i].b)
      && bits == (if colored || alpha then 8 else Counted(colors, d))
      && numpixels == |colors|
      && numcolors == (if allowPalette then Min(MAX_COLORS, |Hues(colors)|) else 0)
      && |palette| == Min(256, numcolors) && NoTwins(palette)
      && (0 < numcolors <= 256 ==> forall c :: c in palette <==> c in colors)
    }

    /** What the loop over the pixels knows after some of them. */
    ghost predicate SoFar(colors: seq<Color>, tree: Tree, found: seq<Color>, d: nat, max: nat)
      requires tree.Valid()
      reads this, tree
    {
      && AlphaSoFar(colors) && GreySoFar(colors, d)
      && (allowPalette ==> ColorsSoFar(colors, found, max) && Known(tree, found))
      && (!allowPalette ==> numcolors == 0 && palette == [])
    }

    /** One pixel unlike the one before it. The flags are set where no more can be found out. */
    method NotePixel(c: Color, tree: Tree, bpp: nat, max: nat, bitsDone: bool, coloredDone: bool, alphaDone: bool,
                     numcolorsDone: bool, ghost colors: seq<Color>, ghost found: seq<Color>)
      returns (bits2: bool, colored2: bool, alpha2: bool, numcolors2: bool, ghost now: seq<Color>)
      requires tree.Valid() && SoFar(colors, tree, found, bpp, max) && BitsDone(bitsDone, bpp)
      requires coloredDone == colored || (coloredDone && IsGrey(c))
      requires alphaDone == alpha || (alphaDone && c.a == 255)
      requires numcolorsDone == (!allowPalette || numcolors >= max)
      modifies this`colored, this`alpha, this`key, this`keyR, this`keyG, this`keyB, this`bits, this`numcolors, this`palette, tree
      ensures tree.Valid() && SoFar(colors + [c], tree, now, bpp, max) && BitsDone(bits2, bpp)
      ensures colored2 == (colored || coloredDone) && alpha2 == (alpha || alphaDone)
      ensures (old(colored) ==> colored) && (old(alpha) ==> alpha)
      ensures numcolors2 == (!allowPalette || numcolors >= max)
    {
      hide Tree.Valid;
      hide Tree.IndexOf;
      hide NeedsAlpha;
      hide Colorful;
      hide Clear;
      hide Counted;
      colored2, bits2 := NoteGrey(c, bitsDone, coloredDone, bpp, colors);
      alpha2 := NoteAlpha(c, alphaDone, colors);
      numcolors2, now := numcolorsDone, found;
      if !numcolorsDone {
        numcolors2, now := NoteColor(c, tree, max, colors, found);
      }
    }

    /** When nothing more can be found out, the pixels left do not matter. */
    lemma Finished(all: seq<Color>, i: nat, tree: Tree, found: seq<Color>, d: nat, max: nat)
      requires tree.Valid() && i <= |all| && SoFar(all[..i], tree, found, d, max) && bits >= d
      requires colored || forall c :: c in all ==> IsGrey(c)
      requires alpha || forall c :: c in all ==> c.a == 255
      requires !allowPalette || numcolors >= max
      ensures SoFar(all, tree, found, d, max)
    {
      assert forall k :: 0 <= k < i ==> all[..i][k] == all[k];
      if !colored && !alpha { CountedStays(all, i, d); }
    }

    /** The loop over the pixels. */
    method NotePixels(input: array<Byte>, n: nat, m: Mode, max: nat, tree: Tree) returns (ghost found: seq<Color>)
      requires Fresh() && ValidMode(m) && Holds(input.Length, n, m) && max > 0
      requires tree.Valid() && forall c :: tree.IndexOf(c) == -1
      modifies this`colored, this`alpha, this`key, this`keyR, this`keyG, this`keyB, this`bits, this`numcolors, this`palette, tree
      ensures tree.Valid() && SoFar(Pixels(input[..], n, m), tree, found, Bpp(m), max)
    {
      hide Tree.Valid;
      hide Tree.IndexOf;
      hide SoFar;
      hide PixelAt;
      hide CanHaveAlpha;
      ghost var all := Pixels(input[..], n, m);
      var coloredDone := m.colortype == ColorType.Grey || m.colortype == GreyAlpha;
      var alphaDone := !CanHaveAlpha(m);
      var numcolorsDone := !allowPalette;
      var bpp := Bpp(m);
      var bitsDone := bits >= bpp;
      var prev := Color(0, 0, 0, 0);
      found := [];
      ghost var greys, solid := coloredDone, alphaDone;
      AllLimits(input[..], n, m);
      StartSoFar(tree, bpp, max);
      for i := 0 to n
        invariant tree.Valid() && SoFar(all[..i], tree, found, bpp, max) && BitsDone(bitsDone, bpp)
        invariant coloredDone == (colored || greys) && alphaDone == (alpha || solid)
        invariant numcolorsDone == (!allowPalette || numcolors >= max)
        invariant i > 0 ==> prev == all[i - 1]
      {
        assert HasPixel(input.Length, i, m);
        var c := GetPixel(input, i, m);
        assert all[..i + 1] == all[..i] + [c] && c == all[i];
        if i != 0 && c == prev {
          RepeatedSoFar(c, all[..i], tree, found, bpp, max);
        } else {
          prev := c;
          bitsDone, coloredDone, alphaDone, numcolorsDone, found :=
            NotePixel(c, tree, bpp, max, bitsDone, coloredDone, alphaDone, numcolorsDone, all[..i], found);
          if alphaDone && numcolorsDone && coloredDone && bitsDone {
            Finished(all, i + 1, tree, found, bpp, max);
            return;
          }
        }
      }
      assert all[..n] == all;
    }

    lemma AllLimits(data: seq<Byte>, n: nat, m: Mode)
      requires ValidMode(m) && Holds(|data|, n, m)
      ensures m.colortype == ColorType.Grey || m.colortype == GreyAlpha ==> forall c :: c in Pixels(data, n, m) ==> IsGrey(c)
      ensures !CanHaveAlpha(m) ==> forall c :: c in Pixels(data, n, m) ==> c.a == 255
    {
      hide PixelAt;
      forall i: nat | i < n
        ensures m.colortype == ColorType.Grey || m.colortype == GreyAlpha ==> IsGrey(Pixels(data, n, m)[i])
        ensures !CanHaveAlpha(m) ==> Pixels(data, n, m)[i].a == 255
      {
        assert HasPixel(|data|, i, m);
        PixelLimits(data, i, m);
      }
    }

    lemma StartSoFar(tree: Tree, d: nat, max: nat)
      requires Fresh() && tree.Valid() && (forall c :: tree.IndexOf(c) == -1) && max > 0
      ensures SoFar([], tree, [], d, max) && BitsDone(bits >= d, d)
    {
    }

    lemma RepeatedSoFar(c: Color, colors: seq<Color>, tree: Tree, found: seq<Color>, d: nat, max: nat)
      requires tree.Valid() && SoFar(colors, tree, found, d, max) && colors != [] && c == colors[|colors| - 1]
      ensures SoFar(colors + [c], tree, found, d, max)
    {
      Repeated(c, colors, found, d, max);
    }

    /** Without alpha and with no opaque pixel of the key's colour, no alpha is needed. */
    lemma NoNeed(colors: seq<Color>)
      requires AlphaSoFar(colors) && !alpha
      requires key ==> forall k :: 0 <= k < |colors| ==> colors[k].a == 0 || !MatchesKey(colors[k])
      ensures !NeedsAlpha(colors)
    {
    }

    lemma Clash(colors: seq<Color>, t: nat, i: nat)
      requires t < |colors| && i < |colors| && colors[t].a == 0 && colors[i].a != 0
      requires MatchesKey(colors[t]) && MatchesKey(colors[i])
      ensures NeedsAlpha(colors)
    {
      assert SameRgb(colors[t], colors[i]);
    }

    lemma KeyWitness(colors: seq<Color>) returns (t: nat)
      requires AlphaSoFar(colors) && key && !alpha
      ensures t < |colors| && colors[t].a == 0 && MatchesKey(colors[t])
    {
      t :| 0 <= t < |colors| && colors[t].a == 0;
    }

    /** A last look for opaque pixels of the transparent colour. */
    method CheckKey(input: array<Byte>, n: nat, m: Mode, ghost colors: seq<Color>)
      requires ValidMode(m) && Holds(input.Length, n, m) && colors == Pixels(input[..], n, m)
      requires AlphaSoFar(colors) && GreySoFar(colors, Bpp(m))
      modifies this`alpha, this`key, this`bits
      ensures AlphaSoFar(colors) && GreySoFar(colors, Bpp(m)) && (alpha <==> NeedsAlpha(colors))
    {
      hide NeedsAlpha;
      hide Colorful;
      hide Clear;
      hide Counted;
      hide PixelAt;
      if key && !alpha {
        ghost var t := KeyWitness(colors);
        for i := 0 to n
          invariant GreySoFar(colors, Bpp(m)) && (key <==> !alpha)
          invariant alpha ==> NeedsAlpha(colors)
          invariant !alpha ==> AlphaSoFar(colors)
          invariant MatchesKey(colors[t])
          invariant !alpha ==> forall k :: 0 <= k < i ==> colors[k].a == 0 || !MatchesKey(colors[k])
        {
          assert HasPixel(input.Length, i, m);
          var c := GetPixel(input, i, m);
          assert c == colors[i];
          if c.a != 0 && MatchesKey(c) {
            Clash(colors, t, i);
            alpha, key := true, false;
            if bits < 8 { bits := 8; }
          }
        }
      }
      if !alpha { NoNeed(colors); }
    }

    /** The statistics of an image in any mode of up to 8 bits a channel, from fresh. */
    method Compute(input: array<Byte>, w: nat, h: nat, m: Mode)
      requires Fresh() && ValidMode(m) && PassLayout.RawSize(w, h, Bpp(m)) <= input.Length
      requires m.colortype == Palette ==> m.palette != []
      modifies this`colored, this`alpha, this`key, this`keyR, this`keyG, this`keyB, this`bits, this`numcolors, this`palette,
               this`numpixels
      ensures Holds(input.Length, w * h, m) && Describes(Pixels(input[..], w * h, m), Bpp(m))
    {
      hide Tree.Valid;
      hide Tree.IndexOf;
      hide NeedsAlpha;
      hide Colorful;
      hide Clear;
      hide Counted;
      hide PixelAt;
      hide PassLayout.RawSize;
      AllFit(w, h, m, input.Length);
      var n := w * h;
      ghost var colors := Pixels(input[..], n, m);
      var tree := new Tree();
      ghost var found := NotePixels(input, n, m, Limit(m), tree);
      CheckKey(input, n, m, colors);
      numpixels := numpixels + n;
      keyR, keyG, keyB := keyR + keyR * 256, keyG + keyG * 256, keyB + keyB * 256;
      if allowPalette { Totals(input[..], n, m, found); }
    }

    /** All colours have been found, or more than a palette holds. */
    lemma Totals(data: seq<Byte>, n: nat, m: Mode, found: seq<Color>)
      requires ValidMode(m) && Holds(|data|, n, m) && ColorsSoFar(Pixels(data, n, m), found, Limit(m))
      ensures var colors := Pixels(data, n, m);
              && numcolors == Min(MAX_COLORS, |Hues(colors)|) && |palette| == Min(256, numcolors) && NoTwins(palette)
              && (numcolors <= 256 ==> forall c :: c in palette <==> c in colors)
    {
      var colors := Pixels(data, n, m);
      CountNoTwins(found);
      FewerHues(found, colors);
      if numcolors < Limit(m) {
        FewerHues(colors, found);
      } else if Limit(m) < MAX_COLORS {
        FewColors(data, n, m);
        SameHues(found, colors);
      }
    }
  }
}
