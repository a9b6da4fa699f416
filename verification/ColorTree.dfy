/** The 16-way tree that finds the palette index of a colour. */
module ColorTree {
  import opened Bits
  import opened MsbBits

  datatype Color = Color(r: Byte, g: Byte, b: Byte, a: Byte)

  /** One node; a child of 0 is absent, since the root is nobody's child. */
  datatype TreeNode = TreeNode(children: seq<nat>, index: int)

  const ABSENT := 0

  function NewNode(): TreeNode
  {
    TreeNode(seq(16, _ => ABSENT), -1)
  }

  /** Which child a colour takes at a level: one bit of every channel. */
  function Slot(c: Color, level: nat): (r: nat)
    ensures r < 16
  {
    8 * BitOf(c.r, level) + 4 * BitOf(c.g, level) + 2 * BitOf(c.b, level) + BitOf(c.a, level)
  }

  /** The name of a node's child; the root's is 0, and no two nodes share one. */
  function Step(at: nat, slot: nat): (r: nat)
    requires slot < 16
    ensures r > 0
  {
    16 * at + slot + 1
  }

  function Parent(at: nat): nat
    requires at > 0
  {
    (at - 1) / 16
  }

  lemma StepInjective(p: nat, d: nat, q: nat, e: nat)
    requires d < 16 && e < 16 && Step(p, d) == Step(q, e)
    ensures p == q && d == e
  {
  }

  lemma StepParent(p: nat, d: nat)
    requires d < 16
    ensures Parent(Step(p, d)) == p
  {
  }

  /** The node n steps down a colour's way. */
  function Path(c: Color, n: nat): nat
  {
    if n == 0 then 0 else Step(Path(c, n - 1), Slot(c, n - 1))
  }

  lemma SlotBits(c: Color, d: Color, level: nat)
    requires Slot(c, level) == Slot(d, level)
    ensures BitOf(c.r, level) == BitOf(d.r, level) && BitOf(c.g, level) == BitOf(d.g, level)
    ensures BitOf(c.b, level) == BitOf(d.b, level) && BitOf(c.a, level) == BitOf(d.a, level)
  {
    hide BitOf;
  }

  lemma {:induction false} SamePath(c: Color, d: Color, n: nat, level: nat)
    requires Path(c, n) == Path(d, n) && level < n
    ensures Slot(c, level) == Slot(d, level)
  {
    hide Slot;
    StepInjective(Path(c, n - 1), Slot(c, n - 1), Path(d, n - 1), Slot(d, n - 1));
    if level < n - 1 { SamePath(c, d, n - 1, level); }
  }

  /** Eight steps tell all colours apart. */
  lemma PathInjective(c: Color, d: Color)
    requires Path(c, 8) == Path(d, 8)
    ensures c == d
  {
    hide BitOf;
    forall j: nat | j < 8
      ensures BitOf(c.r, j) == BitOf(d.r, j) && BitOf(c.g, j) == BitOf(d.g, j)
      ensures BitOf(c.b, j) == BitOf(d.b, j) && BitOf(c.a, j) == BitOf(d.a, j)
    {
      SamePath(c, d, 8, j);
      SlotBits(c, d, j);
    }
    Pow2Small();
    SameBits(c.r, d.r, 8);
    SameBits(c.g, d.g, 8);
    SameBits(c.b, d.b, 8);
    SameBits(c.a, d.a, 8);
  }

  class Tree {
    /** All nodes, the root first. */
    var nodes: seq<TreeNode>
    /** Where the node at the end of a path lies. */
    ghost var where: map<nat, nat>

    /** The children of the node p are where its steps lead. */
    ghost predicate Linked(p: nat)
      requires p in where && where[p] < |nodes| && |nodes[where[p]].children| == 16
      reads this
    {
      forall d: nat :: d < 16 ==>
                         nodes[where[p]].children[d] == if Step(p, d) in where then where[Step(p, d)] else ABSENT
    }

    ghost predicate Valid()
      reads this
    {
      && 0 in where && where[0] == 0
      && (forall p :: p in where ==> where[p] < |nodes| && |nodes[where[p]].children| == 16)
      && (forall p :: p in where ==> Linked(p))
      && (forall p, q :: p in where && q in where && where[p] == where[q] ==> p == q)
      && (forall p :: p in where && p > 0 ==> Parent(p) in where)
    }

    /** The index of a colour, -1 if it has none. */
    ghost function IndexOf(c: Color): int
      requires Valid()
      reads this
    {
      if Path(c, 8) in where then nodes[where[Path(c, 8)]].index else -1
    }

    constructor ()
      ensures Valid() && forall c :: IndexOf(c) == -1
    {
      nodes := [NewNode()];
      where := map[0 := 0];
    }

    lemma {:induction false} PathCut(c: Color, n: nat, m: nat)
      requires Valid() && n <= m && Path(c, m) in where
      ensures Path(c, n) in where
    {
      if n < m {
        StepParent(Path(c, m - 1), Slot(c, m - 1));
        PathCut(c, n, m - 1);
      }
    }

    method Get(c: Color) returns (index: int)
      requires Valid()
      ensures index == IndexOf(c)
    {
      hide Slot;
      hide Step;
      var tree := 0;
      for bit := 0 to 8
        invariant Path(c, bit) in where && tree == where[Path(c, bit)]
      {
        var i := Slot(c, bit);
        assert Linked(Path(c, bit)) && Path(c, bit + 1) == Step(Path(c, bit), i);
        if nodes[tree].children[i] == ABSENT {
          if Path(c, 8) in where { PathCut(c, bit + 1, 8); }
          return -1;
        }
        tree := nodes[tree].children[i];
      }
      index := nodes[tree].index;
    }

    /** Gives a colour an index; no other colour's changes. */
    method Add(c: Color, index: nat)
      requires Valid()
      modifies this
      ensures Valid() && IndexOf(c) == index
      ensures forall d :: d != c ==> IndexOf(d) == old(IndexOf(d))
    {
      hide Valid;
      hide IndexOf;
      var tree := 0;
      Root();
      for bit := 0 to 8
        invariant Valid() && At(c, bit, tree)
        invariant forall d :: IndexOf(d) == old(IndexOf(d))
      {
        tree := Descend(c, bit, tree);
      }
      SetIndex(c, tree, index);
    }

    /** The node reached n steps down. */
    ghost predicate At(c: Color, n: nat, tree: nat)
      reads this
    {
      Path(c, n) in where && tree == where[Path(c, n)]
    }

    lemma Root()
      requires Valid()
      ensures forall c :: At(c, 0, 0)
    {
    }

    method SetIndex(c: Color, tree: nat, index: nat)
      requires Valid() && At(c, 8, tree)
      modifies this
      ensures Valid() && IndexOf(c) == index
      ensures forall d :: d != c ==> IndexOf(d) == old(IndexOf(d))
    {
      hide Path;
      hide Step;
      forall d | d != c ensures Path(d, 8) != Path(c, 8) {
        if Path(d, 8) == Path(c, 8) { PathInjective(d, c); }
      }
      nodes := nodes[tree := nodes[tree].(index := index)];
      forall p | p in where ensures Linked(p) {
        assert old(Linked(p));
      }
    }

    /** One step down, onto a new node if there is none yet. */
    method Descend(c: Color, bit: nat, tree: nat) returns (next: nat)
      requires Valid() && bit < 8 && At(c, bit, tree)
      modifies this
      ensures Valid() && At(c, bit + 1, next)
      ensures forall d :: IndexOf(d) == old(IndexOf(d))
    {
      hide Step;
      hide Slot;
      var i := Slot(c, bit);
      ghost var p := Path(c, bit);
      assert Linked(p) && Path(c, bit + 1) == Step(p, i);
      if nodes[tree].children[i] == ABSENT {
        NoChildRoot(p, i);
        Branch(p, tree, i);
        assert Linked(p);
      }
      next := nodes[tree].children[i];
    }

    /** Only an absent child is 0: the root is nobody's. */
    lemma NoChildRoot(p: nat, i: nat)
      requires Valid() && p in where && i < 16 && nodes[where[p]].children[i] == ABSENT
      ensures Step(p, i) !in where
    {
      assert Linked(p);
    }

    /** A new node below another; no other is moved. */
    method Branch(ghost p: nat, tree: nat, i: nat)
      requires Valid() && p in where && tree == where[p] && i < 16 && Step(p, i) !in where
      modifies this
      ensures Valid() && where.Keys == old(where.Keys) + {Step(p, i)}
      ensures nodes[where[Step(p, i)]].index == -1
      ensures forall q :: q in old(where) ==> where[q] == old(where[q]) && nodes[where[q]].index == old(nodes[where[q]].index)
    {
      hide Step;
      hide Parent;
      var added := |nodes|;
      nodes := nodes[tree := nodes[tree].(children := nodes[tree].children[i := added])] + [NewNode()];
      where := where[Step(p, i) := added];
      StepParent(p, i);
      assert nodes[added] == NewNode();
      forall q | q in where ensures where[q] < |nodes| && |nodes[where[q]].children| == 16 && Linked(q) {
        forall d: nat | d < 16
          ensures nodes[where[q]].children[d] == if Step(q, d) in where then where[Step(q, d)] else ABSENT
        {
          if q in old(where) { assert old(Linked(q)); }
          if Step(q, d) == Step(p, i) { StepInjective(q, d, p, i); }
          StepParent(q, d);
        }
      }
    }
  }
}
