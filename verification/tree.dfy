/** The cell tree of src/ftt.c (FttCell / FttOct), as an immutable value.

    A cell is a leaf or a node owning one oct of four child slots; an empty
    slot (None) is a child that was destroyed (FTT_FLAG_DESTROYED).  A cell
    is named by its path, the child indices from the root, so its level is
    the length of its path (the root has level 0).  The child-index flag
    FTT_CELL_ID of a cell is the last index of its path. */
module Tree {
  import opened Wrappers
  import opened Directions

  type Path = seq<ChildIx>

  datatype Cell = Leaf | Node(k0: Option<Cell>, k1: Option<Cell>, k2: Option<Cell>, k3: Option<Cell>)

  /** Child slot n of an oct. */
  function Slot(c: Cell, n: ChildIx): Option<Cell>
    requires c.Node?
  {
    if n == 0 then c.k0 else if n == 1 then c.k1 else if n == 2 then c.k2 else c.k3
  }

  function WithSlot(c: Cell, n: ChildIx, o: Option<Cell>): (r: Cell)
    requires c.Node?
    ensures r.Node? && Slot(r, n) == o
    ensures forall m: ChildIx :: m != n ==> Slot(r, m) == Slot(c, m)
  {
    if n == 0 then c.(k0 := o) else if n == 1 then c.(k1 := o)
    else if n == 2 then c.(k2 := o) else c.(k3 := o)
  }

  /** The oct that oct_new attaches: four live leaf children. */
  const NewOct: Cell := Node(Some(Leaf), Some(Leaf), Some(Leaf), Some(Leaf))

  /** The cell at path p, or None when p runs through a destroyed slot or
      below a leaf. */
  function Get(t: Cell, p: Path): Option<Cell>
    decreases |p|
  {
    if p == [] then Some(t)
    else if t.Leaf? then None
    else match Slot(t, p[0])
      case None => None
      case Some(x) => Get(x, p[1..])
  }

  predicate Live(t: Cell, p: Path)
  {
    Get(t, p).Some?
  }

  predicate IsLeafAt(t: Cell, p: Path)
  {
    Get(t, p) == Some(Leaf)
  }

  /** Looking up below child n of a node is looking up in that child. */
  lemma GetUnder(t: Cell, n: ChildIx, z: Path)
    requires t.Node? && Slot(t, n).Some?
    ensures Get(t, [n] + z) == Get(Slot(t, n).value, z)
  {
    assert ([n] + z)[0] == n && ([n] + z)[1..] == z;
  }

  predicate IsNodeAt(t: Cell, p: Path)
  {
    Get(t, p).Some? && Get(t, p).value.Node?
  }

  predicate IsPrefix(a: Path, b: Path)
  {
    |a| <= |b| && b[..|a|] == a
  }

  function Parent(p: Path): Path
    requires p != []
  {
    p[..|p| - 1]
  }

  function Last(p: Path): ChildIx
    requires p != []
  {
    p[|p| - 1]
  }

  lemma GetAppend(t: Cell, a: Path, b: Path)
    ensures Get(t, a + b) == (match Get(t, a) case None => None case Some(x) => Get(x, b))
    decreases |a|
  {
    if a == [] {
      assert a + b == b;
    } else {
      assert (a + b)[0] == a[0];
      assert (a + b)[1..] == a[1..] + b;
      if t.Node? && Slot(t, a[0]).Some? {
        GetAppend(Slot(t, a[0]).value, a[1..], b);
      }
    }
  }

  /** Looking one level further down goes through the slot of the oct. */
  lemma GetSnoc(t: Cell, p: Path, n: ChildIx)
    ensures Get(t, p + [n]) ==
      (if IsNodeAt(t, p) then Slot(Get(t, p).value, n) else None)
  {
    GetAppend(t, p, [n]);
    if Get(t, p).Some? {
      var x := Get(t, p).value;
      assert [n][1..] == [];
    }
  }

  lemma GetParent(t: Cell, p: Path)
    requires p != []
    ensures Get(t, p) ==
      (if IsNodeAt(t, Parent(p)) then Slot(Get(t, Parent(p)).value, Last(p)) else None)
  {
    assert Parent(p) + [Last(p)] == p;
    GetSnoc(t, Parent(p), Last(p));
  }

  /** Every ancestor of a live cell is live and has children. */
  lemma LivePrefix(t: Cell, p: Path, q: Path)
    requires Live(t, p) && IsPrefix(q, p)
    ensures Live(t, q)
    ensures |q| < |p| ==> IsNodeAt(t, q)
  {
    assert p == q + p[|q|..];
    GetAppend(t, q, p[|q|..]);
    if |q| < |p| {
      var x := Get(t, q).value;
      assert p[|q|..] != [];
    }
  }

  lemma LiveParent(t: Cell, p: Path)
    requires Live(t, p) && p != []
    ensures IsNodeAt(t, Parent(p))
  {
    LivePrefix(t, p, Parent(p));
  }

  // ---------------------------------------------------------------------
  // Replacing a subtree.

  /** The tree with the subtree at p replaced by x (unchanged when p is not
      live). */
  function Replace(t: Cell, p: Path, x: Cell): Cell
    decreases |p|
  {
    if p == [] then x
    else if t.Leaf? then t
    else match Slot(t, p[0])
      case None => t
      case Some(y) => WithSlot(t, p[0], Some(Replace(y, p[1..], x)))
  }

  /** Replacing at a path that is not live changes nothing. */
  lemma ReplaceDead(t: Cell, p: Path, x: Cell)
    requires !Live(t, p)
    ensures Replace(t, p, x) == t
    decreases |p|
  {
    if t.Node? && Slot(t, p[0]).Some? {
      var y := Slot(t, p[0]).value;
      ReplaceDead(y, p[1..], x);
      assert WithSlot(t, p[0], Some(y)) == t;
    }
  }

  /** Inside the replaced subtree the new one is seen; off the path to p
      nothing changes; on the path to p the cells stay nodes. */
  lemma GetReplace(t: Cell, p: Path, x: Cell, y: Path)
    requires Live(t, p)
    ensures IsPrefix(p, y) ==> Get(Replace(t, p, x), y) == Get(x, y[|p|..])
    ensures !IsPrefix(p, y) && !IsPrefix(y, p) ==> Get(Replace(t, p, x), y) == Get(t, y)
    ensures IsPrefix(y, p) && |y| < |p| ==> IsNodeAt(Replace(t, p, x), y) && IsNodeAt(t, y)
    decreases |p|
  {
    if p != [] {
      var z := Slot(t, p[0]).value;
      if y != [] {
        if y[0] == p[0] {
          GetReplace(z, p[1..], x, y[1..]);
          if IsPrefix(p, y) {
            assert IsPrefix(p[1..], y[1..]);
            assert y[|p|..] == y[1..][|p[1..]|..];
          }
          if IsPrefix(y, p) {
            assert IsPrefix(y[1..], p[1..]);
          }
        }
      } else {
        assert IsPrefix(y, p);
      }
    }
  }

  /** The shape of the tree at a path: absent, leaf or node. */
  datatype Kind = Dead | LeafKind | NodeKind

  function KindAt(t: Cell, p: Path): Kind
  {
    match Get(t, p)
    case None => Dead
    case Some(Leaf) => LeafKind
    case Some(Node(_, _, _, _)) => NodeKind
  }

  /** Replacing a subtree by another changes the shape only at p and below. */
  lemma KindReplace(t: Cell, p: Path, x: Cell, y: Path)
    requires Live(t, p) && !IsPrefix(p, y)
    ensures KindAt(Replace(t, p, x), y) == KindAt(t, y)
  {
    GetReplace(t, p, x, y);
  }

  /** Two trees that agree on the shape of every cell above level L and
      on which cells of level L are live. */
  ghost predicate Alike(t: Cell, u: Cell, L: nat)
  {
    (forall y :: |y| < L ==> KindAt(t, y) == KindAt(u, y)) &&
    (forall y :: |y| == L ==> Live(t, y) == Live(u, y))
  }

  // ---------------------------------------------------------------------
  // Counting cells.

  /** The number of live cells of a tree. */
  function Count(c: Cell): nat
    decreases c
  {
    match c
    case Leaf => 1
    case Node(a, b, x, d) => 1 + SlotCount(a) + SlotCount(b) + SlotCount(x) + SlotCount(d)
  }

  function SlotCount(o: Option<Cell>): nat
    decreases o
  {
    match o
    case None => 0
    case Some(x) => Count(x)
  }

  lemma CountWithSlot(c: Cell, n: ChildIx, o: Option<Cell>)
    requires c.Node?
    ensures Count(WithSlot(c, n, o)) + SlotCount(Slot(c, n)) == Count(c) + SlotCount(o)
  {
    var u := WithSlot(c, n, o);
    assert Count(c) == 1 + SlotCount(c.k0) + SlotCount(c.k1) + SlotCount(c.k2) + SlotCount(c.k3);
    if n == 0 {
      assert u == Node(o, c.k1, c.k2, c.k3);
    } else if n == 1 {
      assert u == Node(c.k0, o, c.k2, c.k3);
    } else if n == 2 {
      assert u == Node(c.k0, c.k1, o, c.k3);
    } else {
      assert u == Node(c.k0, c.k1, c.k2, o);
    }
  }

  /** Replacing the subtree at a live path changes the count by the
      difference of the two subtrees. */
  lemma CountReplace(t: Cell, p: Path, x: Cell)
    requires Live(t, p)
    ensures Count(Replace(t, p, x)) + Count(Get(t, p).value) == Count(t) + Count(x)
    decreases |p|
  {
    if p != [] {
      var y := Slot(t, p[0]).value;
      CountReplace(y, p[1..], x);
      CountWithSlot(t, p[0], Some(Replace(y, p[1..], x)));
    }
  }

  lemma CountPositive(c: Cell)
    ensures Count(c) >= 1
  {
  }

  // ---------------------------------------------------------------------
  // ftt_cell_depth and ftt_cell_relative_level.

  function Max(a: nat, b: nat): nat
  {
    if a >= b then a else b
  }

  /** ftt_cell_depth: the deepest level of a live cell of the tree whose
      root is at level `level`. */
  function Depth(c: Cell, level: nat): nat
    decreases c
  {
    match c
    case Leaf => level
    case Node(a, b, x, d) =>
      Max(Max(Max(Max(level, SlotDepth(a, level + 1)), SlotDepth(b, level + 1)),
              SlotDepth(x, level + 1)), SlotDepth(d, level + 1))
  }

  function SlotDepth(o: Option<Cell>, level: nat): nat
    decreases o
  {
    match o
    case None => 0
    case Some(x) => Depth(x, level)
  }

  /** The depth bounds the level of every live cell and is attained by
      one of them. */
  lemma {:induction false} DepthIsDeepestLevel(c: Cell, level: nat, y: Path)
    ensures Live(c, y) ==> level + |y| <= Depth(c, level)
    ensures exists z :: Live(c, z) && level + |z| == Depth(c, level)
    decreases c
  {
    if Live(c, y) && y != [] {
      var kid := Slot(c, y[0]).value;
      DepthIsDeepestLevel(kid, level + 1, y[1..]);
      assert SlotDepth(Slot(c, y[0]), level + 1) <= Depth(c, level);
    }
    DepthAttained(c, level);
  }

  lemma {:induction false} DepthAttained(c: Cell, level: nat)
    ensures exists z :: Live(c, z) && level + |z| == Depth(c, level)
    decreases c
  {
    assert Get(c, []) == Some(c);
    var d := Depth(c, level);
    if c.Node? && d != level {
      var n: ChildIx := 3;
      if d == SlotDepth(c.k0, level + 1) { n := 0; }
      else if d == SlotDepth(c.k1, level + 1) { n := 1; }
      else if d == SlotDepth(c.k2, level + 1) { n := 2; }
      assert d == SlotDepth(Slot(c, n), level + 1);
      var kid := Slot(c, n).value;
      DepthAttained(kid, level + 1);
      var z :| Live(kid, z) && level + 1 + |z| == Depth(kid, level + 1);
      assert ([n] + z)[0] == n && ([n] + z)[1..] == z;
      assert Live(c, [n] + z);
    }
  }

  lemma DepthAtLeastLevel(c: Cell, level: nat)
    ensures Depth(c, level) >= level
  {
  }

  /** G_MAXINT/2, the start value of the minimum in ftt_cell_relative_level. */
  const RelativeLevelCap: nat := 0x7fff_ffff / 2

  function Min(a: nat, b: nat): nat
  {
    if a <= b then a else b
  }

  /** ftt_cell_relative_level: 0 for a leaf, otherwise one more than the
      smallest relative level of the live children (G_MAXINT/2 + 1 when
      every child was destroyed). */
  function RelativeLevel(c: Cell): nat
    decreases c
  {
    match c
    case Leaf => 0
    case Node(a, b, x, d) =>
      1 + Min(Min(Min(Min(RelativeLevelCap, SlotRelativeLevel(a)), SlotRelativeLevel(b)),
                  SlotRelativeLevel(x)), SlotRelativeLevel(d))
  }

  function SlotRelativeLevel(o: Option<Cell>): nat
    decreases o
  {
    match o
    case None => RelativeLevelCap
    case Some(x) => RelativeLevel(x)
  }

  /** No oct of the tree has lost all four children. */
  predicate NoEmptyOct(c: Cell)
    decreases c
  {
    match c
    case Leaf => true
    case Node(a, b, x, d) =>
      (a.Some? || b.Some? || x.Some? || d.Some?) &&
      SlotNoEmptyOct(a) && SlotNoEmptyOct(b) && SlotNoEmptyOct(x) && SlotNoEmptyOct(d)
  }

  predicate SlotNoEmptyOct(o: Option<Cell>)
    decreases o
  {
    match o
    case None => true
    case Some(x) => NoEmptyOct(x)
  }

  lemma {:induction false} DepthShift(c: Cell, level: nat)
    ensures Depth(c, level) == level + Depth(c, 0)
    decreases c
  {
    if c.Node? {
      SlotDepthShift(c.k0, level);
      SlotDepthShift(c.k1, level);
      SlotDepthShift(c.k2, level);
      SlotDepthShift(c.k3, level);
    }
  }

  lemma {:induction false} SlotDepthShift(o: Option<Cell>, level: nat)
    ensures SlotDepth(o, level + 1) == if o.None? then 0 else level + SlotDepth(o, 1)
    decreases o
  {
    if o.Some? {
      DepthShift(o.value, level + 1);
      DepthShift(o.value, 1);
    }
  }

  /** The relative level is the distance to the shallowest leaf below the
      cell: no leaf is closer, and in a tree shallower than the cap one is
      that close unless some oct on the way lost all its children. */
  lemma RelativeLevelIsShallowestLeaf(c: Cell, y: Path)
    ensures RelativeLevel(c) == 0 <==> c.Leaf?
    ensures IsLeafAt(c, y) ==> RelativeLevel(c) <= |y|
    ensures NoEmptyOct(c) && Depth(c, 0) <= RelativeLevelCap ==>
      exists z :: IsLeafAt(c, z) && |z| == RelativeLevel(c)
    ensures c.Node? && c.k0.None? && c.k1.None? && c.k2.None? && c.k3.None? ==>
      RelativeLevel(c) == RelativeLevelCap + 1
  {
    if IsLeafAt(c, y) {
      NoCloserLeaf(c, y);
    }
    if NoEmptyOct(c) && Depth(c, 0) <= RelativeLevelCap {
      RelativeLevelAttained(c);
    }
  }

  /** No leaf is closer than the relative level. */
  lemma {:induction false} NoCloserLeaf(c: Cell, y: Path)
    requires IsLeafAt(c, y)
    ensures RelativeLevel(c) <= |y|
    decreases |y|
  {
    if y != [] {
      var kid := Slot(c, y[0]).value;
      NoCloserLeaf(kid, y[1..]);
      assert SlotRelativeLevel(Slot(c, y[0])) <= |y| - 1;
    }
  }

  lemma {:induction false} RelativeLevelAttained(c: Cell)
    requires NoEmptyOct(c) && Depth(c, 0) <= RelativeLevelCap
    ensures exists z :: IsLeafAt(c, z) && |z| == RelativeLevel(c)
    ensures RelativeLevel(c) <= Depth(c, 0)
    decreases c, 3
  {
    var z;
    if c.Leaf? {
      z := [];
    } else {
      z := NodeAttained(c);
    }
    assert IsLeafAt(c, z) && |z| == RelativeLevel(c);
    DepthIsDeepestLevel(c, 0, z);
  }

  /** A shallowest leaf below a node, found through the child that gives
      the node its relative level. */
  lemma NodeAttained(c: Cell) returns (y: Path)
    requires c.Node? && NoEmptyOct(c) && Depth(c, 0) <= RelativeLevelCap
    ensures IsLeafAt(c, y) && |y| == RelativeLevel(c)
    decreases c, 2
  {
    SlotsBelowCap(c);
    var n := ShallowestSlot(c);
    var kid := Slot(c, n).value;
    KidDepth(c, n);
    RelativeLevelAttained(kid);
    var z :| IsLeafAt(kid, z) && |z| == RelativeLevel(kid);
    GetUnder(c, n, z);
    y := [n] + z;
  }

  /** A live child is one level deeper than its node reaches. */
  lemma KidDepth(c: Cell, n: ChildIx)
    requires c.Node? && Slot(c, n).Some?
    ensures Depth(Slot(c, n).value, 0) + 1 <= Depth(c, 0)
  {
    DepthShift(c, 0);
    DepthShift(Slot(c, n).value, 1);
    assert SlotDepth(Slot(c, n), 1) <= Depth(c, 0);
  }

  /** Every live child of a node within the cap is below the node's
      depth. */
  lemma SlotsBelowCap(c: Cell)
    requires c.Node? && NoEmptyOct(c) && Depth(c, 0) <= RelativeLevelCap
    ensures c.k0.Some? ==> RelativeLevel(c.k0.value) < Depth(c, 0)
    ensures c.k1.Some? ==> RelativeLevel(c.k1.value) < Depth(c, 0)
    ensures c.k2.Some? ==> RelativeLevel(c.k2.value) < Depth(c, 0)
    ensures c.k3.Some? ==> RelativeLevel(c.k3.value) < Depth(c, 0)
    decreases c, 1
  {
    DepthShift(c, 0);
    SlotBelowCap(c.k0, Depth(c, 0));
    SlotBelowCap(c.k1, Depth(c, 0));
    SlotBelowCap(c.k2, Depth(c, 0));
    SlotBelowCap(c.k3, Depth(c, 0));
  }

  /** The child whose relative level gives the node's, when one is below
      the cap. */
  lemma ShallowestSlot(c: Cell) returns (n: ChildIx)
    requires c.Node?
    requires SlotRelativeLevel(c.k0) < RelativeLevelCap || SlotRelativeLevel(c.k1) < RelativeLevelCap
          || SlotRelativeLevel(c.k2) < RelativeLevelCap || SlotRelativeLevel(c.k3) < RelativeLevelCap
    ensures Slot(c, n).Some? && RelativeLevel(c) == 1 + RelativeLevel(Slot(c, n).value)
  {
    var r := RelativeLevel(c) - 1;
    n := 3;
    if r == SlotRelativeLevel(c.k0) { n := 0; }
    else if r == SlotRelativeLevel(c.k1) { n := 1; }
    else if r == SlotRelativeLevel(c.k2) { n := 2; }
  }

  /** A live child of a node of depth at most d has a relative level below
      d, hence below the cap. */
  lemma {:induction false} SlotBelowCap(o: Option<Cell>, d: nat)
    requires o.Some? ==> NoEmptyOct(o.value) && SlotDepth(o, 1) <= d <= RelativeLevelCap
    ensures o.Some? ==> RelativeLevel(o.value) < d
    decreases o, 1
  {
    if o.Some? {
      DepthShift(o.value, 1);
      RelativeLevelAttained(o.value);
    }
  }
}
