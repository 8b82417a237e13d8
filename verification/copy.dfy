/** ftt_cell_copy of src/ftt.c: a new tree of the same shape, built cell
    by cell, calling the copy callback on every live cell before its
    children; destroyed slots are copied as destroyed without a call. */
module Copy {
  import opened Wrappers
  import opened Directions
  import opened Tree
  import opened Traverse

  /** The copy and the cells the copy callback was called on, in order. */
  datatype Copied = Copied(tree: Cell, calls: seq<Path>)

  /** copy_cell on the subtree c found at p. */
  function CopyCell(c: Cell, p: Path): (r: Copied)
    decreases c, 1
  {
    match c
    case Leaf => Copied(Leaf, [p])
    case Node(a, b, x, d) =>
      var ca := CopySlot(a, p + [0]);
      var cb := CopySlot(b, p + [1]);
      var cx := CopySlot(x, p + [2]);
      var cd := CopySlot(d, p + [3]);
      Copied(Node(ca.0, cb.0, cx.0, cd.0), [p] + ca.1 + cb.1 + cx.1 + cd.1)
  }

  /** A child slot: a destroyed child stays destroyed and is not visited. */
  function CopySlot(o: Option<Cell>, p: Path): (Option<Cell>, seq<Path>)
    decreases o, 0
  {
    match o
    case None => (None, [])
    case Some(x) => var r := CopyCell(x, p); (Some(r.tree), r.calls)
  }

  /** The copy has the shape of the original, and the callback is called
      once per live cell in the order of a pre-order traversal. */
  lemma {:induction false} CopySpec(c: Cell, p: Path)
    ensures CopyCell(c, p).tree == c
    ensures CopyCell(c, p).calls == Walk(c, p, -1, PreAll, None)
    decreases c, 1
  {
    if c.Node? {
      CopySlotSpec(c, p, 0);
      CopySlotSpec(c, p, 1);
      CopySlotSpec(c, p, 2);
      CopySlotSpec(c, p, 3);
      KidsUnfold(c, p);
    }
  }

  lemma {:induction false} CopySlotSpec(c: Cell, p: Path, n: ChildIx)
    requires c.Node?
    ensures CopySlot(Slot(c, n), p + [n]).0 == Slot(c, n)
    ensures CopySlot(Slot(c, n), p + [n]).1 == SlotWalk(c, p, n)
    decreases c, 0
  {
    if Slot(c, n).Some? {
      CopySpec(Slot(c, n).value, p + [n]);
    }
  }

  /** The pre-order walk below a node, child by child. */
  lemma KidsUnfold(c: Cell, p: Path)
    requires c.Node?
    ensures Kids(c, p, -1, PreAll, None, 0) ==
      SlotWalk(c, p, 0) + SlotWalk(c, p, 1) + SlotWalk(c, p, 2) + SlotWalk(c, p, 3)
  {
    assert ChildList(None) == [0, 1, 2, 3];
    assert Kids(c, p, -1, PreAll, None, 4) == [];
    assert Kids(c, p, -1, PreAll, None, 3) == SlotWalk(c, p, 3);
    assert Kids(c, p, -1, PreAll, None, 2) == SlotWalk(c, p, 2) + SlotWalk(c, p, 3);
    assert Kids(c, p, -1, PreAll, None, 1) ==
      SlotWalk(c, p, 1) + SlotWalk(c, p, 2) + SlotWalk(c, p, 3);
  }

  function SlotWalk(c: Cell, p: Path, n: ChildIx): seq<Path>
    requires c.Node?
  {
    match Slot(c, n) case None => [] case Some(x) => Walk(x, p + [n], -1, PreAll, None)
  }

  /** The copy of a whole tree is the tree, with one callback call per
      live cell, each cell before its descendants. */
  lemma CopyTree(c: Cell)
    ensures CopyCell(c, []).tree == c
    ensures |CopyCell(c, []).calls| == Count(c)
    ensures forall y :: y in CopyCell(c, []).calls <==> Live(c, y)
    ensures Distinct(CopyCell(c, []).calls) && AncestorsFirst(CopyCell(c, []).calls)
  {
    CopySpec(c, []);
    WalkCount(c, []);
    WalkOrdered(c, [], -1, PreAll, None);
    forall y ensures y in CopyCell(c, []).calls <==> Live(c, y) {
      WalkMembers(c, [], -1, PreAll, None, y);
      assert y[0..] == y;
    }
  }
}
