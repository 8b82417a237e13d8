/** ftt_cell_destroy of src/ftt.c: the cell and its whole subtree go, the
    cleanup callback seeing each live cell before its descendants, and an
    oct left with no live cell is freed so that its parent is a leaf
    again.  The neighbours' cached references to the cell need no update
    here since the neighbour cache is recomputed (Neighbors.Neighbor). */
module Destroy {
  import opened Wrappers
  import opened Directions
  import opened Tree
  import opened Neighbors
  import opened Traverse

  /** The tree afterwards (None once the root itself is freed) and the
      cells the cleanup callback was called on, in call order. */
  datatype Destroyed = Destroyed(tree: Option<Cell>, cleaned: seq<Path>)

  /** Oct c after its child n is destroyed; an oct whose every cell is
      destroyed is freed and its parent becomes a leaf. */
  function EmptySlot(c: Cell, n: ChildIx): (r: Cell)
    requires c.Node?
  {
    var o := WithSlot(c, n, None);
    if o == Node(None, None, None, None) then Leaf else o
  }

  /** The cleanup calls of destroying the subtree x found at p: the cell,
      then its children in index order, each with its own subtree. */
  function Cleanups(x: Cell, p: Path): seq<Path>
  {
    Walk(x, p, -1, PreAll, None)
  }

  /** ftt_cell_destroy on the cell at p. */
  function Destroy(t: Cell, p: Path): (r: Destroyed)
  {
    if !Live(t, p) then Destroyed(Some(t), [])
    else if p == [] then Destroyed(None, Cleanups(t, []))
    else
      LiveParent(t, p);
      var par := Parent(p);
      Destroyed(Some(Replace(t, par, EmptySlot(Get(t, par).value, Last(p)))),
                Cleanups(Get(t, p).value, p))
  }

  /** p is the only live child of its parent. */
  predicate LastSibling(t: Cell, p: Path)
    requires p != []
  {
    forall n: ChildIx :: n != Last(p) ==> !Live(t, Parent(p) + [n])
  }

  // ---------------------------------------------------------------------
  // Facts about one oct.

  lemma EmptySlotGet(c: Cell, n: ChildIx, z: Path)
    requires c.Node? && z != []
    ensures z[0] == n ==> Get(EmptySlot(c, n), z) == None
    ensures z[0] != n ==> Get(EmptySlot(c, n), z) == Get(c, z)
  {
    var o := WithSlot(c, n, None);
    if o == Node(None, None, None, None) && z[0] != n {
      assert Slot(c, z[0]) == Slot(o, z[0]) == None;
    }
  }

  lemma EmptySlotCount(c: Cell, n: ChildIx)
    requires c.Node?
    ensures Count(EmptySlot(c, n)) + SlotCount(Slot(c, n)) == Count(c)
  {
    CountWithSlot(c, n, None);
  }

  // ---------------------------------------------------------------------
  // The contract of ftt_cell_destroy.

  /** Destroying a destroyed cell does nothing; destroying the root frees
      the tree after a cleanup call on every live cell. */
  lemma DestroyTrivial(t: Cell, p: Path)
    ensures !Live(t, p) ==> Destroy(t, p) == Destroyed(Some(t), [])
    ensures p == [] ==> (Destroy(t, p).tree == None &&
      |Destroy(t, p).cleaned| == Count(t) &&
      (forall y :: y in Destroy(t, p).cleaned <==> Live(t, y)))
  {
    if p == [] {
      WalkCount(t, []);
      forall y ensures y in Cleanups(t, []) <==> Live(t, y) {
        WalkMembers(t, [], -1, PreAll, None, y);
        assert y[0..] == y;
      }
    }
  }

  /** The cleanup calls of destroying a live cell: every live cell of its
      subtree once, the cell itself first and each cell before its
      descendants; the count drops by their number. */
  lemma DestroyCleans(t: Cell, p: Path)
    requires Live(t, p)
    ensures var r := Destroy(t, p);
      (forall y :: y in r.cleaned <==> Live(t, y) && IsPrefix(p, y)) &&
      Distinct(r.cleaned) && AncestorsFirst(r.cleaned) &&
      |r.cleaned| > 0 && r.cleaned[0] == p
    ensures p != [] ==> Count(Destroy(t, p).tree.value) + |Destroy(t, p).cleaned| == Count(t)
  {
    var x := Get(t, p).value;
    var s := Cleanups(x, p);
    forall y ensures y in s <==> Live(t, y) && IsPrefix(p, y) {
      WalkMembers(x, p, -1, PreAll, None, y);
      if IsPrefix(p, y) {
        assert y == p + y[|p|..];
        GetAppend(t, p, y[|p|..]);
      }
    }
    WalkOrdered(x, p, -1, PreAll, None);
    WalkCount(x, p);
    if p != [] {
      var par := Parent(p);
      LiveParent(t, p);
      var c := Get(t, par).value;
      GetParent(t, p);
      EmptySlotCount(c, Last(p));
      CountReplace(t, par, EmptySlot(c, Last(p)));
    }
  }

  /** Destroying a live non-root cell removes its subtree and changes no
      other cell except its parent, which becomes a leaf exactly when the
      cell was the last live child of its oct. */
  lemma DestroyShape(t: Cell, p: Path, y: Path)
    requires Live(t, p) && p != []
    ensures Destroy(t, p).tree.Some?
    ensures IsPrefix(p, y) ==> !Live(Destroy(t, p).tree.value, y)
    ensures !IsPrefix(p, y) && y != Parent(p) ==>
      KindAt(Destroy(t, p).tree.value, y) == KindAt(t, y)
    ensures IsLeafAt(Destroy(t, p).tree.value, Parent(p)) <==> LastSibling(t, p)
    ensures !LastSibling(t, p) ==> IsNodeAt(Destroy(t, p).tree.value, Parent(p))
  {
    var par := Parent(p);
    var n := Last(p);
    LiveParent(t, p);
    var c := Get(t, par).value;
    var e := EmptySlot(c, n);
    var u := Replace(t, par, e);
    assert p == par + [n];
    GetReplace(t, par, e, y);
    GetReplace(t, par, e, par);
    assert par[|par|..] == [];
    if IsPrefix(par, y) && y != par {
      var z := y[|par|..];
      assert z != [] && y == par + z;
      GetAppend(t, par, z);
      EmptySlotGet(c, n, z);
      if z[0] == n {
        assert IsPrefix(p, y) by {
          assert y[..|p|] == par + [z[0]];
        }
      } else {
        assert !IsPrefix(p, y) by {
          assert y[|par|] == z[0];
        }
      }
    }
    forall m: ChildIx ensures Live(t, par + [m]) <==> Slot(c, m).Some? {
      GetSnoc(t, par, m);
    }
    if !LastSibling(t, p) {
      var m: ChildIx :| m != n && Live(t, par + [m]);
      assert Slot(WithSlot(c, n, None), m).Some?;
    } else {
      assert WithSlot(c, n, None) == Node(None, None, None, None) by {
        forall m: ChildIx ensures Slot(WithSlot(c, n, None), m) == None {
        }
      }
    }
  }

  /** A same-level neighbour of a destroyed cell no longer finds it: its
      reference in the opposite direction is gone (as long as the parent
      oct survives; a freed oct is left to the next neighbour search). */
  lemma DestroyUnlinksNeighbors(t: Cell, p: Path, d: Dir)
    requires Live(t, p) && p != [] && SameLevel(t, p, d) && !LastSibling(t, p)
    ensures Neighbor(Destroy(t, p).tree.value, Neighbor(t, p, d).value, Opposite(d)) == None
  {
    var q := Neighbor(t, p, d).value;
    var u := Destroy(t, p).tree.value;
    NeighborSymmetric(t, p, d);
    DestroyShape(t, p, p);
    var par := Parent(p);
    var od := Opposite(d);
    OppositeInvolution(d);
    assert q != [];
    var qpar := Parent(q);
    var nn := NeighborIndex(od, Last(q));
    if nn < 0 {
      assert Alike(t, u, |qpar|) by {
        forall y | |y| <= |qpar| ensures KindAt(t, y) == KindAt(u, y) {
          DestroyShape(t, p, y);
          if y == par {
            assert IsNodeAt(t, par) by { LiveParent(t, p); }
          }
        }
      }
      NeighborLocal(t, u, qpar, od);
    }
  }
}
