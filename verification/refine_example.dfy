/** A concrete run of ftt_cell_refine showing that a leaf attached by a
    neighbour cascade onto a cell the walk has already passed is not
    tested against the predicate. */
module RefineExample {
  import opened Wrappers
  import opened Directions
  import opened Tree
  import opened Neighbors
  import opened Refine

  /** Refine [1] and [1, 0]; [0, 1] would qualify too. */
  function Wanted(y: Path): bool
  {
    y == [1] || y == [1, 0] || y == [0, 1]
  }

  /** The root split once, then [1] split. */
  const T1: Cell := Node(Some(Leaf), Some(NewOct), Some(Leaf), Some(Leaf))
  /** T1 with [0] split as well. */
  const T2: Cell := Node(Some(NewOct), Some(NewOct), Some(Leaf), Some(Leaf))
  /** T2 with [1, 0] split. */
  const T3: Cell := Node(Some(NewOct), Some(Node(Some(NewOct), Some(Leaf), Some(Leaf), Some(Leaf))), Some(Leaf), Some(Leaf))

  /** Slicing facts about the short paths of the example. */
  lemma OnePaths()
    ensures forall a: ChildIx :: [a][1..] == [] && Last([a]) == a && Parent([a]) == [] && [] + [a] == [a]
  {
  }

  lemma TwoPaths()
    ensures forall a: ChildIx, b: ChildIx :: [a, b][1..] == [b] && Last([a, b]) == b && [a] + [b] == [a, b]
  {
  }

  lemma PairParent()
    ensures forall a: ChildIx, b: ChildIx :: Parent([a, b]) == [a]
  {
    forall a: ChildIx, b: ChildIx ensures Parent([a, b]) == [a] {
      assert [a, b][..1] == [a];
    }
  }

  /** ftt_cell_refine changes nothing when no child subtree changes. */
  lemma {:induction false} KidsIdle(t: Cell, p: Path, refine: Path -> bool, limit: nat, n: nat)
    requires n <= 4 && |p| < limit
    requires forall m: ChildIx :: n <= m ==> RefineWhere(t, p + [m], refine, limit).tree == t
    ensures RefineKids(t, p, refine, limit, n).tree == t
    decreases 4 - n
  {
    if n < 4 {
      KidsIdle(t, p, refine, limit, n + 1);
    }
  }

  // ---------------------------------------------------------------------
  // One step of each loop, for any tree.

  lemma NeighborsSkip(t: Cell, p: Path, d: nat)
    requires d < 4 && (Neighbor(t, p, d).None? || |Neighbor(t, p, d).value| >= |p|)
    ensures RefineNeighbors(t, p, d) == RefineNeighbors(t, p, d + 1)
  {
  }

  lemma NeighborsCoarser(t: Cell, p: Path, d: nat)
    requires d < 4 && Neighbor(t, p, d).Some? && |Neighbor(t, p, d).value| < |p|
    ensures var a := OctNew(t, Neighbor(t, p, d).value);
      var b := RefineNeighbors(a.tree, p, d + 1);
      RefineNeighbors(t, p, d) == Refined(b.tree, a.octs + b.octs)
  {
  }

  lemma OctNewLeaf(t: Cell, p: Path)
    requires IsLeafAt(t, p)
    ensures var n := RefineNeighbors(t, p, 0);
      OctNew(t, p) == Refined(Replace(n.tree, p, NewOct), n.octs + [p])
  {
  }

  lemma WalkIdle(t: Cell, p: Path, refine: Path -> bool, limit: nat)
    requires IsLeafAt(t, p) && !refine(p)
    ensures RefineWhere(t, p, refine, limit).tree == t
  {
  }

  lemma WalkLeaf(t: Cell, p: Path, refine: Path -> bool, limit: nat)
    requires |p| < limit && IsLeafAt(t, p) && refine(p)
    ensures RefineWhere(t, p, refine, limit).tree == RefineKids(OctNew(t, p).tree, p, refine, limit, 0).tree
  {
  }

  lemma WalkNode(t: Cell, p: Path, refine: Path -> bool, limit: nat)
    requires |p| < limit && IsNodeAt(t, p)
    ensures RefineWhere(t, p, refine, limit).tree == RefineKids(t, p, refine, limit, 0).tree
  {
  }

  lemma KidsStep(t: Cell, p: Path, refine: Path -> bool, limit: nat, n: nat)
    requires n < 4 && |p| < limit && Live(t, p + [n as ChildIx])
    ensures RefineKids(t, p, refine, limit, n).tree ==
      RefineKids(RefineWhere(t, p + [n as ChildIx], refine, limit).tree, p, refine, limit, n + 1).tree
  {
  }

  // ---------------------------------------------------------------------
  // The run.

  lemma NeighborsOfOne()
    ensures Neighbor(NewOct, [1], 0) == None
    ensures Neighbor(NewOct, [1], 1) == Some([0])
    ensures Neighbor(NewOct, [1], 2) == None
    ensures Neighbor(NewOct, [1], 3) == Some([3])
  {
    OnePaths();
  }

  /** [1] has no coarser neighbour. */
  lemma RefineOne()
    ensures OctNew(NewOct, [1]).tree == T1
  {
    assert RefineNeighbors(NewOct, [1], 0) == Refined(NewOct, []) by {
      NeighborsOfOne();
      NeighborsSkip(NewOct, [1], 0);
      NeighborsSkip(NewOct, [1], 1);
      NeighborsSkip(NewOct, [1], 2);
      NeighborsSkip(NewOct, [1], 3);
    }
    assert OctNew(NewOct, [1]).tree == Replace(NewOct, [1], NewOct) by {
      assert IsLeafAt(NewOct, [1]) by { OnePaths(); }
      OctNewLeaf(NewOct, [1]);
    }
    assert Replace(NewOct, [1], NewOct) == T1 by { OnePaths(); }
  }

  lemma NeighborsOfZero()
    ensures Neighbor(T1, [0], 0) == Some([1])
    ensures Neighbor(T1, [0], 1) == None
    ensures Neighbor(T1, [0], 2) == None
    ensures Neighbor(T1, [0], 3) == Some([2])
  {
    OnePaths();
  }

  /** [0] has no coarser neighbour either. */
  lemma RefineZero()
    ensures OctNew(T1, [0]) == Refined(T2, [[0]])
  {
    assert RefineNeighbors(T1, [0], 0) == Refined(T1, []) by {
      NeighborsOfZero();
      NeighborsSkip(T1, [0], 0);
      NeighborsSkip(T1, [0], 1);
      NeighborsSkip(T1, [0], 2);
      NeighborsSkip(T1, [0], 3);
    }
    assert OctNew(T1, [0]) == Refined(Replace(T1, [0], NewOct), [] + [[0]]) by {
      assert IsLeafAt(T1, [0]) by { OnePaths(); }
      OctNewLeaf(T1, [0]);
    }
    assert Replace(T1, [0], NewOct) == T2 by { OnePaths(); }
    assert [] + [[0]] == [[0]];
  }

  lemma LateNeighborsFacts()
    ensures Neighbor(T2, [1, 0], 2) == None
    ensures Neighbor(T2, [1, 0], 3) == Some([1, 2])
  {
    OnePaths();
    assert Parent([1, 0]) + [2] == [1, 2];
  }

  /** Above and below [1, 0] nothing is coarser. */
  lemma LateNeighborsOfOneZero()
    ensures RefineNeighbors(T2, [1, 0], 2) == Refined(T2, [])
  {
    LateNeighborsFacts();
    NeighborsSkip(T2, [1, 0], 2);
    NeighborsSkip(T2, [1, 0], 3);
  }

  lemma SiblingOfOneZero()
    ensures Neighbor(T1, [1, 0], 0) == Some([1, 1])
  {
    OnePaths();
    assert Parent([1, 0]) + [1] == [1, 1];
  }

  lemma LeftOfOneZero()
    ensures Neighbor(T1, [1, 0], 1) == Some([0])
  {
    OnePaths();
  }

  /** The left neighbour of [1, 0] is the coarser leaf [0], refined first. */
  lemma NeighborsOfOneZero()
    ensures RefineNeighbors(T1, [1, 0], 0) == Refined(T2, [[0]])
  {
    assert RefineNeighbors(T1, [1, 0], 0) == RefineNeighbors(T1, [1, 0], 1) by {
      SiblingOfOneZero();
      NeighborsSkip(T1, [1, 0], 0);
    }
    assert RefineNeighbors(T1, [1, 0], 1) == Refined(T2, [[0]] + []) by {
      LeftOfOneZero();
      NeighborsCoarser(T1, [1, 0], 1);
      RefineZero();
      LateNeighborsOfOneZero();
    }
    assert [[0]] + [] == [[0]];
  }

  lemma RefineOneZero()
    ensures OctNew(T1, [1, 0]).tree == T3
  {
    assert OctNew(T1, [1, 0]).tree == Replace(RefineNeighbors(T1, [1, 0], 0).tree, [1, 0], NewOct) by {
      assert IsLeafAt(T1, [1, 0]) by { OnePaths(); }
      OctNewLeaf(T1, [1, 0]);
    }
    NeighborsOfOneZero();
    assert Replace(T2, [1, 0], NewOct) == T3 by { OnePaths(); }
  }

  lemma WalkOneZero()
    ensures RefineWhere(T1, [1, 0], Wanted, 3).tree == T3
  {
    assert RefineWhere(T1, [1, 0], Wanted, 3).tree == RefineKids(OctNew(T1, [1, 0]).tree, [1, 0], Wanted, 3, 0).tree by {
      assert IsLeafAt(T1, [1, 0]) by { OnePaths(); }
      WalkLeaf(T1, [1, 0], Wanted, 3);
    }
    RefineOneZero();
    KidsIdle(T3, [1, 0], Wanted, 3, 0);
  }

  lemma KidsOfOne()
    ensures RefineKids(T1, [1], Wanted, 3, 0).tree == T3
  {
    assert RefineKids(T1, [1], Wanted, 3, 0).tree ==
      RefineKids(RefineWhere(T1, [1, 0], Wanted, 3).tree, [1], Wanted, 3, 1).tree by {
      assert [1] + [0] == [1, 0];
      assert Live(T1, [1, 0]) by { OnePaths(); }
      KidsStep(T1, [1], Wanted, 3, 0);
    }
    WalkOneZero();
    LaterKidsOfOne();
  }

  lemma LaterKidsOfOne()
    ensures RefineKids(T3, [1], Wanted, 3, 1).tree == T3
  {
    forall m: ChildIx | 1 <= m ensures RefineWhere(T3, [1] + [m], Wanted, 3).tree == T3 {
      assert [1] + [m] == [1, m];
      assert IsLeafAt(T3, [1, m]) by {
        var k3 := Node(Some(NewOct), Some(Leaf), Some(Leaf), Some(Leaf));
        assert Slot(T3, 1) == Some(k3);
        assert [1, m][1..] == [m];
        assert Get(T3, [1, m]) == Get(k3, [m]);
        assert Slot(k3, m) == Some(Leaf);
        assert [m][1..] == [];
        assert Get(k3, [m]) == Get(Leaf, []);
      }
      assert !Wanted([1, m]) by {
        assert [1, m][1] != [1, 0][1];
        assert |[1, m]| != |[1]|;
        assert [1, m][0] != [0, 1][0];
      }
      WalkIdle(T3, [1, m], Wanted, 3);
    }
    KidsIdle(T3, [1], Wanted, 3, 1);
  }

  lemma WalkOne()
    ensures RefineWhere(NewOct, [1], Wanted, 3).tree == T3
  {
    assert RefineWhere(NewOct, [1], Wanted, 3).tree == RefineKids(OctNew(NewOct, [1]).tree, [1], Wanted, 3, 0).tree by {
      assert IsLeafAt(NewOct, [1]) by { OnePaths(); }
      WalkLeaf(NewOct, [1], Wanted, 3);
    }
    RefineOne();
    KidsOfOne();
  }

  /** A leaf created by a neighbour cascade behind the walk is not
      tested: refining [1]
      and then [1, 0] first refines the coarser left neighbour [0], whose
      child [0, 1] satisfies the predicate but stays a leaf, because the
      walk has already passed [0]. */
  lemma CascadedLeafUntested()
    ensures var r := RefineWhere(NewOct, [], Wanted, 3);
      Wanted([0, 1]) && IsLeafAt(r.tree, [0, 1])
  {
    assert RefineWhere(NewOct, [], Wanted, 3).tree == RefineKids(NewOct, [], Wanted, 3, 0).tree by {
      assert IsNodeAt(NewOct, []);
      WalkNode(NewOct, [], Wanted, 3);
    }
    RootKids();
    assert IsLeafAt(T3, [0, 1]) by { OnePaths(); }
  }

  /** The walk from the root: [0] is skipped, [1] is refined (with [0]
      cascaded) and [2], [3] stay untouched. */
  lemma RootKids()
    ensures RefineKids(NewOct, [], Wanted, 3, 0).tree == T3
  {
    assert RefineKids(NewOct, [], Wanted, 3, 0).tree ==
      RefineKids(RefineWhere(NewOct, [0], Wanted, 3).tree, [], Wanted, 3, 1).tree by {
      assert [] + [0] == [0];
      assert Live(NewOct, [0]) by { OnePaths(); }
      KidsStep(NewOct, [], Wanted, 3, 0);
    }
    assert RefineWhere(NewOct, [0], Wanted, 3).tree == NewOct by {
      assert IsLeafAt(NewOct, [0]) by { OnePaths(); }
      WalkIdle(NewOct, [0], Wanted, 3);
    }
    RootKidsFromOne();
  }

  lemma RootKidsFromOne()
    ensures RefineKids(NewOct, [], Wanted, 3, 1).tree == T3
  {
    assert RefineKids(NewOct, [], Wanted, 3, 1).tree ==
      RefineKids(RefineWhere(NewOct, [1], Wanted, 3).tree, [], Wanted, 3, 2).tree by {
      assert [] + [1] == [1];
      assert Live(NewOct, [1]) by { OnePaths(); }
      KidsStep(NewOct, [], Wanted, 3, 1);
    }
    WalkOne();
    RootKidsFromTwo();
  }

  lemma RootKidsFromTwo()
    ensures RefineKids(T3, [], Wanted, 3, 2).tree == T3
  {
    forall m: ChildIx | 2 <= m ensures RefineWhere(T3, [] + [m], Wanted, 3).tree == T3 {
      assert IsLeafAt(T3, [] + [m]) by { OnePaths(); }
      assert !Wanted([] + [m]) by { OnePaths(); }
      WalkIdle(T3, [] + [m], Wanted, 3);
    }
    KidsIdle(T3, [], Wanted, 3, 2);
  }
}
