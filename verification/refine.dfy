/** Refinement of src/ftt.c: oct_new (with neighbour checking),
    ftt_cell_refine_single and the predicate-driven ftt_cell_refine. */
module Refine {
  import opened Wrappers
  import opened Directions
  import opened Tree
  import opened Neighbors

  /** u grows t by refinement only: live cells stay live, nodes stay
      nodes, and a child slot of a node of u is live exactly when it was
      live in t or its parent was not yet a node of t (a fresh oct has no
      destroyed child). */
  ghost predicate Extends(t: Cell, u: Cell)
  {
    (forall y :: Live(t, y) ==> Live(u, y)) &&
    (forall y :: IsNodeAt(t, y) ==> IsNodeAt(u, y)) &&
    (forall y :: y != [] && IsNodeAt(u, Parent(y)) ==>
      (Live(u, y) <==> Live(t, y) || !IsNodeAt(t, Parent(y))))
  }

  lemma ExtendsRefl(t: Cell)
    ensures Extends(t, t)
  {
  }

  lemma ExtendsTrans(t: Cell, u: Cell, w: Cell)
    requires Extends(t, u) && Extends(u, w)
    ensures Extends(t, w)
  {
  }

  /** Giving the leaf at q a fresh oct (the tree surgery of oct_new). */
  lemma LeafRefineExtends(t: Cell, q: Path)
    requires IsLeafAt(t, q)
    ensures var u := Replace(t, q, NewOct);
      Grows(t, Refined(u, [q])) && IsNodeAt(u, q) &&
      (forall n: ChildIx :: Get(u, q + [n]) == Some(Leaf))
  {
    var u := Replace(t, q, NewOct);
    forall y ensures (Live(t, y) ==> Live(u, y)) && (IsNodeAt(t, y) ==> IsNodeAt(u, y))
      && (IsNodeAt(u, y) && !IsNodeAt(t, y) <==> y == q)
      && (Live(u, y) && !Live(t, y) ==> y != [] && Parent(y) == q)
    {
      GetReplace(t, q, NewOct, y);
      if IsPrefix(q, y) && y != q {
        var z := y[|q|..];
        assert z != [];
        if Live(t, y) {
          LivePrefix(t, y, q);
        }
        if |z| >= 2 {
          assert Get(NewOct, z) == Get(Leaf, z[1..]);
        } else {
          assert y == q + [z[0]];
        }
      }
      if IsPrefix(q, y) && y == q {
        assert y[|q|..] == [];
      }
    }
    forall y | y != [] && IsNodeAt(u, Parent(y))
      ensures Live(u, y) <==> Live(t, y) || !IsNodeAt(t, Parent(y))
    {
      GetParent(t, y);
      GetParent(u, y);
      GetReplace(t, q, NewOct, Parent(y));
      GetReplace(t, q, NewOct, y);
      if IsPrefix(q, Parent(y)) {
        if Parent(y) != q {
          assert Parent(y)[|q|..] != [];
          LivePrefix(t, Parent(y), q);
        }
        assert IsPrefix(q, y);
        assert y[|q|..] == [Last(y)];
      } else if IsPrefix(q, y) {
        assert y == q;
      } else if IsPrefix(y, q) {
      } else {
        assert !IsPrefix(Parent(y), q) || Parent(y) == q[..|Parent(y)|];
      }
    }
    forall n: ChildIx ensures Get(u, q + [n]) == Some(Leaf) {
      GetReplace(t, q, NewOct, q + [n]);
      assert (q + [n])[..|q|] == q;
      assert (q + [n])[|q|..] == [n];
    }
    CountReplace(t, q, NewOct);
  }

  /** Refinement only makes neighbours finer: a missing neighbour stays
      missing and a found one is replaced by itself or a descendant. */
  lemma {:induction false} NeighborMonotone(t: Cell, u: Cell, x: Path, d: Dir)
    requires Extends(t, u) && Live(t, x)
    ensures Neighbor(t, x, d).None? ==> Neighbor(u, x, d).None?
    ensures Neighbor(t, x, d).Some? ==>
      Neighbor(u, x, d).Some? && IsPrefix(Neighbor(t, x, d).value, Neighbor(u, x, d).value)
    decreases |x|
  {
    if x != [] {
      LiveParent(t, x);
      if NeighborIndex(d, Last(x)) >= 0 {
        MonoSibling(t, u, x, d);
      } else {
        NeighborMonotone(t, u, Parent(x), d);
        var r := Neighbor(t, Parent(x), d);
        if r.None? {
          MonoNone(t, u, x, d);
        } else if IsNodeAt(t, r.value) {
          MonoThroughNode(t, u, x, d);
        } else {
          MonoThroughLeaf(t, u, x, d);
        }
      }
    }
  }

  lemma MonoSibling(t: Cell, u: Cell, x: Path, d: Dir)
    requires Extends(t, u) && x != [] && IsNodeAt(t, Parent(x)) && NeighborIndex(d, Last(x)) >= 0
    ensures Neighbor(u, x, d) == Neighbor(t, x, d)
  {
    var c := Parent(x) + [NeighborIndex(d, Last(x)) as ChildIx];
    assert Parent(c) == Parent(x);
  }

  lemma MonoNone(t: Cell, u: Cell, x: Path, d: Dir)
    requires x != [] && NeighborIndex(d, Last(x)) < 0
    requires Neighbor(t, Parent(x), d).None? && Neighbor(u, Parent(x), d).None?
    ensures Neighbor(t, x, d).None? && Neighbor(u, x, d).None?
  {
  }

  /** Across a parent's neighbour that already had children nothing
      changes but what refinement keeps. */
  lemma MonoThroughNode(t: Cell, u: Cell, x: Path, d: Dir)
    requires Extends(t, u) && x != [] && NeighborIndex(d, Last(x)) < 0
    requires Neighbor(t, Parent(x), d).Some? && IsNodeAt(t, Neighbor(t, Parent(x), d).value)
    requires Neighbor(u, Parent(x), d).Some?
    requires IsPrefix(Neighbor(t, Parent(x), d).value, Neighbor(u, Parent(x), d).value)
    ensures Neighbor(u, x, d) == Neighbor(t, x, d)
  {
    var q := Neighbor(t, Parent(x), d).value;
    NeighborIndexRange(d, Last(x));
    PrefixOfShorter(q, Neighbor(u, Parent(x), d).value);
    var c := q + [Mirror(NeighborIndex(d, Last(x)))];
    assert Parent(c) == q;
  }

  /** Across a parent's neighbour that was a leaf the neighbour can only
      move down. */
  lemma MonoThroughLeaf(t: Cell, u: Cell, x: Path, d: Dir)
    requires Extends(t, u) && x != [] && NeighborIndex(d, Last(x)) < 0
    requires Neighbor(t, Parent(x), d).Some? && !IsNodeAt(t, Neighbor(t, Parent(x), d).value)
    requires Neighbor(u, Parent(x), d).Some?
    requires IsPrefix(Neighbor(t, Parent(x), d).value, Neighbor(u, Parent(x), d).value)
    ensures Neighbor(t, x, d) == Neighbor(t, Parent(x), d)
    ensures Neighbor(u, x, d).Some? && IsPrefix(Neighbor(t, x, d).value, Neighbor(u, x, d).value)
  {
    var q := Neighbor(t, Parent(x), d).value;
    var q' := Neighbor(u, Parent(x), d).value;
    NeighborIndexRange(d, Last(x));
    if IsNodeAt(u, q') {
      var c := q' + [Mirror(NeighborIndex(d, Last(x)))];
      assert Parent(c) == q';
      assert !IsNodeAt(t, q') by {
        if q' != q && Live(t, q') {
          LivePrefix(t, q', q);
        }
      }
      assert Live(u, c);
      assert c[..|q|] == q;
    }
  }

  /** The neighbour in direction d is missing or at most one level
      coarser (the 2:1 balance that refinement maintains). */
  predicate Balanced(t: Cell, p: Path, d: Dir)
  {
    Neighbor(t, p, d).None? || |Neighbor(t, p, d).value| + 1 >= |p|
  }

  /** The neighbour in direction d is missing or at the level of p. */
  predicate LevelNeighbor(t: Cell, p: Path, d: Dir)
  {
    Neighbor(t, p, d).None? || |Neighbor(t, p, d).value| == |p|
  }

  lemma NeighborLevelsStay(t: Cell, u: Cell, p: Path, d: Dir)
    requires Extends(t, u) && Live(t, p)
    ensures Balanced(t, p, d) ==> Balanced(u, p, d)
    ensures LevelNeighbor(t, p, d) ==> LevelNeighbor(u, p, d)
  {
    NeighborMonotone(t, u, p, d);
  }

  /** Once the coarser neighbour of p (one level up) has children, the
      neighbour of p is the mirrored child, at the level of p. */
  lemma CoarserNeighborRefined(t: Cell, u: Cell, p: Path, d: Dir)
    requires Extends(t, u) && Live(t, p)
    requires Neighbor(t, p, d).Some? && |Neighbor(t, p, d).value| + 1 == |p|
    requires IsNodeAt(u, Neighbor(t, p, d).value)
    ensures SameLevel(u, p, d)
  {
    var q := Neighbor(t, p, d).value;
    var nn := NeighborIndex(d, Last(p));
    NeighborIndexRange(d, Last(p));
    CoarserViaParent(t, p, d);
    LiveParent(t, p);
    ParentNeighborKept(t, u, Parent(p), d);
    FreshChildLive(t, u, q, Mirror(nn));
    NeighborThroughParent(u, p, d, q);
  }

  /** A coarser neighbour that is a leaf of t is still the neighbour in u. */
  lemma ParentNeighborKept(t: Cell, u: Cell, x: Path, d: Dir)
    requires Extends(t, u) && Live(t, x)
    requires Neighbor(t, x, d).Some? && |Neighbor(t, x, d).value| == |x|
    ensures Neighbor(u, x, d) == Neighbor(t, x, d)
  {
    NeighborMonotone(t, u, x, d);
    PrefixOfShorter(Neighbor(t, x, d).value, Neighbor(u, x, d).value);
  }

  lemma PrefixOfShorter(a: Path, b: Path)
    requires IsPrefix(a, b) && |b| <= |a|
    ensures b == a
  {
    assert b == b[..|a|];
  }

  /** A leaf of t that u has refined has every child live in u. */
  lemma FreshChildLive(t: Cell, u: Cell, q: Path, m: ChildIx)
    requires Extends(t, u) && IsLeafAt(t, q) && IsNodeAt(u, q)
    ensures Live(u, q + [m])
  {
    var c := q + [m];
    assert Parent(c) == q;
  }

  /** A coarser neighbour is the parent's neighbour, a leaf, reached
      across the parent's face. */
  lemma CoarserViaParent(t: Cell, p: Path, d: Dir)
    requires Neighbor(t, p, d).Some? && |Neighbor(t, p, d).value| + 1 == |p|
    ensures NeighborIndex(d, Last(p)) < 0
    ensures Neighbor(t, Parent(p), d) == Neighbor(t, p, d)
    ensures IsLeafAt(t, Neighbor(t, p, d).value)
  {
  }

  /** Across the parent's face, a neighbour of the parent that has
      children leads to the mirrored child. */
  lemma NeighborThroughParent(u: Cell, p: Path, d: Dir, q: Path)
    requires p != [] && NeighborIndex(d, Last(p)) < 0
    requires Neighbor(u, Parent(p), d) == Some(q) && IsNodeAt(u, q)
    requires Live(u, q + [Mirror(NeighborIndex(d, Last(p)))])
    ensures Neighbor(u, p, d) == Some(q + [Mirror(NeighborIndex(d, Last(p)))])
    ensures SameLevel(u, p, d)
  {
  }

  // ---------------------------------------------------------------------
  // oct_new and ftt_cell_refine_single.

  /** A tree after refinement, with the cells that received an oct in the
      order oct_new attached them (init runs on the four children of each). */
  datatype Refined = Refined(tree: Cell, octs: seq<Path>)

  /** oct_new (p, TRUE, ...) on a leaf, as called by
      ftt_cell_refine_single: every coarser neighbour of p is refined
      first, direction by direction, then p receives four leaf children.
      On a cell that is not a live leaf nothing happens. */
  function OctNew(t: Cell, p: Path): (r: Refined)
    decreases |p|, 1
  {
    if !IsLeafAt(t, p) then Refined(t, [])
    else
      var n := RefineNeighbors(t, p, 0);
      Refined(Replace(n.tree, p, NewOct), n.octs + [p])
  }

  /** The neighbour loop of oct_new from direction d on. */
  function RefineNeighbors(t: Cell, p: Path, d: nat): (r: Refined)
    requires d <= 4
    decreases |p|, 0, 4 - d
  {
    if d == 4 then Refined(t, [])
    else
      var nb := Neighbor(t, p, d);
      if nb.Some? && |nb.value| < |p| then
        var a := OctNew(t, nb.value);
        var b := RefineNeighbors(a.tree, p, d + 1);
        Refined(b.tree, a.octs + b.octs)
      else RefineNeighbors(t, p, d + 1)
  }

  /** What a refinement step guarantees about the cells it touches: the
      tree only grows, the cells that gained children are exactly the
      listed octs, every new cell is a child of one of them, and each oct
      adds four cells. */
  ghost predicate Grows(t: Cell, r: Refined)
  {
    Extends(t, r.tree) &&
    (forall y :: IsNodeAt(r.tree, y) && !IsNodeAt(t, y) <==> y in r.octs) &&
    (forall y :: Live(r.tree, y) && !Live(t, y) ==> y != [] && Parent(y) in r.octs) &&
    Count(r.tree) == Count(t) + 4 * |r.octs|
  }

  lemma GrowsTrans(t: Cell, a: Refined, b: Refined)
    requires Grows(t, a) && Grows(a.tree, b)
    ensures Grows(t, Refined(b.tree, a.octs + b.octs))
  {
    ExtendsTrans(t, a.tree, b.tree);
  }

  lemma {:induction false} OctNewSpec(t: Cell, p: Path)
    requires IsLeafAt(t, p)
    ensures var r := OctNew(t, p);
      Grows(t, r) && IsNodeAt(r.tree, p) &&
      r.octs != [] && r.octs[|r.octs| - 1] == p &&
      (forall i :: 0 <= i < |r.octs| - 1 ==> |r.octs[i]| < |p|) &&
      (forall n: ChildIx :: Get(r.tree, p + [n]) == Some(Leaf))
    decreases |p|, 1
  {
    var n := RefineNeighbors(t, p, 0);
    RefineNeighborsGrows(t, p, 0);
    var u := Replace(n.tree, p, NewOct);
    LeafRefineExtends(n.tree, p);
    GrowsTrans(t, n, Refined(u, [p]));
  }

  lemma {:induction false} RefineNeighborsGrows(t: Cell, p: Path, d: nat)
    requires IsLeafAt(t, p) && d <= 4
    ensures var r := RefineNeighbors(t, p, d);
      Grows(t, r) && IsLeafAt(r.tree, p) &&
      (forall i :: 0 <= i < |r.octs| ==> |r.octs[i]| < |p|)
    decreases |p|, 0, 4 - d, 1
  {
    if d == 4 {
      assert RefineNeighbors(t, p, d) == Refined(t, []);
      GrowsRefl(t);
    } else if Neighbor(t, p, d).Some? && |Neighbor(t, p, d).value| < |p| {
      CoarserGrows(t, p, d);
    } else {
      SkipGrows(t, p, d);
    }
  }

  /** A direction without a coarser neighbour adds nothing. */
  lemma {:induction false} SkipGrows(t: Cell, p: Path, d: Dir)
    requires IsLeafAt(t, p)
    requires !(Neighbor(t, p, d).Some? && |Neighbor(t, p, d).value| < |p|)
    ensures var r := RefineNeighbors(t, p, d);
      Grows(t, r) && IsLeafAt(r.tree, p) &&
      (forall i :: 0 <= i < |r.octs| ==> |r.octs[i]| < |p|)
    decreases |p|, 0, 4 - d, 0
  {
    assert RefineNeighbors(t, p, d) == RefineNeighbors(t, p, d + 1);
    RefineNeighborsGrows(t, p, d + 1);
  }

  /** The coarser neighbour is refined first; p stays a leaf because
      every oct created on the way is shallower than p. */
  lemma {:induction false} CoarserGrows(t: Cell, p: Path, d: Dir)
    requires IsLeafAt(t, p)
    requires Neighbor(t, p, d).Some? && |Neighbor(t, p, d).value| < |p|
    ensures var r := RefineNeighbors(t, p, d);
      Grows(t, r) && IsLeafAt(r.tree, p) &&
      (forall i :: 0 <= i < |r.octs| ==> |r.octs[i]| < |p|)
    decreases |p|, 0, 4 - d, 0
  {
    var nb := Neighbor(t, p, d).value;
    var a := OctNew(t, nb);
    OctNewSpec(t, nb);
    StaysLeaf(t, a, p);
    var b := RefineNeighbors(a.tree, p, d + 1);
    RefineNeighborsGrows(a.tree, p, d + 1);
    GrowsTrans(t, a, b);
    assert RefineNeighbors(t, p, d) == Refined(b.tree, a.octs + b.octs);
  }

  /** A leaf that is not among the new octs is still a leaf. */
  lemma StaysLeaf(t: Cell, r: Refined, p: Path)
    requires Grows(t, r) && IsLeafAt(t, p) && p !in r.octs
    ensures IsLeafAt(r.tree, p)
  {
    assert Live(r.tree, p);
    assert !IsNodeAt(r.tree, p);
  }

  /** oct_new refines every coarser neighbour before attaching the
      children, so in a 2:1 balanced neighbourhood the neighbours of the
      refined cell end up at its own level. */
  lemma OctNewLevelsNeighbors(t: Cell, p: Path)
    requires IsLeafAt(t, p)
    requires forall d: Dir :: Balanced(t, p, d)
    ensures forall d: Dir :: LevelNeighbor(OctNew(t, p).tree, p, d)
  {
    var n := RefineNeighbors(t, p, 0);
    RefineNeighborsGrows(t, p, 0);
    RefineNeighborsLevels(t, p, 0);
    var u := Replace(n.tree, p, NewOct);
    LeafRefineExtends(n.tree, p);
    forall d: Dir ensures LevelNeighbor(u, p, d) {
      NeighborLevelsStay(n.tree, u, p, d);
    }
  }

  lemma {:induction false} RefineNeighborsLevels(t: Cell, p: Path, d: nat)
    requires IsLeafAt(t, p) && d <= 4
    requires forall e: Dir :: d <= e ==> Balanced(t, p, e)
    ensures forall e: Dir :: d <= e ==> LevelNeighbor(RefineNeighbors(t, p, d).tree, p, e)
    decreases 4 - d, 1
  {
    if d < 4 {
      if Neighbor(t, p, d).Some? && |Neighbor(t, p, d).value| < |p| {
        CoarserLevels(t, p, d);
      } else {
        var b := RefineNeighbors(t, p, d + 1);
        assert RefineNeighbors(t, p, d) == b;
        assert forall e: Dir :: d + 1 <= e ==> LevelNeighbor(b.tree, p, e) by {
          RefineNeighborsLevels(t, p, d + 1);
        }
        assert LevelNeighbor(b.tree, p, d) by {
          NeighborsExtend(t, p, d + 1);
          NeighborLevelsStay(t, b.tree, p, d);
        }
      }
    }
  }

  /** The neighbour loop only extends the tree and leaves p a leaf. */
  lemma NeighborsExtend(t: Cell, p: Path, d: nat)
    requires IsLeafAt(t, p) && d <= 4
    ensures Extends(t, RefineNeighbors(t, p, d).tree) && IsLeafAt(RefineNeighbors(t, p, d).tree, p)
  {
    RefineNeighborsGrows(t, p, d);
  }

  lemma {:induction false} CoarserLevels(t: Cell, p: Path, d: Dir)
    requires IsLeafAt(t, p)
    requires Neighbor(t, p, d).Some? && |Neighbor(t, p, d).value| < |p|
    requires forall e: Dir :: d <= e ==> Balanced(t, p, e)
    ensures forall e: Dir :: d <= e ==> LevelNeighbor(RefineNeighbors(t, p, d).tree, p, e)
    decreases 4 - d, 0
  {
    var nb := Neighbor(t, p, d).value;
    var a := OctNew(t, nb);
    assert Extends(t, a.tree) && IsLeafAt(a.tree, p) && IsNodeAt(a.tree, nb) by {
      OctNewExtends(t, p, d);
    }
    var b := RefineNeighbors(a.tree, p, d + 1);
    assert RefineNeighbors(t, p, d).tree == b.tree;
    assert forall e: Dir :: d < e ==> Balanced(a.tree, p, e) by {
      forall e: Dir | d < e ensures Balanced(a.tree, p, e) {
        NeighborLevelsStay(t, a.tree, p, e);
      }
    }
    assert forall e: Dir :: d + 1 <= e ==> LevelNeighbor(b.tree, p, e) by {
      RefineNeighborsLevels(a.tree, p, d + 1);
    }
    assert LevelNeighbor(a.tree, p, d) by {
      assert Balanced(t, p, d);
      CoarserNeighborRefined(t, a.tree, p, d);
    }
    assert LevelNeighbor(b.tree, p, d) by {
      NeighborsExtend(a.tree, p, d + 1);
      NeighborLevelsStay(a.tree, b.tree, p, d);
    }
  }

  /** Refining the coarser neighbour first extends the tree, gives that
      neighbour children and leaves p a leaf. */
  lemma OctNewExtends(t: Cell, p: Path, d: Dir)
    requires IsLeafAt(t, p)
    requires Neighbor(t, p, d).Some? && |Neighbor(t, p, d).value| < |p|
    ensures var a := OctNew(t, Neighbor(t, p, d).value);
      Extends(t, a.tree) && IsLeafAt(a.tree, p) && IsNodeAt(a.tree, Neighbor(t, p, d).value)
  {
    var nb := Neighbor(t, p, d).value;
    var a := OctNew(t, nb);
    OctNewSpec(t, nb);
    StaysLeaf(t, a, p);
  }

  // ---------------------------------------------------------------------
  // ftt_cell_refine: refinement driven by a predicate.

  /** The outcome of ftt_cell_refine: the tree, every oct attached in
      order, and those among them that were attached only because a
      neighbour needed them (a cascade of oct_new). */
  datatype RefineOut = RefineOut(tree: Cell, octs: seq<Path>, cascaded: seq<Path>)

  function Cascade(a: Refined): seq<Path>
  {
    if a.octs == [] then [] else a.octs[..|a.octs| - 1]
  }

  /** ftt_cell_refine (p, refine, ...): a leaf for which refine holds is
      refined (with its coarser neighbours), then every live child is
      treated the same way, in child order.  The predicate is taken to be
      false from level limit on, which bounds the recursion. */
  function RefineWhere(t: Cell, p: Path, refine: Path -> bool, limit: nat): (r: RefineOut)
    decreases limit - |p|, 1
  {
    if |p| >= limit || !Live(t, p) || (IsLeafAt(t, p) && !refine(p)) then RefineOut(t, [], [])
    else
      var a := if IsLeafAt(t, p) then OctNew(t, p) else Refined(t, []);
      var k := RefineKids(a.tree, p, refine, limit, 0);
      RefineOut(k.tree, a.octs + k.octs, Cascade(a) + k.cascaded)
  }

  function RefineKids(t: Cell, p: Path, refine: Path -> bool, limit: nat, n: nat): (r: RefineOut)
    requires n <= 4 && |p| < limit
    decreases limit - |p|, 0, 4 - n
  {
    if n == 4 then RefineOut(t, [], [])
    else if Live(t, p + [n as ChildIx]) then
      var b := RefineWhere(t, p + [n as ChildIx], refine, limit);
      var c := RefineKids(b.tree, p, refine, limit, n + 1);
      RefineOut(c.tree, b.octs + c.octs, b.cascaded + c.cascaded)
    else RefineKids(t, p, refine, limit, n + 1)
  }

  /** y lies in the subtree of the child n, n+1, ... of p. */
  predicate Under(p: Path, n: nat, y: Path)
  {
    IsPrefix(p, y) && |y| > |p| && y[|p|] >= n
  }

  /** The octs attached on the predicate's account lie below the children
      n, n+1, ... of p. */
  ghost predicate ChosenUnder(r: RefineOut, p: Path, n: nat)
  {
    forall o :: o in r.octs && o !in r.cascaded ==> Under(p, n, o)
  }

  /** A leaf below the children n, n+1, ... of p for which refine still
      holds is a child of a cascaded oct. */
  ghost predicate LeftUnder(r: RefineOut, p: Path, n: nat, refine: Path -> bool, limit: nat)
  {
    forall y :: Under(p, n, y) && |y| < limit && refine(y) && IsLeafAt(r.tree, y) ==>
      Parent(y) in r.cascaded
  }

  ghost predicate RefineOk(t: Cell, r: RefineOut)
  {
    Grows(t, Refined(r.tree, r.octs)) && (forall o :: o in r.cascaded ==> o in r.octs)
  }

  lemma GrowsRefl(t: Cell)
    ensures Grows(t, Refined(t, []))
  {
    ExtendsRefl(t);
  }

  /** ftt_cell_refine tests every leaf it reaches: the octs it attaches on
      its own account lie in the subtree of p, and a leaf of that subtree
      for which refine still holds afterwards is a child of an oct that a
      neighbour cascade attached. */
  lemma {:induction false} RefineWhereSpec(t: Cell, p: Path, refine: Path -> bool, limit: nat)
    ensures var r := RefineWhere(t, p, refine, limit);
      RefineOk(t, r) &&
      (forall o :: o in r.octs && o !in r.cascaded ==> IsPrefix(p, o)) &&
      (forall y :: IsPrefix(p, y) && |y| < limit && refine(y) && IsLeafAt(r.tree, y) ==>
        y != [] && Parent(y) in r.cascaded)
    decreases limit - |p|, 1
  {
    if |p| >= limit || !Live(t, p) || (IsLeafAt(t, p) && !refine(p)) {
      GrowsRefl(t);
      forall y | IsPrefix(p, y) && Live(t, y) && |p| < limit && y != p
        ensures IsNodeAt(t, p)
      {
        LivePrefix(t, y, p);
      }
    } else {
      RefineWhereStep(t, p, refine, limit);
    }
  }

  lemma {:induction false} RefineWhereStep(t: Cell, p: Path, refine: Path -> bool, limit: nat)
    requires |p| < limit && Live(t, p) && (IsLeafAt(t, p) ==> refine(p))
    ensures var r := RefineWhere(t, p, refine, limit);
      RefineOk(t, r) &&
      (forall o :: o in r.octs && o !in r.cascaded ==> IsPrefix(p, o)) &&
      (forall y :: IsPrefix(p, y) && |y| < limit && refine(y) && IsLeafAt(r.tree, y) ==>
        y != [] && Parent(y) in r.cascaded)
    decreases limit - |p|, 0, 5
  {
    var a := if IsLeafAt(t, p) then OctNew(t, p) else Refined(t, []);
    if IsLeafAt(t, p) {
      OctNewSpec(t, p);
    } else {
      GrowsRefl(t);
    }
    assert IsNodeAt(a.tree, p);
    var k := RefineKids(a.tree, p, refine, limit, 0);
    RefineKidsSpec(a.tree, p, refine, limit, 0);
    GrowsTrans(t, a, Refined(k.tree, k.octs));
    var r := RefineWhere(t, p, refine, limit);
    assert r == RefineOut(k.tree, a.octs + k.octs, Cascade(a) + k.cascaded);
    StepChosen(p, a, k);
    assert !IsLeafAt(k.tree, p);
    StepLeft(p, k, Cascade(a), refine, limit);
  }

  /** The octs of one step that were not cascades lie below p: the last
      oct of OctNew is p itself, the others come from the children. */
  lemma StepChosen(p: Path, a: Refined, k: RefineOut)
    requires a.octs == [] || a.octs[|a.octs| - 1] == p
    requires ChosenUnder(k, p, 0)
    ensures forall o :: o in a.octs + k.octs && o !in Cascade(a) + k.cascaded ==> IsPrefix(p, o)
  {
    forall o | o in a.octs + k.octs && o !in Cascade(a) + k.cascaded ensures IsPrefix(p, o) {
      if o in a.octs {
        var i :| 0 <= i < |a.octs| && a.octs[i] == o;
        assert i == |a.octs| - 1;
      }
    }
  }

  /** A leaf of the subtree of p (a node) left for refine is a child of a
      cascaded oct. */
  lemma StepLeft(p: Path, k: RefineOut, before: seq<Path>, refine: Path -> bool, limit: nat)
    requires !IsLeafAt(k.tree, p)
    requires LeftUnder(k, p, 0, refine, limit)
    ensures forall y :: IsPrefix(p, y) && |y| < limit && refine(y) && IsLeafAt(k.tree, y) ==>
      y != [] && Parent(y) in before + k.cascaded
  {
    forall y | IsPrefix(p, y) && |y| < limit && refine(y) && IsLeafAt(k.tree, y)
      ensures y != [] && Parent(y) in before + k.cascaded
    {
      assert y != p;
      assert Under(p, 0, y);
    }
  }

  lemma {:induction false} RefineKidsSpec(t: Cell, p: Path, refine: Path -> bool, limit: nat, n: nat)
    requires n <= 4 && |p| < limit && IsNodeAt(t, p)
    ensures var r := RefineKids(t, p, refine, limit, n);
      RefineOk(t, r) && ChosenUnder(r, p, n) && LeftUnder(r, p, n, refine, limit)
    decreases limit - |p|, 0, 4 - n
  {
    if n == 4 {
      GrowsRefl(t);
    } else if Live(t, p + [n as ChildIx]) {
      RefineKidsLive(t, p, refine, limit, n);
    } else {
      RefineKidsDead(t, p, refine, limit, n);
    }
  }

  lemma {:induction false} RefineKidsLive(t: Cell, p: Path, refine: Path -> bool, limit: nat, n: nat)
    requires n < 4 && |p| < limit && IsNodeAt(t, p) && Live(t, p + [n as ChildIx])
    ensures var r := RefineKids(t, p, refine, limit, n);
      RefineOk(t, r) && ChosenUnder(r, p, n) && LeftUnder(r, p, n, refine, limit)
    decreases limit - |p|, 0, 4 - n, 0
  {
    var x := p + [n as ChildIx];
    var b := RefineWhere(t, x, refine, limit);
    RefineWhereSpec(t, x, refine, limit);
    var c := RefineKids(b.tree, p, refine, limit, n + 1);
    RefineKidsSpec(b.tree, p, refine, limit, n + 1);
    KidsCompose(t, p, n, b, c, refine, limit);
  }

  /** Treating child n and then the children after it. */
  lemma KidsCompose(t: Cell, p: Path, n: ChildIx, b: RefineOut, c: RefineOut,
                    refine: Path -> bool, limit: nat)
    requires IsNodeAt(t, p) && Live(t, p + [n])
    requires RefineOk(t, b) && RefineOk(b.tree, c)
    requires forall o :: o in b.octs && o !in b.cascaded ==> IsPrefix(p + [n], o)
    requires forall y :: IsPrefix(p + [n], y) && |y| < limit && refine(y) && IsLeafAt(b.tree, y) ==>
      y != [] && Parent(y) in b.cascaded
    requires ChosenUnder(c, p, n + 1) && LeftUnder(c, p, n + 1, refine, limit)
    ensures var r := RefineOut(c.tree, b.octs + c.octs, b.cascaded + c.cascaded);
      RefineOk(t, r) && ChosenUnder(r, p, n) && LeftUnder(r, p, n, refine, limit)
  {
    var x := p + [n];
    GrowsTrans(t, Refined(b.tree, b.octs), Refined(c.tree, c.octs));
    forall o | o in b.octs && o !in b.cascaded ensures Under(p, n, o) {
      assert o[..|x|] == x;
    }
    assert Live(b.tree, x);
    ComposeLeft(p, n, b, c, refine, limit);
  }

  lemma ComposeLeft(p: Path, n: ChildIx, b: RefineOut, c: RefineOut, refine: Path -> bool, limit: nat)
    requires Live(b.tree, p + [n])
    requires Extends(b.tree, c.tree)
    requires forall y :: Live(c.tree, y) && !Live(b.tree, y) ==> y != [] && Parent(y) in c.octs
    requires forall y :: IsPrefix(p + [n], y) && |y| < limit && refine(y) && IsLeafAt(b.tree, y) ==>
      y != [] && Parent(y) in b.cascaded
    requires ChosenUnder(c, p, n + 1) && LeftUnder(c, p, n + 1, refine, limit)
    ensures LeftUnder(RefineOut(c.tree, b.octs + c.octs, b.cascaded + c.cascaded), p, n, refine, limit)
  {
    forall y | Under(p, n, y) && |y| < limit && refine(y) && IsLeafAt(c.tree, y)
      ensures Parent(y) in b.cascaded + c.cascaded
    {
      if y[|p|] == n {
        if Live(b.tree, y) {
          ComposeLeftOwn(p, n, b, c, refine, limit, y);
        } else {
          ComposeLeftNew(p, n, c, y);
        }
      } else {
        assert Under(p, n + 1, y);
      }
    }
  }

  /** A leaf below child n that was there before c is left to b. */
  lemma ComposeLeftOwn(p: Path, n: ChildIx, b: RefineOut, c: RefineOut, refine: Path -> bool, limit: nat, y: Path)
    requires Extends(b.tree, c.tree)
    requires forall y :: IsPrefix(p + [n], y) && |y| < limit && refine(y) && IsLeafAt(b.tree, y) ==>
      y != [] && Parent(y) in b.cascaded
    requires Under(p, n, y) && y[|p|] == n && |y| < limit && refine(y)
    requires IsLeafAt(c.tree, y) && Live(b.tree, y)
    ensures Parent(y) in b.cascaded
  {
    var x := p + [n];
    assert y[..|x|] == x;
    assert !IsNodeAt(c.tree, y);
    assert IsLeafAt(b.tree, y);
  }

  /** A leaf below child n that c created hangs from an oct c attached by
      cascade. */
  lemma ComposeLeftNew(p: Path, n: ChildIx, c: RefineOut, y: Path)
    requires Under(p, n, y) && y[|p|] == n && y != p + [n]
    requires y != [] && Parent(y) in c.octs
    requires ChosenUnder(c, p, n + 1)
    ensures Parent(y) in c.cascaded
  {
    assert Parent(y)[|p|] == n;
    assert !Under(p, n + 1, Parent(y));
  }

  /** Below a destroyed child of a node nothing is ever live again. */
  lemma DeadStaysDead(t: Cell, u: Cell, x: Path)
    requires Extends(t, u) && x != [] && IsNodeAt(t, Parent(x)) && !Live(t, x)
    ensures forall y :: IsPrefix(x, y) ==> !Live(u, y)
  {
    assert !Live(u, x) by {
      assert IsNodeAt(u, Parent(x));
    }
    forall y | IsPrefix(x, y) ensures !Live(u, y) {
      DeadBelow(u, x, y);
    }
  }

  lemma DeadBelow(u: Cell, x: Path, y: Path)
    requires !Live(u, x) && IsPrefix(x, y)
    ensures !Live(u, y)
  {
    assert y == x + y[|x|..];
    GetAppend(u, x, y[|x|..]);
  }

  lemma {:induction false} RefineKidsDead(t: Cell, p: Path, refine: Path -> bool, limit: nat, n: nat)
    requires n < 4 && |p| < limit && IsNodeAt(t, p) && !Live(t, p + [n as ChildIx])
    ensures var r := RefineKids(t, p, refine, limit, n);
      RefineOk(t, r) && ChosenUnder(r, p, n) && LeftUnder(r, p, n, refine, limit)
    decreases limit - |p|, 0, 4 - n, 0
  {
    var r := RefineKids(t, p, refine, limit, n + 1);
    assert RefineKids(t, p, refine, limit, n) == r;
    RefineKidsSpec(t, p, refine, limit, n + 1);
    KidsSkip(t, p, n, r, refine, limit);
  }

  /** Skipping a destroyed child n: nothing below it is live. */
  lemma KidsSkip(t: Cell, p: Path, n: ChildIx, r: RefineOut, refine: Path -> bool, limit: nat)
    requires IsNodeAt(t, p) && !Live(t, p + [n])
    requires Extends(t, r.tree)
    requires ChosenUnder(r, p, n + 1) && LeftUnder(r, p, n + 1, refine, limit)
    ensures ChosenUnder(r, p, n) && LeftUnder(r, p, n, refine, limit)
  {
    SkipDead(t, p, n, r.tree);
  }

  lemma SkipDead(t: Cell, p: Path, n: ChildIx, u: Cell)
    requires IsNodeAt(t, p) && !Live(t, p + [n])
    requires Extends(t, u)
    ensures forall y :: Under(p, n, y) && Live(u, y) ==> Under(p, n + 1, y)
  {
    var x := p + [n];
    assert Parent(x) == p;
    DeadStaysDead(t, u, x);
    SkipDeadBelow(p, n, u);
  }

  lemma SkipDeadBelow(p: Path, n: ChildIx, u: Cell)
    requires forall y :: IsPrefix(p + [n], y) ==> !Live(u, y)
    ensures forall y :: Under(p, n, y) && Live(u, y) ==> Under(p, n + 1, y)
  {
    var x := p + [n];
    forall y | Under(p, n, y) && y[|p|] == n ensures IsPrefix(x, y) {
      assert y[..|x|] == x;
    }
  }

  /** Every leaf of the subtree of p that exists when ftt_cell_refine
      starts and satisfies refine ends up with children. */
  lemma RefineWhereRefinesLeaves(t: Cell, p: Path, refine: Path -> bool, limit: nat, y: Path)
    requires IsPrefix(p, y) && |y| < limit && refine(y) && IsLeafAt(t, y)
    ensures IsNodeAt(RefineWhere(t, p, refine, limit).tree, y)
  {
    var r := RefineWhere(t, p, refine, limit);
    RefineWhereSpec(t, p, refine, limit);
    if y != [] {
      LiveParent(t, y);
    }
    assert !IsLeafAt(r.tree, y);
  }
}
