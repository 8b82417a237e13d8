/** Neighbour search of src/ftt.c (ftt_cell_neighbor_not_cached,
    ftt_face_type, ftt_cell_neighbor_is_brother, ftt_refine_corner).

    The C oct caches the neighbours of its parent cell; here that cache is
    not stored but recomputed, so the parent's neighbour is the neighbour
    of the parent path.  The single root cell has no neighbours. */
module Neighbors {
  import opened Wrappers
  import opened Directions
  import opened Tree
  import opened Geometry

  /** ftt_cell_neighbor_not_cached: a sibling when neighbor_index names one;
      otherwise the parent's neighbour, or its mirrored child -nn-1 when it
      has children; None for the root, for a destroyed candidate and when
      the parent has no neighbour. */
  function Neighbor(t: Cell, p: Path, d: Dir): (r: Option<Path>)
    ensures r.Some? ==> Live(t, r.value) && |r.value| <= |p| && r.value != p
    ensures r.Some? && |r.value| < |p| ==> IsLeafAt(t, r.value)
    decreases |p|
  {
    if p == [] then None
    else
      var nn := NeighborIndex(d, Last(p));
      var c: Option<Path> :=
        if nn >= 0 then Some(Parent(p) + [nn as ChildIx])
        else match Neighbor(t, Parent(p), d)
          case None => None
          case Some(q) => if IsNodeAt(t, q) then Some(q + [Mirror(nn)]) else Some(q);
      if c.Some? && Live(t, c.value) then c else None
  }

  /** A neighbour at the same level as p. */
  predicate SameLevel(t: Cell, p: Path, d: Dir)
  {
    Neighbor(t, p, d).Some? && |Neighbor(t, p, d).value| == |p|
  }

  /** A coarser neighbour is a leaf, so it is never an ancestor of a live
      cell. */
  lemma NeighborNotAncestor(t: Cell, p: Path, d: Dir)
    requires Live(t, p) && Neighbor(t, p, d).Some?
    ensures !IsPrefix(Neighbor(t, p, d).value, p)
  {
    var q := Neighbor(t, p, d).value;
    if IsPrefix(q, p) {
      LivePrefix(t, p, q);
    }
  }

  /** The neighbour search looks only at the shape of cells above p and at
      which cells of p's level are live. */
  lemma {:induction false} NeighborLocal(t: Cell, u: Cell, p: Path, d: Dir)
    requires Alike(t, u, |p|)
    ensures Neighbor(t, p, d) == Neighbor(u, p, d)
    decreases |p|
  {
    if p != [] {
      var par := Parent(p);
      assert Alike(t, u, |par|) by {
        forall y | |y| == |par| ensures Live(t, y) == Live(u, y) {
          assert KindAt(t, y) == KindAt(u, y);
        }
      }
      NeighborLocal(t, u, par, d);
      if NeighborIndex(d, Last(p)) < 0 && Neighbor(t, par, d).Some? {
        var q := Neighbor(t, par, d).value;
        assert KindAt(t, q) == KindAt(u, q);
      }
    }
  }

  // ---------------------------------------------------------------------
  // Geometry of neighbours.

  function Add3(a: (int, int, int), b: (int, int, int)): (int, int, int)
  {
    (a.0 + b.0, a.1 + b.1, a.2 + b.2)
  }

  function Times3(c: int, a: (int, int, int)): (int, int, int)
  {
    (c * a.0, c * a.1, c * a.2)
  }

  /** (a + c s) h = a h + s (c h), with integer a, s, c. */
  lemma Distribute(a: int, s: int, c: int, h: real)
    ensures ((a + c * s) as real) * h == (a as real) * h + (s as real) * ((c as real) * h)
  {
    assert ((a + c * s) as real) == (a as real) + (c as real) * (s as real);
    assert ((a as real) + (c as real) * (s as real)) * h == (a as real) * h + ((c as real) * (s as real)) * h;
  }

  /** One coordinate of SiblingShift. */
  lemma SiblingCoord(x: real, a: int, s: int, h: real)
    ensures x + ((a + 2 * s) as real) * h == (x + (a as real) * h) + (s as real) * (2.0 * h)
  {
    Distribute(a, s, 2, h);
  }

  /** One coordinate of MirrorShift. */
  lemma MirrorCoord(x: real, a: int, s: int, h: real)
    ensures (x + (s as real) * (4.0 * h)) + ((a + -2 * s) as real) * h
         == (x + (a as real) * h) + (s as real) * (2.0 * h)
  {
    Distribute(a, s, -2, h);
    Cancel(s, h);
  }

  /** A sibling two half-widths further along s. */
  lemma SiblingShift(pp: Vec, a: (int, int, int), s: (int, int, int), b: (int, int, int), h: real)
    requires b == Add3(a, Times3(2, s))
    ensures Shift(pp, b, h) == Shift(Shift(pp, a, h), s, 2.0 * h)
  {
    assert b == (a.0 + 2 * s.0, a.1 + 2 * s.1, a.2 + 2 * s.2);
    SiblingCoord(pp.x, a.0, s.0, h);
    SiblingCoord(pp.y, a.1, s.1, h);
    SiblingCoord(pp.z, a.2, s.2, h);
  }

  lemma Cancel(s: int, h: real)
    ensures (s as real) * (4.0 * h) + (s as real) * ((-2 as real) * h) == (s as real) * (2.0 * h)
  {
    assert (s as real) * (4.0 * h) + (s as real) * ((-2 as real) * h) == (s as real) * (4.0 * h + (-2 as real) * h);
  }

  /** The mirrored child of the parent's neighbour, which is one parent
      width away along s. */
  lemma MirrorShift(pp: Vec, a: (int, int, int), s: (int, int, int), b: (int, int, int), h: real)
    requires b == Add3(a, Times3(-2, s))
    ensures Shift(Shift(pp, s, 4.0 * h), b, h) == Shift(Shift(pp, a, h), s, 2.0 * h)
  {
    assert b == (a.0 + -2 * s.0, a.1 + -2 * s.1, a.2 + -2 * s.2);
    MirrorCoord(pp.x, a.0, s.0, h);
    MirrorCoord(pp.y, a.1, s.1, h);
    MirrorCoord(pp.z, a.2, s.2, h);
  }

  /** A same-level neighbour in direction d is centred one cell width away
      along d: the table lookups agree with the geometry of ftt_cell_pos. */
  lemma {:induction false} NeighborAdjacent(t: Cell, p: Path, d: Dir, origin: Vec)
    requires SameLevel(t, p, d)
    ensures Pos(origin, Neighbor(t, p, d).value) == Shift(Pos(origin, p), Step(d), LevelSize(|p|))
    decreases |p|
  {
    if NeighborIndex(d, Last(p)) >= 0 {
      SiblingAdjacent(t, p, d, origin);
    } else {
      assert SameLevel(t, Parent(p), d);
      NeighborAdjacent(t, Parent(p), d, origin);
      MirrorAdjacent(t, p, d, origin);
    }
  }

  lemma SiblingAdjacent(t: Cell, p: Path, d: Dir, origin: Vec)
    requires SameLevel(t, p, d) && NeighborIndex(d, Last(p)) >= 0
    ensures Pos(origin, Neighbor(t, p, d).value) == Shift(Pos(origin, p), Step(d), LevelSize(|p|))
  {
    var n := Last(p);
    var par := Parent(p);
    var nn := NeighborIndex(d, n);
    var h := LevelSize(|p|) / 2.0;
    var pp := Pos(origin, par);
    assert Pos(origin, p) == Shift(pp, ChildOffset(n), h);
    assert LevelSize(|p|) == 2.0 * h;
    SiblingSymmetric(d, n);
    assert Neighbor(t, p, d).value == par + [nn as ChildIx];
    PosChild(origin, par, nn as ChildIx);
    SiblingShift(pp, ChildOffset(n), Step(d), ChildOffset(nn as ChildIx), h);
  }

  lemma MirrorAdjacent(t: Cell, p: Path, d: Dir, origin: Vec)
    requires SameLevel(t, p, d) && NeighborIndex(d, Last(p)) < 0
    requires SameLevel(t, Parent(p), d)
    requires Pos(origin, Neighbor(t, Parent(p), d).value) ==
      Shift(Pos(origin, Parent(p)), Step(d), LevelSize(|Parent(p)|))
    ensures Pos(origin, Neighbor(t, p, d).value) == Shift(Pos(origin, p), Step(d), LevelSize(|p|))
  {
    var n := Last(p);
    var par := Parent(p);
    var nn := NeighborIndex(d, n);
    var h := LevelSize(|p|) / 2.0;
    var pp := Pos(origin, par);
    var r := Neighbor(t, par, d).value;
    OutsideMirror(d, n);
    var m := Mirror(nn);
    assert Pos(origin, p) == Shift(pp, ChildOffset(n), h);
    assert LevelSize(|p|) == 2.0 * h;
    assert LevelSize(|par|) == 4.0 * h by {
      assert |p| == |par| + 1;
    }
    assert Neighbor(t, p, d).value == r + [m];
    assert Pos(origin, r + [m]) == Shift(Shift(pp, Step(d), 4.0 * h), ChildOffset(m), h) by {
      PosChild(origin, r, m);
    }
    assert ChildOffset(m) == Add3(ChildOffset(n), Times3(-2, Step(d))) by {
      MirrorOffset(d, n);
    }
    MirrorShift(pp, ChildOffset(n), Step(d), ChildOffset(m), h);
  }

  /** The mirrored child sits two steps back from the child it mirrors. */
  lemma MirrorOffset(d: Dir, n: ChildIx)
    requires NeighborIndex(d, n) < 0
    ensures -4 <= NeighborIndex(d, n)
    ensures ChildOffset(Mirror(NeighborIndex(d, n))) == Add3(ChildOffset(n), Times3(-2, Step(d)))
  {
    OutsideMirror(d, n);
  }

  /** Same-level neighbours are mutual: from the neighbour, the opposite
      direction leads back. */
  lemma {:induction false} NeighborSymmetric(t: Cell, p: Path, d: Dir)
    requires Live(t, p) && SameLevel(t, p, d)
    ensures Neighbor(t, Neighbor(t, p, d).value, Opposite(d)) == Some(p)
    decreases |p|
  {
    var q := Neighbor(t, p, d).value;
    var n := Last(p);
    var par := Parent(p);
    var nn := NeighborIndex(d, n);
    OppositeInvolution(d);
    LiveParent(t, p);
    assert par + [n] == p;
    if nn >= 0 {
      SiblingSymmetric(d, n);
      assert q == par + [nn as ChildIx];
      assert Parent(q) == par && Last(q) == nn as ChildIx;
    } else {
      OutsideMirror(d, n);
      var r := Neighbor(t, par, d).value;
      assert IsNodeAt(t, r) && q == r + [Mirror(nn)];
      assert Parent(q) == r && Last(q) == Mirror(nn);
      assert SameLevel(t, par, d);
      NeighborSymmetric(t, par, d);
      assert Mirror(NeighborIndex(Opposite(d), Mirror(nn))) == n;
    }
  }

  // ---------------------------------------------------------------------
  // Faces.

  datatype FaceType = FineFine | FineCoarse | Boundary

  /** ftt_face_type of the face of p in direction d. */
  function FaceTypeOf(t: Cell, p: Path, d: Dir): (r: FaceType)
    ensures r == Boundary <==> Neighbor(t, p, d).None?
    ensures r == FineFine <==> SameLevel(t, p, d)
    ensures r == FineCoarse <==> Neighbor(t, p, d).Some? && |Neighbor(t, p, d).value| < |p|
    ensures r == FineCoarse ==> IsLeafAt(t, Neighbor(t, p, d).value)
  {
    match Neighbor(t, p, d)
    case None => Boundary
    case Some(q) => if |p| > |q| then FineCoarse else FineFine
  }

  /** ftt_cell_neighbor_is_brother: FALSE for the root, else the brother
      table. */
  function IsBrother(p: Path, d: Dir): bool
  {
    p != [] && Brother(Last(p), d)
  }

  /** The brother flag tells whether an existing neighbour shares the
      parent of p. */
  lemma BrotherSharesParent(t: Cell, p: Path, d: Dir)
    requires Neighbor(t, p, d).Some?
    ensures var q := Neighbor(t, p, d).value;
      IsBrother(p, d) <==> (|q| == |p| && Parent(q) == Parent(p))
  {
    var q := Neighbor(t, p, d).value;
    var n := Last(p);
    BrotherMatchesNeighborIndex(n, d);
    if NeighborIndex(d, n) < 0 {
      var r := Neighbor(t, Parent(p), d);
      if IsNodeAt(t, r.value) {
        assert Parent(q) == r.value;
      }
    } else {
      assert Parent(q) == Parent(p);
    }
  }

  // ---------------------------------------------------------------------
  // ftt_refine_corner.

  /** Whether child j on side Opposite(i) of the i-neighbour n of p has a
      non-leaf neighbour in the perpendicular direction. */
  predicate CornerChildFine(t: Cell, q: Path, i: Dir, j: nat)
    requires j < 2
  {
    var c := q + [ChildrenDir(Opposite(i))[j]];
    var nc := Neighbor(t, c, Perpendicular(i, j));
    Live(t, c) && nc.Some? && IsNodeAt(t, nc.value)
  }

  predicate DirectionCornerFine(t: Cell, p: Path, i: Dir)
  {
    var q := Neighbor(t, p, i);
    q.Some? && IsNodeAt(t, q.value) && (CornerChildFine(t, q.value, i, 0) || CornerChildFine(t, q.value, i, 1))
  }

  /** ftt_refine_corner: p is a leaf and one of its diagonal neighbours is
      more than one level finer. */
  function RefineCorner(t: Cell, p: Path): bool
  {
    IsLeafAt(t, p) &&
    (DirectionCornerFine(t, p, 0) || DirectionCornerFine(t, p, 1) ||
     DirectionCornerFine(t, p, 2) || DirectionCornerFine(t, p, 3))
  }

  /** u lies k away from v along both horizontal axes, in the same plane. */
  predicate Diagonal(u: Vec, v: Vec, k: real)
  {
    (u.x - v.x == k || u.x - v.x == -k) && (u.y - v.y == k || u.y - v.y == -k) && u.z == v.z
  }

  lemma CornerDistribute(s: int, o: int, w: int, k: real)
    ensures ((4 * s + o + 2 * w) as real) * k == (s as real) * (4.0 * k) + (o as real) * k + (w as real) * (2.0 * k)
  {
    assert ((4 * s + o + 2 * w) as real) == 4.0 * (s as real) + (o as real) + 2.0 * (w as real);
  }

  /** The walk of ftt_refine_corner, on centres: one cell along i, to
      child j on the near side, one child along the perpendicular. */
  lemma CornerWalk(pp: Vec, pn: Vec, pc: Vec, pq: Vec, i: Dir, j: nat, k: real)
    requires j < 2
    requires pn == Shift(pp, Step(i), 4.0 * k)
    requires pc == Shift(pn, ChildOffset(ChildrenDir(Opposite(i))[j]), k)
    requires pq == Shift(pc, Step(Perpendicular(i, j)), 2.0 * k)
    ensures Diagonal(pq, pp, 3.0 * k)
  {
    CornerWalkShift(pp, pn, pc, pq, i, j, k);
    CornerVectorDiagonal(i, j);
    ShiftDiagonal(pp, CornerVector(i, j), k);
  }

  /** The three moves add up to one move by CornerVector. */
  lemma CornerWalkShift(pp: Vec, pn: Vec, pc: Vec, pq: Vec, i: Dir, j: nat, k: real)
    requires j < 2
    requires pn == Shift(pp, Step(i), 4.0 * k)
    requires pc == Shift(pn, ChildOffset(ChildrenDir(Opposite(i))[j]), k)
    requires pq == Shift(pc, Step(Perpendicular(i, j)), 2.0 * k)
    ensures pq == Shift(pp, CornerVector(i, j), k)
  {
    var s := Step(i);
    var o := ChildOffset(ChildrenDir(Opposite(i))[j]);
    var w := Step(Perpendicular(i, j));
    assert CornerVector(i, j) == (4 * s.0 + o.0 + 2 * w.0, 4 * s.1 + o.1 + 2 * w.1, 4 * s.2 + o.2 + 2 * w.2);
    CornerDistribute(s.0, o.0, w.0, k);
    CornerDistribute(s.1, o.1, w.1, k);
    CornerDistribute(s.2, o.2, w.2, k);
  }

  /** A move by (±3, ±3, 0) half-widths is diagonal. */
  lemma ShiftDiagonal(pp: Vec, v: (int, int, int), k: real)
    requires (v.0 == 3 || v.0 == -3) && (v.1 == 3 || v.1 == -3) && v.2 == 0
    ensures Diagonal(Shift(pp, v, k), pp, 3.0 * k)
  {
    UnitTimes(v.0 / 3, 3.0 * k);
    UnitTimes(v.1 / 3, 3.0 * k);
  }

  /** When ftt_refine_corner answers TRUE, the diagonal cell touching a
      corner of p has a non-leaf child there: a cell two levels finer than
      p meets p at that corner. */
  lemma RefineCornerFindsFinerDiagonal(t: Cell, p: Path, origin: Vec)
    requires RefineCorner(t, p)
    ensures exists q ::
      (IsNodeAt(t, q) && |q| == |p| + 1 &&
       Diagonal(Pos(origin, q), Pos(origin, p), 3.0 * LevelSize(|p|) / 4.0))
  {
    var i: Dir := if DirectionCornerFine(t, p, 0) then 0 else if DirectionCornerFine(t, p, 1) then 1
                  else if DirectionCornerFine(t, p, 2) then 2 else 3;
    assert DirectionCornerFine(t, p, i);
    var n := Neighbor(t, p, i).value;
    var j: nat := if CornerChildFine(t, n, i, 0) then 0 else 1;
    var q := CornerAt(t, p, origin, i, j);
  }

  /** The cell reached through direction i and near-side child j. */
  lemma CornerAt(t: Cell, p: Path, origin: Vec, i: Dir, j: nat) returns (q: Path)
    requires j < 2 && DirectionCornerFine(t, p, i) && CornerChildFine(t, Neighbor(t, p, i).value, i, j)
    ensures IsNodeAt(t, q) && |q| == |p| + 1
    ensures Diagonal(Pos(origin, q), Pos(origin, p), 3.0 * LevelSize(|p|) / 4.0)
  {
    var n := Neighbor(t, p, i).value;
    var ch := ChildrenDir(Opposite(i))[j];
    var c := n + [ch];
    var e := Perpendicular(i, j);
    q := Neighbor(t, c, e).value;
    var k := LevelSize(|p|) / 4.0;
    assert SameLevel(t, p, i) && |c| == |p| + 1;
    assert SameLevel(t, c, e);
    assert LevelSize(|c|) == 2.0 * k by {
      assert LevelSize(|c|) == LevelSize(|p|) / 2.0;
    }
    assert Pos(origin, n) == Shift(Pos(origin, p), Step(i), 4.0 * k) by {
      NeighborAdjacent(t, p, i, origin);
      assert LevelSize(|p|) == 4.0 * k;
    }
    assert Pos(origin, c) == Shift(Pos(origin, n), ChildOffset(ch), k) by {
      PosChild(origin, n, ch);
      assert LevelSize(|n| + 1) / 2.0 == k;
    }
    assert Pos(origin, q) == Shift(Pos(origin, c), Step(e), 2.0 * k) by {
      NeighborAdjacent(t, c, e, origin);
    }
    CornerWalk(Pos(origin, p), Pos(origin, n), Pos(origin, c), Pos(origin, q), i, j, k);
  }
}
