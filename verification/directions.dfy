/** The constant tables of the quadtree (FTT_2D) build of src/ftt.c.
    Directions are numbered right, left, top, bottom (0..3) and the four
    children of a cell are numbered 0..3 as top-left, top-right,
    bottom-left, bottom-right (see ChildOffset). */
module Directions {

  /** FTT_NEIGHBORS and FTT_CELLS in two dimensions. */
  const Neighbors: nat := 4
  const Cells: nat := 4

  type Dir = d: nat | d < 4
  type ChildIx = n: nat | n < 4

  const Right: Dir := 0
  const Left: Dir := 1
  const Top: Dir := 2
  const Bottom: Dir := 3

  /** ftt_opposite_direction */
  const OppositeTable: seq<Dir> := [1, 0, 3, 2]

  function Opposite(d: Dir): Dir
  {
    OppositeTable[d]
  }

  /** neighbor_index[d][n] of ftt_cell_neighbor_not_cached: a value m >= 0
      names the sibling m of child n in direction d; a negative value nn
      says the neighbour lies in the neighbouring oct, as its child -nn-1. */
  const NeighborIndexTable: seq<seq<int>> :=
    [[1, -1, 3, -3],
     [-2, 0, -4, 2],
     [-3, -4, 0, 1],
     [2, 3, -1, -2]]

  function NeighborIndex(d: Dir, n: ChildIx): int
  {
    NeighborIndexTable[d][n]
  }

  /** The child index named by a negative neighbour-index entry. */
  function Mirror(nn: int): ChildIx
    requires -4 <= nn < 0
  {
    -nn - 1
  }

  /** index[d] of ftt_cell_children_direction: the children on side d. */
  const ChildrenDirTable: seq<seq<ChildIx>> :=
    [[1, 3],
     [0, 2],
     [0, 1],
     [2, 3]]

  function ChildrenDir(d: Dir): (r: seq<ChildIx>)
    ensures |r| == 2 && r[0] != r[1]
  {
    ChildrenDirTable[d]
  }

  /** b[n][d] of ftt_cell_neighbor_is_brother. */
  const BrotherTable: seq<seq<bool>> :=
    [[true, false, false, true],
     [false, true, false, true],
     [true, false, true, false],
     [false, true, true, false]]

  function Brother(n: ChildIx, d: Dir): bool
  {
    BrotherTable[n][d]
  }

  /** index[d0][d1] of ftt_cell_child_corner; -1 marks two directions
      that are not perpendicular. */
  const ChildCornerTable: seq<seq<int>> :=
    [[-1, -1, 1, 3],
     [-1, -1, 0, 2],
     [1, 0, -1, -1],
     [3, 2, -1, -1]]

  function ChildCorner(d0: Dir, d1: Dir): int
  {
    ChildCornerTable[d0][d1]
  }

  /** perpendicular[i][j] of ftt_refine_corner: for the j-th child on side
      Opposite(i) of the neighbour in direction i, the direction that leads
      towards the corner. */
  const PerpendicularTable: seq<seq<Dir>> :=
    [[2, 3],
     [2, 3],
     [1, 0],
     [1, 0]]

  function Perpendicular(i: Dir, j: nat): Dir
    requires j < 2
  {
    PerpendicularTable[i][j]
  }

  /** coords[n] of ftt_cell_pos: the offset of child n from its parent's
      centre, in units of half the child's size (z is always 0 in 2D). */
  const ChildOffsetTable: seq<(int, int, int)> :=
    [(-1, 1, 0), (1, 1, 0), (-1, -1, 0), (1, -1, 0)]

  function ChildOffset(n: ChildIx): (int, int, int)
  {
    ChildOffsetTable[n]
  }

  /** The unit step of direction d, as (x, y, z). */
  function Step(d: Dir): (int, int, int)
  {
    [(1, 0, 0), (-1, 0, 0), (0, 1, 0), (0, -1, 0)][d]
  }

  /** The axis of direction d (0 for x, 1 for y). */
  function Axis(d: Dir): nat
  {
    d / 2
  }

  /** Child n lies on side d of its parent: its offset points along d. */
  predicate OnSide(n: ChildIx, d: Dir)
  {
    var (x, y, _) := ChildOffset(n);
    var (sx, sy, _) := Step(d);
    (sx != 0 && x == sx) || (sy != 0 && y == sy)
  }

  // ---------------------------------------------------------------------
  // Properties of the tables, checked exhaustively.

  lemma OppositeInvolution(d: Dir)
    ensures Opposite(Opposite(d)) == d
    ensures Opposite(d) != d
    ensures Axis(Opposite(d)) == Axis(d)
    ensures Step(Opposite(d)).0 == -Step(d).0 && Step(Opposite(d)).1 == -Step(d).1
  {
  }

  lemma OppositePairs()
    ensures Opposite(Right) == Left && Opposite(Left) == Right
    ensures Opposite(Top) == Bottom && Opposite(Bottom) == Top
  {
  }

  /** A sibling neighbour sees the original cell in the opposite direction,
      and is displaced by one child width along d. */
  lemma SiblingSymmetric(d: Dir, n: ChildIx)
    requires NeighborIndex(d, n) >= 0
    ensures NeighborIndex(d, n) < 4
    ensures NeighborIndex(Opposite(d), NeighborIndex(d, n) as ChildIx) == n
    ensures ChildOffset(NeighborIndex(d, n) as ChildIx).0 == ChildOffset(n).0 + 2 * Step(d).0
    ensures ChildOffset(NeighborIndex(d, n) as ChildIx).1 == ChildOffset(n).1 + 2 * Step(d).1
  {
  }

  /** A neighbour outside the oct is the mirrored child -nn-1 of the
      neighbouring cell: it lies on side Opposite(d) there, and from it the
      opposite direction leads back to child n through the same table. */
  lemma OutsideMirror(d: Dir, n: ChildIx)
    requires NeighborIndex(d, n) < 0
    ensures -4 <= NeighborIndex(d, n)
    ensures Mirror(NeighborIndex(d, n)) in ChildrenDir(Opposite(d))
    ensures n in ChildrenDir(d)
    ensures NeighborIndex(Opposite(d), Mirror(NeighborIndex(d, n))) == -(n as int) - 1
    ensures ChildOffset(Mirror(NeighborIndex(d, n))).0 == ChildOffset(n).0 - 2 * Step(d).0
    ensures ChildOffset(Mirror(NeighborIndex(d, n))).1 == ChildOffset(n).1 - 2 * Step(d).1
  {
  }

  lemma NeighborIndexRange(d: Dir, n: ChildIx)
    ensures -4 <= NeighborIndex(d, n) < 4
    ensures NeighborIndex(d, n) != n as int
  {
  }

  /** The brother table says exactly which neighbours share the parent. */
  lemma BrotherMatchesNeighborIndex(n: ChildIx, d: Dir)
    ensures Brother(n, d) <==> NeighborIndex(d, n) >= 0
  {
  }

  /** The children on side d are exactly those whose d-neighbour lies
      outside the oct, and exactly those whose offset points along d. */
  lemma ChildrenDirCharacterised(d: Dir, n: ChildIx)
    ensures n in ChildrenDir(d) <==> NeighborIndex(d, n) < 0
    ensures n in ChildrenDir(d) <==> OnSide(n, d)
  {
  }

  /** The two halves of a cell along an axis: FTT_CELLS/2 indices each,
      disjoint, covering all children. */
  lemma ChildrenDirPartition(d: Dir)
    ensures |ChildrenDir(d)| == Cells / 2 && |ChildrenDir(Opposite(d))| == Cells / 2
    ensures ChildrenDir(d)[0] != ChildrenDir(d)[1]
    ensures forall n: ChildIx :: !(n in ChildrenDir(d) && n in ChildrenDir(Opposite(d)))
    ensures forall n: ChildIx :: n in ChildrenDir(d) || n in ChildrenDir(Opposite(d))
  {
  }

  /** The corner child of two perpendicular directions lies on both sides;
      two parallel directions have no corner. */
  lemma ChildCornerCharacterised(d0: Dir, d1: Dir)
    ensures Axis(d0) == Axis(d1) <==> ChildCorner(d0, d1) == -1
    ensures Axis(d0) != Axis(d1) ==>
      0 <= ChildCorner(d0, d1) < 4 &&
      ChildCorner(d0, d1) in ChildrenDir(d0) && ChildCorner(d0, d1) in ChildrenDir(d1)
    ensures ChildCorner(d0, d1) == ChildCorner(d1, d0)
  {
  }

  /** The diagonal reached by ftt_refine_corner: one cell along i, back to
      child j on the near side of that cell, then one child along the
      perpendicular direction, in units of a quarter cell. */
  function CornerVector(i: Dir, j: nat): (int, int, int)
    requires j < 2
  {
    var s := Step(i);
    var o := ChildOffset(ChildrenDir(Opposite(i))[j]);
    var w := Step(Perpendicular(i, j));
    (4 * s.0 + o.0 + 2 * w.0, 4 * s.1 + o.1 + 2 * w.1, 4 * s.2 + o.2 + 2 * w.2)
  }

  /** That walk always ends three quarters of a cell away along both axes:
      at the centre of a child of the diagonal cell, touching the corner. */
  lemma CornerVectorDiagonal(i: Dir, j: nat)
    requires j < 2
    ensures var v := CornerVector(i, j); (v.0 == 3 || v.0 == -3) && (v.1 == 3 || v.1 == -3) && v.2 == 0
  {
  }

  /** The corner direction of ftt_refine_corner is perpendicular to i and
      the child it starts from lies on that side. */
  lemma PerpendicularCharacterised(i: Dir, j: nat)
    requires j < 2
    ensures Axis(Perpendicular(i, j)) != Axis(i)
    ensures ChildrenDir(Opposite(i))[j] in ChildrenDir(Perpendicular(i, j))
  {
  }
}
