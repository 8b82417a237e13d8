/** The cells of one level as a square grid (src/ftt.c): the integer
    column and row of each cell among the 2^level by 2^level cells of its
    level, and what the neighbour search (ftt_cell_neighbor_not_cached)
    and ftt_refine_corner find on that grid.  The neighbour search
    returns exactly the cell of the tree that covers the square next to
    the cell, and finds nothing only when that square is outside the root
    or lies under a destroyed child. */
module Grid {
  import opened Wrappers
  import opened Directions
  import opened Tree
  import opened Geometry
  import opened Neighbors
  import opened Refine

  /** The half of its parent an offset points to: 1 for the right (or
      top) half, 0 for the left (or bottom) one. */
  function Half(o: int): int
  {
    if o > 0 then 1 else 0
  }

  /** Which halves of its parent child n occupies, along x and along y. */
  function Bits(n: ChildIx): (int, int)
  {
    (Half(ChildOffset(n).0), Half(ChildOffset(n).1))
  }

  /** The child occupying the given halves. */
  function ChildAt(hx: int, hy: int): (n: ChildIx)
    requires 0 <= hx <= 1 && 0 <= hy <= 1
    ensures Bits(n) == (hx, hy)
  {
    if hy == 1 then hx else 2 + hx
  }

  /** Column and row of the cell at p among the cells of its level,
      counted from the lower left corner of the root. */
  function Coords(p: Path): (int, int)
    decreases |p|
  {
    if p == [] then (0, 0)
    else
      var c := Coords(Parent(p));
      (2 * c.0 + Bits(Last(p)).0, 2 * c.1 + Bits(Last(p)).1)
  }

  /** The square one step along d. */
  function Move(g: (int, int), d: Dir): (int, int)
  {
    (g.0 + Step(d).0, g.1 + Step(d).1)
  }

  /** g is a square of the given level inside the root. */
  predicate InRange(level: nat, g: (int, int))
  {
    0 <= g.0 < Pow2(level) && 0 <= g.1 < Pow2(level)
  }

  lemma CoordsSnoc(p: Path, n: ChildIx)
    ensures Coords(p + [n]) == (2 * Coords(p).0 + Bits(n).0, 2 * Coords(p).1 + Bits(n).1)
  {
    var q := p + [n];
    assert Parent(q) == p;
    assert Last(q) == n;
  }

  lemma BitsRange(n: ChildIx)
    ensures 0 <= Bits(n).0 <= 1 && 0 <= Bits(n).1 <= 1
  {
  }

  /** The offset of child n is 2b - 1 for its halves b, in the plane. */
  lemma OffsetBits(n: ChildIx)
    ensures ChildOffset(n).0 == 2 * Bits(n).0 - 1 && ChildOffset(n).1 == 2 * Bits(n).1 - 1
    ensures ChildOffset(n).2 == 0
  {
  }

  /** Different children occupy different quarters. */
  lemma BitsInjective(m: ChildIx, n: ChildIx)
    requires Bits(m) == Bits(n)
    ensures m == n
  {
  }

  /** Halving with remainder is unique. */
  lemma Halves(a: int, b: int, c: int, e: int)
    requires 0 <= b <= 1 && 0 <= e <= 1 && 2 * a + b == 2 * c + e
    ensures a == c && b == e
  {
  }

  /** Every cell is a square of its level inside the root. */
  lemma {:induction false} CoordsRange(p: Path)
    ensures InRange(|p|, Coords(p))
    decreases |p|
  {
    if p != [] {
      CoordsRange(Parent(p));
      BitsRange(Last(p));
    }
  }

  /** Two cells of one level in the same square are the same cell. */
  lemma {:induction false} CoordsInjective(p: Path, q: Path)
    requires |p| == |q| && Coords(p) == Coords(q)
    ensures p == q
    decreases |p|
  {
    if p != [] {
      var pp, qq := Parent(p), Parent(q);
      BitsRange(Last(p));
      BitsRange(Last(q));
      Halves(Coords(pp).0, Bits(Last(p)).0, Coords(qq).0, Bits(Last(q)).0);
      Halves(Coords(pp).1, Bits(Last(p)).1, Coords(qq).1, Bits(Last(q)).1);
      BitsInjective(Last(p), Last(q));
      CoordsInjective(pp, qq);
      assert p == pp + [Last(p)] && q == qq + [Last(q)];
    }
  }

  /** The path of the square g of the given level. */
  function PathAt(level: nat, g: (int, int)): (p: Path)
    requires InRange(level, g)
    ensures |p| == level && Coords(p) == g
    decreases level
  {
    if level == 0 then []
    else
      var pp := PathAt(level - 1, (g.0 / 2, g.1 / 2));
      CoordsSnoc(pp, ChildAt(g.0 % 2, g.1 % 2));
      pp + [ChildAt(g.0 % 2, g.1 % 2)]
  }

  /** PathAt as a lemma: the path of square g. */
  lemma PathOf(level: nat, g: (int, int)) returns (p: Path)
    requires InRange(level, g)
    ensures |p| == level && Coords(p) == g
  {
    p := PathAt(level, g);
  }

  /** Coords and PathAt are inverse. */
  lemma PathAtCoords(p: Path)
    ensures InRange(|p|, Coords(p)) && PathAt(|p|, Coords(p)) == p
  {
    CoordsRange(p);
    CoordsInjective(PathAt(|p|, Coords(p)), p);
  }

  // ---------------------------------------------------------------------
  // Centres on the grid.

  /** x moved by c times w. */
  function Place(x: real, c: int, w: real): real
  {
    x + (c as real) * w
  }

  /** The centre of column (or row) c of a level, in half-widths of that
      level from the lower left corner of the root. */
  function Centre(c: int): int
  {
    2 * c + 1
  }

  /** The centre of the cell at p as ftt_cell_pos gives it on the grid:
      column c of a level of side s is centred (2c + 1) s / 2 from the
      left side of the root, row c as far from its bottom side. */
  function GridAt(origin: Vec, c: (int, int), h: real): Vec
  {
    Vec(Place(origin.x - 0.5, Centre(c.0), h), Place(origin.y - 0.5, Centre(c.1), h), origin.z)
  }

  function GridPos(origin: Vec, p: Path): Vec
  {
    GridAt(origin, Coords(p), LevelSize(|p|) / 2.0)
  }

  /** One coordinate of the centre of a child: the parent's column c at
      half-width 2h, moved by the child's offset 2b - 1 times h. */
  lemma CentreStep(x: real, c: int, b: int, h: real)
    requires 0 <= b <= 1
    ensures Place(Place(x, Centre(c), 2.0 * h), 2 * b - 1, h) == Place(x, Centre(2 * c + b), h)
  {
    var a := Centre(c);
    assert 2 * a + (2 * b - 1) == Centre(2 * c + b);
    Distribute(2 * b - 1, a, 2, h);
  }

  /** The grid centre of the cell at p, given its column and row c and
      its level. */
  lemma GridPosAt(origin: Vec, p: Path, c: (int, int), level: nat, h: real)
    requires |p| == level && Coords(p) == c && h == LevelSize(level) / 2.0
    ensures GridPos(origin, p) == GridAt(origin, c, h)
  {
  }

  /** The centre of the cell at p, given its column and row c and its
      level. */
  lemma PosIsGrid(origin: Vec, p: Path, c: (int, int), level: nat, h: real)
    requires |p| == level && Coords(p) == c && h == LevelSize(level) / 2.0
    ensures Pos(origin, p) == GridAt(origin, c, h)
  {
    PosCoords(origin, p);
    GridPosAt(origin, p, c, level, h);
  }

  /** A centre on the grid moved by a child's offset: the centre of
      square c at half-width k = 2h, moved by the offset of quarter
      (hx, hy), is the centre of square c2 one level down. */
  lemma ShiftGrid(origin: Vec, c: (int, int), c2: (int, int), off: (int, int, int), hx: int, hy: int, k: real, h: real)
    requires 0 <= hx <= 1 && 0 <= hy <= 1 && c2 == (2 * c.0 + hx, 2 * c.1 + hy)
    requires off == (2 * hx - 1, 2 * hy - 1, 0) && k == 2.0 * h
    ensures Shift(GridAt(origin, c, k), off, h) == GridAt(origin, c2, h)
  {
    CentreStep(origin.x - 0.5, c.0, hx, h);
    CentreStep(origin.y - 0.5, c.1, hy, h);
  }

  /** ftt_cell_pos agrees with the grid. */
  lemma {:induction false} PosCoords(origin: Vec, p: Path)
    ensures Pos(origin, p) == GridPos(origin, p)
    decreases |p|
  {
    if p != [] {
      PosCoords(origin, Parent(p));
      assert p == Parent(p) + [Last(p)];
      PosChildCoords(origin, Parent(p), Last(p));
    }
  }

  /** The step of PosCoords: from the parent's centre to the child's. */
  lemma PosChildCoords(origin: Vec, pp: Path, n: ChildIx)
    requires Pos(origin, pp) == GridPos(origin, pp)
    ensures Pos(origin, pp + [n]) == GridPos(origin, pp + [n])
  {
    PosChild(origin, pp, n);
    GridChild(origin, pp, n, LevelSize(|pp + [n]|) / 2.0);
  }

  /** A child's grid centre is its parent's moved by the child's offset. */
  lemma GridChild(origin: Vec, pp: Path, n: ChildIx, h: real)
    requires h == LevelSize(|pp + [n]|) / 2.0
    ensures Shift(GridPos(origin, pp), ChildOffset(n), h) == GridPos(origin, pp + [n])
  {
    ChildGrid(pp, n);
    ShiftGrid(origin, Coords(pp), Coords(pp + [n]), ChildOffset(n), Bits(n).0, Bits(n).1, LevelSize(|pp|) / 2.0, h);
  }

  /** The column, row, offset and size of child n of the cell at pp. */
  lemma ChildGrid(pp: Path, n: ChildIx)
    ensures 0 <= Bits(n).0 <= 1 && 0 <= Bits(n).1 <= 1
    ensures Coords(pp + [n]) == (2 * Coords(pp).0 + Bits(n).0, 2 * Coords(pp).1 + Bits(n).1)
    ensures ChildOffset(n) == (2 * Bits(n).0 - 1, 2 * Bits(n).1 - 1, 0)
    ensures LevelSize(|pp|) == 2.0 * LevelSize(|pp + [n]|)
  {
    CoordsSnoc(pp, n);
    BitsRange(n);
    OffsetBits(n);
    assert |pp + [n]| == |pp| + 1;
  }

  lemma LevelSizeSucc(level: nat)
    ensures LevelSize(level + 1) == LevelSize(level) / 2.0
  {
  }

  /** For a positive scale, equal multiples have equal factors. */
  lemma ScaleCancel(a: int, b: int, h: real)
    requires h > 0.0
    ensures (a as real) * h == (b as real) * h <==> a == b
  {
    if a < b {
      assert (b as real) * h - (a as real) * h == ((b - a) as real) * h;
    } else if b < a {
      assert (a as real) * h - (b as real) * h == ((a - b) as real) * h;
    }
  }

  /** One coordinate of a move by one cell width. */
  lemma MoveCoord(x: real, cp: int, cq: int, s: int, w: real)
    requires w > 0.0
    ensures Place(x, Centre(cq), w / 2.0) == Place(Place(x, Centre(cp), w / 2.0), s, w)
        <==> cq == cp + s
  {
    var a, b := Centre(cq), Centre(cp);
    assert a == b + 2 * s <==> cq == cp + s;
    assert (b as real) * (w / 2.0) + (s as real) * w == ((b + 2 * s) as real) * (w / 2.0) by {
      Distribute(b, s, 2, w / 2.0);
    }
    ScaleCancel(a, b + 2 * s, w / 2.0);
  }

  /** Two cells of one level are one cell width apart along d exactly when
      their squares are one step apart along d. */
  lemma AdjacentCoords(origin: Vec, p: Path, q: Path, d: Dir)
    requires |p| == |q|
    ensures Pos(origin, q) == Shift(Pos(origin, p), Step(d), LevelSize(|p|))
        <==> Coords(q) == Move(Coords(p), d)
  {
    var w := LevelSize(|p|);
    PosIsGrid(origin, p, Coords(p), |p|, w / 2.0);
    PosIsGrid(origin, q, Coords(q), |p|, w / 2.0);
    AdjacentGrid(Pos(origin, p), Pos(origin, q), origin, Coords(p), Coords(q), d, w);
  }

  /** Centres P and Q of squares cp and cq of a level of width w are one
      width apart along d exactly when the squares are one step apart. */
  lemma AdjacentGrid(P: Vec, Q: Vec, origin: Vec, cp: (int, int), cq: (int, int), d: Dir, w: real)
    requires w > 0.0 && P == GridAt(origin, cp, w / 2.0) && Q == GridAt(origin, cq, w / 2.0)
    ensures Q == Shift(P, Step(d), w) <==> cq == Move(cp, d)
  {
    MoveCoord(origin.x - 0.5, cp.0, cq.0, Step(d).0, w);
    MoveCoord(origin.y - 0.5, cp.1, cq.1, Step(d).1, w);
  }

  // ---------------------------------------------------------------------
  // What the neighbour search finds.

  /** The cell of t covering the square of the cell at r: r itself when
      it is live, else the leaf among its ancestors; None when r lies under
      a destroyed child. */
  function Cover(t: Cell, r: Path): (c: Option<Path>)
    ensures c.Some? ==> IsPrefix(c.value, r) && Live(t, c.value) && (c.value == r || IsLeafAt(t, c.value))
    decreases |r|
  {
    if Live(t, r) then Some(r)
    else
      match Cover(t, Parent(r))
      case None => None
      case Some(x) => if IsLeafAt(t, x) then Some(x) else None
  }

  /** No cell covers r exactly when r is destroyed and every live cell
      above it has children. */
  lemma {:induction false} CoverNone(t: Cell, r: Path)
    ensures Cover(t, r).None? <==> !Live(t, r) && forall x :: IsPrefix(x, r) && Live(t, x) ==> IsNodeAt(t, x)
    decreases |r|
  {
    if !Live(t, r) {
      var pr := Parent(r);
      CoverNone(t, pr);
      forall x | IsPrefix(x, r) && Live(t, x) && x != r
        ensures IsPrefix(x, pr)
      {
        assert r[..|x|] == pr[..|x|];
      }
      if Cover(t, pr).Some? && !IsLeafAt(t, Cover(t, pr).value) {
        forall x | IsPrefix(x, r) && Live(t, x)
          ensures IsNodeAt(t, x)
        {
          if |x| < |pr| {
            LivePrefix(t, pr, x);
          }
        }
      }
    }
  }

  /** The square one step along d from the cell at p, as a path of p's
      level; None when it is outside the root. */
  function Adjacent(p: Path, d: Dir): (r: Option<Path>)
    ensures r.Some? ==> |r.value| == |p| && Coords(r.value) == Move(Coords(p), d)
    ensures r.None? ==> !InRange(|p|, Move(Coords(p), d))
  {
    if InRange(|p|, Move(Coords(p), d)) then Some(PathAt(|p|, Move(Coords(p), d))) else None
  }

  /** Child nn of the same parent lies one step along d from child n. */
  lemma SiblingBits(d: Dir, n: ChildIx)
    requires NeighborIndex(d, n) >= 0
    ensures NeighborIndex(d, n) < 4
    ensures Bits(NeighborIndex(d, n) as ChildIx) == (Bits(n).0 + Step(d).0, Bits(n).1 + Step(d).1)
  {
  }

  /** One step along d from child n leaves the parent, into the mirrored
      child of the parent's neighbour. */
  lemma MirrorBits(d: Dir, n: ChildIx)
    requires NeighborIndex(d, n) < 0
    ensures -4 <= NeighborIndex(d, n)
    ensures Bits(n).0 + Step(d).0 == 2 * Step(d).0 + Bits(Mirror(NeighborIndex(d, n))).0
    ensures Bits(n).1 + Step(d).1 == 2 * Step(d).1 + Bits(Mirror(NeighborIndex(d, n))).1
  {
  }

  /** A square of the root's level next to the root is outside it. */
  lemma StepLeavesRoot(d: Dir)
    ensures !InRange(0, Move((0, 0), d))
  {
  }

  /** A square is inside the root exactly when the square it halves to one
      level up is. */
  lemma InRangeHalf(level: nat, g: (int, int), b: (int, int))
    requires 0 <= b.0 <= 1 && 0 <= b.1 <= 1
    ensures InRange(level + 1, (2 * g.0 + b.0, 2 * g.1 + b.1)) <==> InRange(level, g)
  {
    assert Pow2(level + 1) == 2 * Pow2(level);
  }

  /** The neighbour search against the covering cell of the adjacent
      square. */
  predicate FindsCover(t: Cell, p: Path, d: Dir)
  {
    Neighbor(t, p, d) == match Adjacent(p, d) case None => None case Some(r) => Cover(t, r)
  }

  /** ftt_cell_neighbor_not_cached finds exactly the cell covering the
      square next to p: nothing at the edge of the root, otherwise the
      same-level cell there, or the leaf above it, or nothing when that
      square lies under a destroyed child. */
  lemma {:induction false} NeighborCovers(t: Cell, p: Path, d: Dir)
    requires Live(t, p)
    ensures FindsCover(t, p, d)
    decreases |p|
  {
    if p == [] {
      StepLeavesRoot(d);
    } else if NeighborIndex(d, Last(p)) >= 0 {
      SiblingCovers(t, p, d);
    } else {
      LiveParent(t, p);
      NeighborCovers(t, Parent(p), d);
      MirrorCovers(t, p, d);
    }
  }

  /** The step of NeighborCovers when the neighbour is a sibling. */
  lemma SiblingCovers(t: Cell, p: Path, d: Dir)
    requires Live(t, p) && p != [] && NeighborIndex(d, Last(p)) >= 0
    ensures FindsCover(t, p, d)
  {
    var pp, n := Parent(p), Last(p);
    var nn := NeighborIndex(d, n);
    SiblingBits(d, n);
    var c := pp + [nn as ChildIx];
    assert p == pp + [n];
    assert Coords(c) == Move(Coords(p), d) by {
      CoordsSnoc(pp, n);
      CoordsSnoc(pp, nn as ChildIx);
    }
    CoordsRange(c);
    CoordsInjective(PathAt(|p|, Move(Coords(p), d)), c);
    assert Adjacent(p, d) == Some(c);
    LiveParent(t, p);
    assert Parent(c) == pp;
  }

  /** One step along d from a child on side d of its parent: the square
      reached is the mirrored quarter of the square next to the parent. */
  lemma MirrorMove(p: Path, d: Dir)
    requires p != [] && NeighborIndex(d, Last(p)) < 0
    ensures -4 <= NeighborIndex(d, Last(p))
    ensures var m := Mirror(NeighborIndex(d, Last(p)));
      var h := Move(Coords(Parent(p)), d);
      && 0 <= Bits(m).0 <= 1 && 0 <= Bits(m).1 <= 1
      && Move(Coords(p), d) == (2 * h.0 + Bits(m).0, 2 * h.1 + Bits(m).1)
    ensures |p| == |Parent(p)| + 1
  {
    var pp, n := Parent(p), Last(p);
    MirrorBits(d, n);
    var m := Mirror(NeighborIndex(d, n));
    BitsRange(m);
    assert p == pp + [n];
    MoveHalf(pp, n, d, m);
  }

  /** A step from child n of pp that lands in quarter m of the square next
      to pp. */
  lemma MoveHalf(pp: Path, n: ChildIx, d: Dir, m: ChildIx)
    requires Bits(n).0 + Step(d).0 == 2 * Step(d).0 + Bits(m).0
    requires Bits(n).1 + Step(d).1 == 2 * Step(d).1 + Bits(m).1
    ensures var h := Move(Coords(pp), d);
      Move(Coords(pp + [n]), d) == (2 * h.0 + Bits(m).0, 2 * h.1 + Bits(m).1)
  {
    CoordsSnoc(pp, n);
  }

  /** The square next to a child on side d of its parent is the mirrored
      child of the square next to the parent. */
  lemma AdjacentMirror(p: Path, d: Dir)
    requires p != [] && NeighborIndex(d, Last(p)) < 0
    ensures -4 <= NeighborIndex(d, Last(p))
    ensures Adjacent(p, d) == match Adjacent(Parent(p), d)
      case None => None
      case Some(rr) => Some(rr + [Mirror(NeighborIndex(d, Last(p)))])
  {
    MirrorMove(p, d);
    var m := Mirror(NeighborIndex(d, Last(p)));
    var h := Move(Coords(Parent(p)), d);
    InRangeHalf(|Parent(p)|, h, Bits(m));
    if InRange(|Parent(p)|, h) {
      MirrorAdjacentIn(p, d, PathAt(|Parent(p)|, h), m);
    }
  }

  /** AdjacentMirror when the square next to the parent is inside the
      root. */
  lemma MirrorAdjacentIn(p: Path, d: Dir, rr: Path, m: ChildIx)
    requires p != [] && NeighborIndex(d, Last(p)) < 0
    requires -4 <= NeighborIndex(d, Last(p)) && m == Mirror(NeighborIndex(d, Last(p)))
    requires |rr| == |Parent(p)| && Coords(rr) == Move(Coords(Parent(p)), d)
    ensures Adjacent(p, d) == Some(rr + [m])
  {
    MirrorMove(p, d);
    CoordsSnoc(rr, m);
    AdjacentIs(p, rr + [m], d);
  }

  /** The step of NeighborCovers when the neighbour is looked for next to
      the parent. */
  lemma MirrorCovers(t: Cell, p: Path, d: Dir)
    requires Live(t, p) && p != [] && NeighborIndex(d, Last(p)) < 0
    requires FindsCover(t, Parent(p), d)
    ensures FindsCover(t, p, d)
  {
    AdjacentMirror(p, d);
    if Adjacent(Parent(p), d).Some? {
      MirrorCoversAt(t, p, d, Adjacent(Parent(p), d).value, Mirror(NeighborIndex(d, Last(p))));
    }
  }

  /** MirrorCovers when the adjacent square r = rr + [m] is inside the
      root. */
  lemma MirrorCoversAt(t: Cell, p: Path, d: Dir, rr: Path, m: ChildIx)
    requires Live(t, p) && p != [] && NeighborIndex(d, Last(p)) < 0
    requires m == Mirror(NeighborIndex(d, Last(p)))
    requires Adjacent(Parent(p), d) == Some(rr) && Adjacent(p, d) == Some(rr + [m])
    requires Neighbor(t, Parent(p), d) == Cover(t, rr)
    ensures Neighbor(t, p, d) == Cover(t, rr + [m])
  {
    var r := rr + [m];
    assert Parent(r) == rr;
    if Live(t, r) {
      LiveParent(t, r);
    }
    GetSnoc(t, rr, m);
  }

  // ---------------------------------------------------------------------
  // The same, in the positions of ftt_cell_pos.

  /** A live cell of p's level one cell width along d from p is what the
      neighbour search returns. */
  lemma NeighborFindsAdjacent(t: Cell, origin: Vec, p: Path, q: Path, d: Dir)
    requires Live(t, p) && Live(t, q) && |q| == |p|
    requires Pos(origin, q) == Shift(Pos(origin, p), Step(d), LevelSize(|p|))
    ensures Neighbor(t, p, d) == Some(q)
  {
    AdjacentCoords(origin, p, q, d);
    PathAtCoords(q);
    NeighborCovers(t, p, d);
  }

  /** A cell of p's level in the square next to p is that square. */
  lemma AdjacentIs(p: Path, q: Path, d: Dir)
    requires |q| == |p| && Coords(q) == Move(Coords(p), d)
    ensures Adjacent(p, d) == Some(q)
  {
    PathAtCoords(q);
  }

  /** A live cell in the square next to p is p's neighbour. */
  lemma NeighborIsAdjacent(t: Cell, p: Path, q: Path, d: Dir)
    requires Live(t, p) && Live(t, q) && Adjacent(p, d) == Some(q)
    ensures Neighbor(t, p, d) == Some(q)
  {
    NeighborCovers(t, p, d);
  }

  /** The search finds nothing exactly when no cell covers the square next
      to p: every path of p's level centred there is destroyed and all its
      live ancestors have children (and at the edge of the root there is
      no such path at all). */
  lemma NeighborNone(t: Cell, origin: Vec, p: Path, d: Dir)
    requires Live(t, p)
    ensures Neighbor(t, p, d).None? <==>
      forall r :: |r| == |p| && Pos(origin, r) == Shift(Pos(origin, p), Step(d), LevelSize(|p|)) ==>
        !Live(t, r) && forall x :: IsPrefix(x, r) && Live(t, x) ==> IsNodeAt(t, x)
  {
    NeighborCovers(t, p, d);
    if Neighbor(t, p, d).None? {
      forall r | |r| == |p| && Pos(origin, r) == Shift(Pos(origin, p), Step(d), LevelSize(|p|))
        ensures !Live(t, r) && forall x :: IsPrefix(x, r) && Live(t, x) ==> IsNodeAt(t, x)
      {
        AdjacentCoords(origin, p, r, d);
        PathAtCoords(r);
        CoverNone(t, r);
      }
    } else {
      var r := Adjacent(p, d).value;
      AdjacentCoords(origin, p, r, d);
      CoverNone(t, r);
    }
  }

  /** What the search finds covers the square next to p: it is the cell
      of p's level centred there, or a leaf above that cell. */
  lemma NeighborWithin(t: Cell, origin: Vec, p: Path, d: Dir)
    requires Live(t, p) && Neighbor(t, p, d).Some?
    ensures exists r ::
      && |r| == |p| && Pos(origin, r) == Shift(Pos(origin, p), Step(d), LevelSize(|p|))
      && IsPrefix(Neighbor(t, p, d).value, r)
      && (Neighbor(t, p, d).value == r || IsLeafAt(t, Neighbor(t, p, d).value))
  {
    NeighborCovers(t, p, d);
    var r := Adjacent(p, d).value;
    AdjacentCoords(origin, p, r, d);
  }

  // ---------------------------------------------------------------------
  // The converse of ftt_refine_corner's answer, in a complete balanced
  // tree.

  /** No child of any cell is destroyed below a live cell of a complete
      tree. */
  lemma {:induction false} CompleteGet(t: Cell, x: Path)
    requires Complete(t) && Live(t, x)
    ensures Complete(Get(t, x).value)
    decreases |x|
  {
    if x != [] {
      CompleteGet(Slot(t, x[0]).value, x[1..]);
    }
  }

  lemma CompleteChild(t: Cell, x: Path, m: ChildIx)
    requires Complete(t) && IsNodeAt(t, x)
    ensures Live(t, x + [m])
  {
    CompleteGet(t, x);
    GetSnoc(t, x, m);
  }

  /** In a complete tree every square is covered. */
  lemma {:induction false} CoverComplete(t: Cell, r: Path)
    requires Complete(t)
    ensures Cover(t, r).Some?
    decreases |r|
  {
    if !Live(t, r) {
      var pr := Parent(r);
      CoverComplete(t, pr);
      assert r == pr + [Last(r)];
      if IsNodeAt(t, pr) {
        CompleteChild(t, pr, Last(r));
      }
    }
  }

  /** Every cell is balanced in every direction: its neighbours are at
      most one level coarser (what refinement keeps). */
  ghost predicate AllBalanced(t: Cell)
  {
    forall x, d {:trigger Balanced(t, x, d)} :: Live(t, x) ==> Balanced(t, x, d)
  }

  /** In a complete balanced tree the square of a node's level next to
      it, when inside the root, is a live cell: the node's children on
      that side have neighbours at least as fine as the node. */
  lemma NodeNeighborLive(t: Cell, q: Path, d: Dir)
    requires Complete(t) && AllBalanced(t) && IsNodeAt(t, q)
    requires InRange(|q|, Move(Coords(q), d))
    ensures Live(t, PathAt(|q|, Move(Coords(q), d)))
  {
    var m := ChildrenDir(d)[0];
    ChildrenDirCharacterised(d, m);
    var qc := q + [m];
    CompleteChild(t, qc[..|q|], m) by {
      assert qc[..|q|] == q;
    }
    assert Parent(qc) == q && Last(qc) == m;
    AdjacentMirror(qc, d);
    var rr := PathAt(|q|, Move(Coords(q), d));
    var r := rr + [Mirror(NeighborIndex(d, m))];
    assert Adjacent(qc, d) == Some(r);
    NeighborCovers(t, qc, d);
    CoverComplete(t, r);
    var x := Cover(t, r).value;
    assert Balanced(t, qc, d);
    assert |x| >= |rr|;
    assert x[..|rr|] == r[..|rr|] == rr;
    LivePrefix(t, x, rr);
  }

  /** p and a cell q one level finer are diagonal at three quarters of p's
      width: q is the quarter touching p's corner of a cell diagonal to p. */
  predicate DiagonalGrid(cp: (int, int), cq: (int, int))
  {
    (cq.0 - 2 * cp.0 == 2 || cq.0 - 2 * cp.0 == -1) && (cq.1 - 2 * cp.1 == 2 || cq.1 - 2 * cp.1 == -1)
  }

  /** One coordinate of DiagonalCoords. */
  lemma DiagonalComponent(x: real, cp: int, cq: int, w: real, k: real)
    requires w > 0.0 && k == 3.0 * w
    ensures (Place(x, Centre(cq), w) - Place(x, Centre(cp), 2.0 * w) == k
          || Place(x, Centre(cq), w) - Place(x, Centre(cp), 2.0 * w) == -k)
      <==> (cq - 2 * cp == 2 || cq - 2 * cp == -1)
  {
    var a, b := Centre(cq), Centre(cp);
    assert a - 2 * b == 2 * (cq - 2 * cp) - 1;
    assert Place(x, a, w) - Place(x, b, 2.0 * w) == ((a - 2 * b) as real) * w by {
      Distribute(a - 2 * b, b, 2, w);
    }
    ScaleCancel(a - 2 * b, 3, w);
    ScaleCancel(a - 2 * b, -3, w);
  }

  /** The diagonal test of RefineCornerFindsFinerDiagonal on the grid. */
  lemma DiagonalCoords(origin: Vec, p: Path, q: Path)
    requires |q| == |p| + 1
    ensures Diagonal(Pos(origin, q), Pos(origin, p), 3.0 * LevelSize(|p|) / 4.0) <==>
      && (Coords(q).0 - 2 * Coords(p).0 == 2 || Coords(q).0 - 2 * Coords(p).0 == -1)
      && (Coords(q).1 - 2 * Coords(p).1 == 2 || Coords(q).1 - 2 * Coords(p).1 == -1)
  {
    var w := LevelSize(|p|) / 4.0;
    PosIsGrid(origin, p, Coords(p), |p|, 2.0 * w);
    LevelSizeNext(p, q);
    PosIsGrid(origin, q, Coords(q), |q|, w);
    DiagonalAt(Pos(origin, p), Pos(origin, q), origin, Coords(p), Coords(q), w, 3.0 * LevelSize(|p|) / 4.0);
  }

  lemma LevelSizeNext(p: Path, q: Path)
    requires |q| == |p| + 1
    ensures LevelSize(|q|) == LevelSize(|p|) / 2.0
  {
    LevelSizeSucc(|p|);
  }

  /** Centres P and Q of square cp of half-width 2w and of square cq of
      half-width w are diagonal at 3w exactly when DiagonalGrid holds. */
  lemma DiagonalAt(P: Vec, Q: Vec, origin: Vec, cp: (int, int), cq: (int, int), w: real, k: real)
    requires w > 0.0 && k == 3.0 * w
    requires P == GridAt(origin, cp, 2.0 * w) && Q == GridAt(origin, cq, w)
    ensures Diagonal(Q, P, k) <==>
      (cq.0 - 2 * cp.0 == 2 || cq.0 - 2 * cp.0 == -1) && (cq.1 - 2 * cp.1 == 2 || cq.1 - 2 * cp.1 == -1)
  {
    DiagonalComponent(origin.x - 0.5, cp.0, cq.0, w, k);
    DiagonalComponent(origin.y - 0.5, cp.1, cq.1, w, k);
  }

  /** For a horizontal i, child j on side Opposite(i) is in the column
      next to the neighbour along i and in the top row for j = 0, and the
      perpendicular direction of ftt_refine_corner points out of that row. */
  lemma CornerBits(i: Dir, j: nat)
    requires i <= 1 && j < 2
    ensures Bits(ChildrenDir(Opposite(i))[j]) == (if i == Right then 0 else 1, if j == 0 then 1 else 0)
    ensures Perpendicular(i, j) == if j == 0 then Top else Bottom
  {
  }

  /** The converse of RefineCornerFindsFinerDiagonal in a complete tree
      balanced 2:1: when a leaf p touches at a corner a non-leaf cell one
      level finer, ftt_refine_corner answers TRUE. */
  lemma FinerDiagonalFindsCorner(t: Cell, origin: Vec, p: Path, q: Path)
    requires Complete(t) && AllBalanced(t)
    requires IsLeafAt(t, p) && IsNodeAt(t, q) && |q| == |p| + 1
    requires Diagonal(Pos(origin, q), Pos(origin, p), 3.0 * LevelSize(|p|) / 4.0)
    ensures RefineCorner(t, p)
  {
    var P, Q := DiagonalSquares(origin, p, q);
    CornerFine(t, p, q, P, Q);
  }

  /** The squares of p and q, with DiagonalCoords for them. */
  lemma DiagonalSquares(origin: Vec, p: Path, q: Path) returns (P: (int, int), Q: (int, int))
    requires |q| == |p| + 1
    requires Diagonal(Pos(origin, q), Pos(origin, p), 3.0 * LevelSize(|p|) / 4.0)
    ensures P == Coords(p) && Q == Coords(q)
    ensures (Q.0 - 2 * P.0 == 2 || Q.0 - 2 * P.0 == -1) && (Q.1 - 2 * P.1 == 2 || Q.1 - 2 * P.1 == -1)
  {
    P, Q := Coords(p), Coords(q);
    DiagonalCoords(origin, p, q);
  }

  /** The horizontal direction from square P towards the square Q one
      level finer diagonal to it. */
  function CornerSide(P: (int, int), Q: (int, int)): Dir
  {
    if Q.0 - 2 * P.0 == 2 then Right else Left
  }

  /** Which of the two children on the side of that neighbour facing back
      touches Q: 0 for the upper one. */
  function CornerRow(P: (int, int), Q: (int, int)): (j: nat)
    ensures j < 2
  {
    if Q.1 - 2 * P.1 == 2 then 0 else 1
  }

  /** The child of the neighbour along CornerSide that touches Q. */
  function CornerChildIx(P: (int, int), Q: (int, int)): ChildIx
  {
    ChildrenDir(Opposite(CornerSide(P, Q)))[CornerRow(P, Q)]
  }

  /** The direction from that child to Q. */
  function CornerUp(P: (int, int), Q: (int, int)): Dir
  {
    Perpendicular(CornerSide(P, Q), CornerRow(P, Q))
  }

  /** On the grid, the walk of ftt_refine_corner from P (one step along
      CornerSide, into the child CornerChildIx facing back, one step along
      the perpendicular) ends at the square Q diagonal to P at three
      quarters of its width; C is the square of that child. */
  lemma CornerSquares(P: (int, int), Q: (int, int), L: nat, L1: nat) returns (N: (int, int), C: (int, int))
    requires L1 == L + 1 && InRange(L, P) && InRange(L1, Q)
    requires DiagonalGrid(P, Q)
    ensures N == Move(P, CornerSide(P, Q)) && InRange(L, N)
    ensures C == (2 * N.0 + Bits(CornerChildIx(P, Q)).0, 2 * N.1 + Bits(CornerChildIx(P, Q)).1)
    ensures C == Move(Q, Opposite(CornerUp(P, Q))) && Move(C, CornerUp(P, Q)) == Q
    ensures InRange(L1, C)
  {
    var i, j, ch := CornerSide(P, Q), CornerRow(P, Q), CornerChildIx(P, Q);
    N := Move(P, i);
    C := (2 * N.0 + Bits(ch).0, 2 * N.1 + Bits(ch).1);
    CornerBits(i, j);
    OppositeInvolution(Perpendicular(i, j));
    assert Pow2(L + 1) == 2 * Pow2(L);
    BitsRange(ch);
    InRangeHalf(L, N, Bits(ch));
  }

  /** FinerDiagonalFindsCorner on the grid. */
  lemma CornerFine(t: Cell, p: Path, q: Path, P: (int, int), Q: (int, int))
    requires Complete(t) && AllBalanced(t)
    requires IsLeafAt(t, p) && IsNodeAt(t, q) && |q| == |p| + 1
    requires P == Coords(p) && Q == Coords(q) && DiagonalGrid(P, Q)
    ensures RefineCorner(t, p)
  {
    var n, c := CornerCell(t, p, q, P, Q);
    var i, e := CornerSide(P, Q), CornerUp(P, Q);
    assert Neighbor(t, p, i) == Some(n) by {
      AdjacentIs(p, n, i);
      NeighborIsAdjacent(t, p, n, i);
    }
    assert Neighbor(t, c, e) == Some(q) by {
      AdjacentIs(c, q, e);
      NeighborIsAdjacent(t, c, q, e);
    }
    CornerFromCells(t, p, n, q, i, CornerRow(P, Q));
  }

  /** ftt_refine_corner answers TRUE once its walk meets a non-leaf. */
  lemma CornerFromCells(t: Cell, p: Path, n: Path, q: Path, i: Dir, j: nat)
    requires j < 2 && IsLeafAt(t, p) && Neighbor(t, p, i) == Some(n) && IsNodeAt(t, n)
    requires Live(t, n + [ChildrenDir(Opposite(i))[j]])
    requires Neighbor(t, n + [ChildrenDir(Opposite(i))[j]], Perpendicular(i, j)) == Some(q) && IsNodeAt(t, q)
    ensures RefineCorner(t, p)
  {
    assert CornerChildFine(t, n, i, j);
    assert DirectionCornerFine(t, p, i);
  }

  /** The cell n next to p along CornerSide has children, and its child c
      facing back is live and next to q. */
  lemma CornerCell(t: Cell, p: Path, q: Path, P: (int, int), Q: (int, int)) returns (n: Path, c: Path)
    requires Complete(t) && AllBalanced(t) && IsNodeAt(t, q) && |q| == |p| + 1
    requires P == Coords(p) && Q == Coords(q) && DiagonalGrid(P, Q)
    ensures |n| == |p| && Coords(n) == Move(P, CornerSide(P, Q)) && IsNodeAt(t, n)
    ensures c == n + [CornerChildIx(P, Q)] && Live(t, c)
    ensures |q| == |c| && Coords(q) == Move(Coords(c), CornerUp(P, Q))
  {
    var C;
    n, C := CornerPath(p, q, P, Q);
    c := n + [CornerChildIx(P, Q)];
    CornerChild(t, q, n, CornerChildIx(P, Q), C, Opposite(CornerUp(P, Q)));
  }

  /** The path n of the square next to p along CornerSide, and the square
      C of its child facing back, which is next to q. */
  lemma CornerPath(p: Path, q: Path, P: (int, int), Q: (int, int)) returns (n: Path, C: (int, int))
    requires |q| == |p| + 1 && P == Coords(p) && Q == Coords(q) && DiagonalGrid(P, Q)
    ensures |n| == |p| && Coords(n) == Move(P, CornerSide(P, Q))
    ensures Coords(n + [CornerChildIx(P, Q)]) == C
    ensures C == Move(Q, Opposite(CornerUp(P, Q))) && Move(C, CornerUp(P, Q)) == Q
    ensures InRange(|q|, C)
  {
    CoordsRange(p);
    CoordsRange(q);
    var N;
    N, C := CornerSquares(P, Q, |p|, |q|);
    n := PathOf(|p|, N);
    SnocSquare(n, CornerChildIx(P, Q), N, C);
  }

  /** The square of child ch of the cell in square N. */
  lemma SnocSquare(n: Path, ch: ChildIx, N: (int, int), C: (int, int))
    requires Coords(n) == N && C == (2 * N.0 + Bits(ch).0, 2 * N.1 + Bits(ch).1)
    ensures Coords(n + [ch]) == C
  {
    CoordsSnoc(n, ch);
  }

  /** Child ch of n lies in square C next to the node q along d, so in a
      complete balanced tree it is live and n has children. */
  lemma CornerChild(t: Cell, q: Path, n: Path, ch: ChildIx, C: (int, int), d: Dir)
    requires Complete(t) && AllBalanced(t) && IsNodeAt(t, q)
    requires |q| == |n| + 1 && Coords(n + [ch]) == C
    requires C == Move(Coords(q), d) && InRange(|q|, C)
    ensures Live(t, n + [ch]) && IsNodeAt(t, n)
  {
    NodeNeighborLive(t, q, d);
    CoordsInjective(PathAt(|q|, C), n + [ch]);
    LiveParent(t, n + [ch]);
    assert Parent(n + [ch]) == n;
  }
}
