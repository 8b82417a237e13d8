/** Cell sizes, centres and point location of src/ftt.c (ftt_level_size,
    ftt_cell_volume, ftt_cell_pos, ftt_cell_locate), in exact reals. */
module Geometry {
  import opened Wrappers
  import opened Directions
  import opened Tree

  datatype Vec = Vec(x: real, y: real, z: real)

  /** ftt_level_size: the side of a cell of the given level, the root
      having side 1. */
  function LevelSize(level: nat): (r: real)
    ensures r > 0.0
  {
    if level == 0 then 1.0 else LevelSize(level - 1) / 2.0
  }

  function Pow2(n: nat): nat
  {
    if n == 0 then 1 else 2 * Pow2(n - 1)
  }

  /** The halving loop computes 1/2^level. */
  lemma {:induction false} LevelSizeIsPower(level: nat)
    ensures LevelSize(level) * (Pow2(level) as real) == 1.0
  {
    if level > 0 {
      LevelSizeIsPower(level - 1);
    }
  }

  /** ftt_cell_volume: the area of a cell of the given level, the square
      of its size. */
  function Volume(level: nat): real
  {
    LevelSize(level) * LevelSize(level)
  }

  /** Each level divides the area by four, so four children cover exactly
      the area of their parent and the root has area 1. */
  lemma ChildrenVolume(level: nat)
    ensures 4.0 * Volume(level + 1) == Volume(level)
    ensures Volume(0) == 1.0
  {
  }

  /** v moved by k times the integer vector s. */
  function Shift(v: Vec, s: (int, int, int), k: real): Vec
  {
    Vec(v.x + (s.0 as real) * k, v.y + (s.1 as real) * k, v.z + (s.2 as real) * k)
  }

  /** ftt_cell_pos: the centre of the cell at path p of a tree whose root
      is centred at `origin`; a child sits at its parent's centre plus its
      coords offset times half its own size. */
  function Pos(origin: Vec, p: Path): Vec
    decreases |p|
  {
    if p == [] then origin
    else Shift(Pos(origin, Parent(p)), ChildOffset(Last(p)), LevelSize(|p|) / 2.0)
  }

  /** The closed box of a cell: side LevelSize around its centre, in all
      three coordinates. */
  predicate InBox(target: Vec, centre: Vec, level: nat)
  {
    var h := LevelSize(level) / 2.0;
    centre.x - h <= target.x <= centre.x + h &&
    centre.y - h <= target.y <= centre.y + h &&
    centre.z - h <= target.z <= centre.z + h
  }

  /** ftt_cell_locate on the subtree c found at path p: None when the
      target is outside the cell, the cell itself when it is a leaf or at
      max_depth, otherwise the first live child, in index order, that
      locates the target. */
  function LocateAt(c: Cell, p: Path, origin: Vec, target: Vec, maxDepth: int): Option<Path>
    decreases c
  {
    if !InBox(target, Pos(origin, p), |p|) then None
    else if c.Leaf? || |p| == maxDepth then Some(p)
    else LocateKids(c, p, origin, target, maxDepth, 0)
  }

  function LocateKids(c: Cell, p: Path, origin: Vec, target: Vec, maxDepth: int, n: nat): Option<Path>
    requires c.Node? && n <= 4
    decreases c, 4 - n
  {
    if n == 4 then None
    else match Slot(c, n)
      case None => LocateKids(c, p, origin, target, maxDepth, n + 1)
      case Some(k) =>
        var r := LocateAt(k, p + [n], origin, target, maxDepth);
        if r.Some? then r else LocateKids(c, p, origin, target, maxDepth, n + 1)
  }

  /** ftt_cell_locate from the root. */
  function Locate(t: Cell, origin: Vec, target: Vec, maxDepth: int): (r: Option<Path>)
    ensures r.Some? ==> Live(t, r.value) && InBox(target, Pos(origin, r.value), |r.value|)
    ensures r.Some? ==> IsLeafAt(t, r.value) || |r.value| == maxDepth
    ensures maxDepth >= 0 && r.Some? ==> |r.value| <= maxDepth
  {
    LocateSound(t, [], t, origin, target, maxDepth);
    LocateAt(t, [], origin, target, maxDepth)
  }

  /** Whatever is located below the cell at p is a live cell of the tree
      under p, containing the target, and a leaf or at max_depth; from a
      start no deeper than a non-negative max_depth it is never deeper
      than max_depth, and from a deeper start it is a leaf. */
  lemma {:induction false} LocateSound(t: Cell, p: Path, c: Cell, origin: Vec, target: Vec, maxDepth: int)
    requires Get(t, p) == Some(c)
    ensures var r := LocateAt(c, p, origin, target, maxDepth);
      r.Some? ==>
        (Live(t, r.value) && IsPrefix(p, r.value) &&
         InBox(target, Pos(origin, r.value), |r.value|) &&
         (IsLeafAt(t, r.value) || |r.value| == maxDepth) &&
         (maxDepth >= 0 && |p| <= maxDepth ==> |r.value| <= maxDepth) &&
         (|p| > maxDepth ==> IsLeafAt(t, r.value)))
    decreases c, 5
  {
    if InBox(target, Pos(origin, p), |p|) && !(c.Leaf? || |p| == maxDepth) {
      LocateKidsSound(t, p, c, origin, target, maxDepth, 0);
    }
  }

  lemma {:induction false} LocateKidsSound(t: Cell, p: Path, c: Cell, origin: Vec, target: Vec, maxDepth: int, n: nat)
    requires Get(t, p) == Some(c) && c.Node? && n <= 4
    ensures var r := LocateKids(c, p, origin, target, maxDepth, n);
      r.Some? ==>
        (Live(t, r.value) && IsPrefix(p, r.value) &&
         InBox(target, Pos(origin, r.value), |r.value|) &&
         (IsLeafAt(t, r.value) || |r.value| == maxDepth) &&
         (maxDepth >= 0 && |p| < maxDepth ==> |r.value| <= maxDepth) &&
         (|p| >= maxDepth ==> IsLeafAt(t, r.value)))
    decreases c, 4 - n
  {
    if n < 4 {
      if Slot(c, n).Some? {
        var k := Slot(c, n).value;
        GetSnoc(t, p, n);
        LocateSound(t, p + [n], k, origin, target, maxDepth);
        var r := LocateAt(k, p + [n], origin, target, maxDepth);
        if r.Some? {
          assert IsPrefix(p, r.value) by {
            assert r.value[..|p|] == (r.value[..|p| + 1])[..|p|];
          }
        }
      }
      LocateKidsSound(t, p, c, origin, target, maxDepth, n + 1);
    }
  }

  /** No oct of the tree has a destroyed child. */
  predicate Complete(c: Cell)
    decreases c
  {
    match c
    case Leaf => true
    case Node(a, b, x, d) =>
      a.Some? && b.Some? && x.Some? && d.Some? &&
      Complete(a.value) && Complete(b.value) && Complete(x.value) && Complete(d.value)
  }

  /** Multiplying by a unit offset is linear. */
  lemma UnitTimes(o: int, k: real)
    requires -1 <= o <= 1
    ensures (o as real) * k == if o == 1 then k else if o == -1 then -k else 0.0
  {
  }

  lemma PosChild(origin: Vec, p: Path, n: ChildIx)
    ensures Pos(origin, p + [n]) == Shift(Pos(origin, p), ChildOffset(n), LevelSize(|p| + 1) / 2.0)
  {
    assert Parent(p + [n]) == p && Last(p + [n]) == n;
  }

  /** Along one axis: a point within h of c, on the side o of c, is
      within h/2 of the centre of that half. */
  lemma HalfCovers(c: real, h: real, t: real, o: int)
    requires h > 0.0 && c - h <= t <= c + h
    requires o == -1 || o == 1
    requires if o == -1 then t <= c else t >= c
    ensures var m := c + (o as real) * (h / 2.0); m - h / 2.0 <= t <= m + h / 2.0
  {
    UnitTimes(o, h / 2.0);
  }

  /** A target inside a cell centred at q and on the side of child n
      along both axes lies inside child n. */
  lemma ChildContains(q: Vec, level: nat, target: Vec, n: ChildIx)
    requires InBox(target, q, level) && target.z == q.z
    requires var o := ChildOffset(n);
      (if o.0 == -1 then target.x <= q.x else target.x >= q.x) &&
      (if o.1 == -1 then target.y <= q.y else target.y >= q.y)
    ensures var c := Shift(q, ChildOffset(n), LevelSize(level + 1) / 2.0);
      InBox(target, c, level + 1) && target.z == c.z
  {
    var h := LevelSize(level) / 2.0;
    var o := ChildOffset(n);
    assert LevelSize(level + 1) / 2.0 == h / 2.0;
    HalfCovers(q.x, h, target.x, o.0);
    HalfCovers(q.y, h, target.y, o.1);
    UnitTimes(o.2, h / 2.0);
  }

  /** The four children of a cell cover its box: a target inside a cell
      (in the plane of the root) lies inside one of its children. */
  lemma ChildCovers(origin: Vec, p: Path, target: Vec) returns (n: ChildIx)
    requires InBox(target, Pos(origin, p), |p|) && target.z == Pos(origin, p).z
    ensures InBox(target, Pos(origin, p + [n]), |p| + 1) && target.z == Pos(origin, p + [n]).z
  {
    var q := Pos(origin, p);
    if target.x <= q.x {
      n := if target.y >= q.y then 0 else 2;
    } else {
      n := if target.y >= q.y then 1 else 3;
    }
    PosChild(origin, p, n);
    ChildContains(q, |p|, target, n);
  }

  /** In a tree without destroyed children, every point of the root's box
      (in the root's plane) is located. */
  lemma {:induction false} LocateComplete(c: Cell, p: Path, origin: Vec, target: Vec, maxDepth: int)
    requires Complete(c)
    requires InBox(target, Pos(origin, p), |p|) && target.z == Pos(origin, p).z
    ensures LocateAt(c, p, origin, target, maxDepth).Some?
    decreases c, 5
  {
    if !(c.Leaf? || |p| == maxDepth) {
      var n := ChildCovers(origin, p, target);
      LocateKidsComplete(c, p, origin, target, maxDepth, 0, n);
    }
  }

  lemma {:induction false} LocateKidsComplete(c: Cell, p: Path, origin: Vec, target: Vec, maxDepth: int, i: nat, n: ChildIx)
    requires c.Node? && Complete(c) && i <= n
    requires InBox(target, Pos(origin, p + [n]), |p| + 1) && target.z == Pos(origin, p + [n]).z
    ensures LocateKids(c, p, origin, target, maxDepth, i).Some?
    decreases c, 4 - i
  {
    var k := Slot(c, i).value;
    if i == n {
      LocateComplete(k, p + [n], origin, target, maxDepth);
    } else if LocateAt(k, p + [i], origin, target, maxDepth).None? {
      LocateKidsComplete(c, p, origin, target, maxDepth, i + 1, n);
    }
  }

  /** The located cell of a complete tree, for any point of the root's box. */
  lemma LocateTotal(t: Cell, origin: Vec, target: Vec, maxDepth: int)
    requires Complete(t) && InBox(target, origin, 0) && target.z == origin.z
    ensures Locate(t, origin, target, maxDepth).Some?
  {
    LocateComplete(t, [], origin, target, maxDepth);
  }
}
