/** The traversal family of src/ftt.c: ftt_cell_traverse,
    ftt_cell_traverse_boundary and the snapshot iterator
    ftt_cell_traverse_new / _next / _rewind.

    A traversal is modelled as the sequence of paths the callback would be
    called with, in call order; the callback itself does not change the
    tree. */
module Traverse {
  import opened Wrappers
  import opened Directions
  import opened Tree

  datatype Order = PreOrder | PostOrder

  /** FttTraverseFlags as its three bits: LEAFS, NON_LEAFS and LEVEL. */
  datatype Flags = Flags(leafs: bool, nonLeafs: bool, level: bool)

  /** FTT_TRAVERSE_ALL = LEAFS | NON_LEAFS. */
  const All: Flags := Flags(true, true, false)

  /** The eight static walkers cell_traverse_* (and their boundary twins). */
  datatype Mode =
    | PreAll | PostAll | Leafs | PreNonLeafs | PostNonLeafs
    | LevelAll | LevelLeafs | LevelNonLeafs

  /** The children a walker descends into: all four in index order, or
      the two on side d (ftt_cell_children_direction) for the boundary
      walkers. */
  function ChildList(side: Option<Dir>): (r: seq<ChildIx>)
    ensures forall n: ChildIx :: n in r <==> (side.None? || n in ChildrenDir(side.value))
    ensures forall i, j :: 0 <= i < j < |r| ==> r[i] != r[j]
  {
    if side.None? then [0, 1, 2, 3] else ChildrenDir(side.value)
  }

  /** The depth cut shared by the non-level walkers: a cell deeper than a
      non-negative max_depth is not entered. */
  predicate Pruned(level: nat, maxDepth: int)
  {
    maxDepth >= 0 && level > maxDepth
  }

  /** The walker of mode m on the subtree c found at path p. */
  function Walk(c: Cell, p: Path, maxDepth: int, m: Mode, side: Option<Dir>): seq<Path>
    decreases c, 1
  {
    var k := Kids(c, p, maxDepth, m, side, 0);
    match m
    case PreAll => if Pruned(|p|, maxDepth) then [] else [p] + k
    case PostAll => if Pruned(|p|, maxDepth) then [] else k + [p]
    case Leafs => if Pruned(|p|, maxDepth) then [] else if c.Leaf? then [p] else k
    case PreNonLeafs => if Pruned(|p|, maxDepth) || c.Leaf? then [] else [p] + k
    case PostNonLeafs => if Pruned(|p|, maxDepth) || c.Leaf? then [] else k + [p]
    case LevelAll => if |p| == maxDepth then [p] else k
    case LevelLeafs => if |p| == maxDepth || c.Leaf? then [p] else k
    case LevelNonLeafs => if |p| == maxDepth && c.Node? then [p] else k
  }

  /** The walks of the live children ChildList(side)[i..] of c, in order. */
  function Kids(c: Cell, p: Path, maxDepth: int, m: Mode, side: Option<Dir>, i: nat): seq<Path>
    requires i <= |ChildList(side)|
    decreases c, 0, |ChildList(side)| - i
  {
    if c.Leaf? || i == |ChildList(side)| then []
    else
      var n := ChildList(side)[i];
      (match Slot(c, n) case None => [] case Some(x) => Walk(x, p + [n], maxDepth, m, side))
      + Kids(c, p, maxDepth, m, side, i + 1)
  }

  /** Which cells a mode calls the callback on: x is the cell at depth
      qlen, below a walk started at depth plen. */
  predicate Selected(x: Cell, plen: nat, qlen: nat, maxDepth: int, m: Mode)
  {
    match m
    case PreAll => !Pruned(qlen, maxDepth)
    case PostAll => !Pruned(qlen, maxDepth)
    case Leafs => !Pruned(qlen, maxDepth) && x.Leaf?
    case PreNonLeafs => !Pruned(qlen, maxDepth) && x.Node?
    case PostNonLeafs => !Pruned(qlen, maxDepth) && x.Node?
    case LevelAll => qlen == maxDepth
    case LevelLeafs => qlen == maxDepth || (x.Leaf? && !(plen <= maxDepth < qlen))
    case LevelNonLeafs => qlen == maxDepth && x.Node?
  }

  /** Every step of q below depth `from` goes to a child on side d. */
  predicate OnBoundary(side: Option<Dir>, q: Path, from: nat)
  {
    side.None? || forall k :: from <= k < |q| ==> q[k] in ChildrenDir(side.value)
  }

  /** The cell of subtree c at the part of q below p. */
  predicate Member(c: Cell, p: Path, q: Path, maxDepth: int, m: Mode, side: Option<Dir>, plen: nat)
  {
    IsPrefix(p, q) && Get(c, q[|p|..]).Some? &&
    Selected(Get(c, q[|p|..]).value, plen, |q|, maxDepth, m) && OnBoundary(side, q, |p|)
  }

  /** Whether the walker, standing on c at p, goes on into the children. */
  predicate Descends(c: Cell, p: Path, maxDepth: int, m: Mode)
  {
    c.Node? &&
    match m
    case LevelAll => |p| != maxDepth
    case LevelLeafs => |p| != maxDepth
    case LevelNonLeafs => |p| != maxDepth
    case _ => !Pruned(|p|, maxDepth)
  }

  lemma GetChildPath(c: Cell, p: Path, q: Path)
    requires IsPrefix(p, q) && |q| > |p| && c.Node?
    ensures Get(c, q[|p|..]) ==
      match Slot(c, q[|p|]) case None => None case Some(x) => Get(x, q[|p| + 1..])
  {
    assert q[|p|..][0] == q[|p|];
    assert q[|p|..][1..] == q[|p| + 1..];
  }

  lemma {:induction false} KidsMembers(c: Cell, p: Path, maxDepth: int, m: Mode, side: Option<Dir>, i: nat, q: Path)
    requires i <= |ChildList(side)|
    ensures q in Kids(c, p, maxDepth, m, side, i) <==>
      c.Node? && |q| > |p| && Member(c, p, q, maxDepth, m, side, |p| + 1) &&
      q[|p|] in ChildList(side)[i..]
    decreases c, 0, |ChildList(side)| - i
  {
    if c.Node? && i < |ChildList(side)| {
      var n := ChildList(side)[i];
      assert q in Kids(c, p, maxDepth, m, side, i + 1) <==>
        |q| > |p| && Member(c, p, q, maxDepth, m, side, |p| + 1) && q[|p|] in ChildList(side)[i + 1..] by {
        KidsMembers(c, p, maxDepth, m, side, i + 1, q);
      }
      assert q in (match Slot(c, n) case None => [] case Some(x) => Walk(x, p + [n], maxDepth, m, side)) <==>
        |q| > |p| && Member(c, p, q, maxDepth, m, side, |p| + 1) && q[|p|] == n by {
        ChildMembers(c, p, maxDepth, m, side, n, q);
      }
      assert ChildList(side)[i..] == [n] + ChildList(side)[i + 1..];
    }
  }

  /** The walk of child n of c calls the callback on the members below
      p whose step below p is n. */
  lemma ChildMembers(c: Cell, p: Path, maxDepth: int, m: Mode, side: Option<Dir>, n: ChildIx, q: Path)
    requires c.Node? && n in ChildList(side)
    ensures q in (match Slot(c, n) case None => [] case Some(x) => Walk(x, p + [n], maxDepth, m, side)) <==>
      |q| > |p| && Member(c, p, q, maxDepth, m, side, |p| + 1) && q[|p|] == n
    decreases c, 0, 0
  {
    if IsPrefix(p, q) && |q| > |p| {
      GetChildPath(c, p, q);
    }
    match Slot(c, n)
    case None =>
    case Some(x) =>
      WalkMembers(x, p + [n], maxDepth, m, side, q);
      if IsPrefix(p + [n], q) {
        assert q[..|p|] == (q[..|p| + 1])[..|p|];
        assert q[|p|] == (q[..|p| + 1])[|p|];
        assert q[|p + [n]|..] == q[|p| + 1..];
      }
      if IsPrefix(p, q) && |q| > |p| && q[|p|] == n {
        assert q[..|p| + 1] == q[..|p|] + [q[|p|]];
        assert IsPrefix(p + [n], q);
        OnBoundaryStep(side, q, |p|);
      }
      if IsPrefix(p + [n], q) && OnBoundary(side, q, |p| + 1) {
        OnBoundaryStep(side, q, |p|);
      }
  }

  lemma OnBoundaryStep(side: Option<Dir>, q: Path, from: nat)
    requires from < |q|
    ensures OnBoundary(side, q, from) <==>
      OnBoundary(side, q, from + 1) && q[from] in ChildList(side)
  {
  }

  /** A walk calls the callback exactly on the live cells below p that its
      mode selects (and, for a boundary walk, that lie on side d). */
  lemma {:induction false} WalkMembers(c: Cell, p: Path, maxDepth: int, m: Mode, side: Option<Dir>, q: Path)
    ensures q in Walk(c, p, maxDepth, m, side) <==> Member(c, p, q, maxDepth, m, side, |p|)
    decreases c, 1
  {
    assert q in Kids(c, p, maxDepth, m, side, 0) <==>
      c.Node? && |q| > |p| && Member(c, p, q, maxDepth, m, side, |p| + 1) by {
      KidsMembers(c, p, maxDepth, m, side, 0, q);
      assert ChildList(side)[0..] == ChildList(side);
      if IsPrefix(p, q) && |q| > |p| && c.Node? {
        OnBoundaryStep(side, q, |p|);
      }
    }
    if IsPrefix(p, q) && |q| == |p| {
      assert q == p && q[|p|..] == [];
    }
    if IsPrefix(p, q) && |q| > |p| && Get(c, q[|p|..]).Some? {
      DeeperMember(c, p, q, maxDepth, m, side);
    }
  }

  /** A live cell strictly below p is a member of the walk from p exactly
      when the walk descends from p and it is a member of the children's
      walks. */
  lemma DeeperMember(c: Cell, p: Path, q: Path, maxDepth: int, m: Mode, side: Option<Dir>)
    requires IsPrefix(p, q) && |q| > |p| && Get(c, q[|p|..]).Some?
    ensures c.Node?
    ensures Member(c, p, q, maxDepth, m, side, |p|) <==>
      Descends(c, p, maxDepth, m) && Member(c, p, q, maxDepth, m, side, |p| + 1)
  {
    GetChildPath(c, p, q);
    var x := Get(c, q[|p|..]).value;
    if Descends(c, p, maxDepth, m) {
      assert Selected(x, |p|, |q|, maxDepth, m) <==> Selected(x, |p| + 1, |q|, maxDepth, m);
    } else {
      assert !Selected(x, |p|, |q|, maxDepth, m);
    }
  }

  // ---------------------------------------------------------------------
  // Order of the calls.

  predicate Distinct(s: seq<Path>)
  {
    forall i, j :: 0 <= i < j < |s| ==> s[i] != s[j]
  }

  /** Every ancestor in the sequence comes before its descendants. */
  predicate AncestorsFirst(s: seq<Path>)
  {
    forall i, j :: 0 <= i < |s| && 0 <= j < |s| && i != j && IsPrefix(s[i], s[j]) ==> i < j
  }

  /** Every ancestor in the sequence comes after its descendants. */
  predicate AncestorsLast(s: seq<Path>)
  {
    forall i, j :: 0 <= i < |s| && 0 <= j < |s| && i != j && IsPrefix(s[i], s[j]) ==> j < i
  }

  lemma ConcatOrdered(a: seq<Path>, b: seq<Path>)
    requires Distinct(a) && Distinct(b) && (forall x, y :: x in a && y in b ==> x != y)
    ensures Distinct(a + b)
    ensures (AncestorsFirst(a) && AncestorsFirst(b) &&
             (forall x, y :: x in a && y in b ==> !IsPrefix(y, x))) ==> AncestorsFirst(a + b)
    ensures (AncestorsLast(a) && AncestorsLast(b) &&
             (forall x, y :: x in a && y in b ==> !IsPrefix(x, y))) ==> AncestorsLast(a + b)
  {
    var s := a + b;
    forall i, j | 0 <= i < |s| && 0 <= j < |s| && i < |a| <= j
      ensures s[i] in a && s[j] in b
    {
      assert s[i] == a[i] && s[j] == b[j - |a|];
    }
  }

  /** Two paths that branch at depth |p| are not ancestors of each other. */
  lemma BranchesUnrelated(p: Path, x: Path, y: Path)
    requires IsPrefix(p, x) && IsPrefix(p, y) && |x| > |p| && |y| > |p| && x[|p|] != y[|p|]
    ensures !IsPrefix(x, y) && !IsPrefix(y, x)
  {
  }

  /** A pre-order walk calls the callback on a cell before any of its
      descendants, a post-order walk after them, and no walk calls it
      twice on the same cell. */
  lemma {:induction false} WalkOrdered(c: Cell, p: Path, maxDepth: int, m: Mode, side: Option<Dir>)
    ensures Distinct(Walk(c, p, maxDepth, m, side))
    ensures m != PostAll && m != PostNonLeafs ==> AncestorsFirst(Walk(c, p, maxDepth, m, side))
    ensures m != PreAll && m != PreNonLeafs ==> AncestorsLast(Walk(c, p, maxDepth, m, side))
    decreases c, 1
  {
    var k := Kids(c, p, maxDepth, m, side, 0);
    KidsOrdered(c, p, maxDepth, m, side, 0);
    assert forall y :: y in k ==> !IsPrefix(y, p) && y != p by {
      forall y | y in k ensures !IsPrefix(y, p) && y != p {
        KidsBelow(c, p, maxDepth, m, side, y);
      }
    }
    ConcatOrdered([p], k);
    ConcatOrdered(k, [p]);
  }

  /** The children's walks visit only proper descendants of p. */
  lemma KidsBelow(c: Cell, p: Path, maxDepth: int, m: Mode, side: Option<Dir>, y: Path)
    requires y in Kids(c, p, maxDepth, m, side, 0)
    ensures IsPrefix(p, y) && |y| > |p|
    decreases c, 0, 0
  {
    KidsMembers(c, p, maxDepth, m, side, 0, y);
  }

  lemma {:induction false} KidsOrdered(c: Cell, p: Path, maxDepth: int, m: Mode, side: Option<Dir>, i: nat)
    requires i <= |ChildList(side)|
    ensures Distinct(Kids(c, p, maxDepth, m, side, i))
    ensures m != PostAll && m != PostNonLeafs ==> AncestorsFirst(Kids(c, p, maxDepth, m, side, i))
    ensures m != PreAll && m != PreNonLeafs ==> AncestorsLast(Kids(c, p, maxDepth, m, side, i))
    decreases c, 0, |ChildList(side)| - i
  {
    if c.Node? && i < |ChildList(side)| {
      var n := ChildList(side)[i];
      var rest := Kids(c, p, maxDepth, m, side, i + 1);
      KidsOrdered(c, p, maxDepth, m, side, i + 1);
      match Slot(c, n)
      case None =>
        assert Kids(c, p, maxDepth, m, side, i) == [] + rest;
      case Some(x) =>
        var w := Walk(x, p + [n], maxDepth, m, side);
        WalkOrdered(x, p + [n], maxDepth, m, side);
        forall u, v | u in w && v in rest ensures !IsPrefix(u, v) && !IsPrefix(v, u) && u != v {
          ChildApart(c, p, maxDepth, m, side, i, x, u, v);
        }
        ConcatOrdered(w, rest);
    }
  }

  /** A cell the walk of child i visits and one the walks of the later
      children visit lie in different branches. */
  lemma ChildApart(c: Cell, p: Path, maxDepth: int, m: Mode, side: Option<Dir>, i: nat, x: Cell, u: Path, v: Path)
    requires i < |ChildList(side)| && c.Node? && Slot(c, ChildList(side)[i]) == Some(x)
    requires u in Walk(x, p + [ChildList(side)[i]], maxDepth, m, side)
    requires v in Kids(c, p, maxDepth, m, side, i + 1)
    ensures !IsPrefix(u, v) && !IsPrefix(v, u) && u != v
    decreases c, 0, 0
  {
    var n := ChildList(side)[i];
    assert IsPrefix(p + [n], u) by {
      WalkMembers(x, p + [n], maxDepth, m, side, u);
    }
    assert IsPrefix(p, v) && |v| > |p| && v[|p|] in ChildList(side)[i + 1..] by {
      KidsMembers(c, p, maxDepth, m, side, i + 1, v);
    }
    assert u[..|p|] == (u[..|p| + 1])[..|p|];
    assert u[|p|] == (u[..|p| + 1])[|p|];
    assert n !in ChildList(side)[i + 1..] by {
      var r := ChildList(side);
      forall j | i + 1 <= j < |r| ensures r[j] != n {
      }
    }
    BranchesUnrelated(p, u, v);
  }

  // ---------------------------------------------------------------------
  // Counting.

  function SlotsCount(c: Cell, i: nat): nat
    requires c.Node? && i <= 4
    decreases 4 - i
  {
    if i == 4 then 0 else SlotCount(Slot(c, i)) + SlotsCount(c, i + 1)
  }

  /** An unbounded pre-order walk of everything calls the callback once per
      live cell. */
  lemma {:induction false} WalkCount(c: Cell, p: Path)
    ensures |Walk(c, p, -1, PreAll, None)| == Count(c)
    decreases c, 1
  {
    if c.Node? {
      KidsCount(c, p, 0);
    }
  }

  lemma {:induction false} KidsCount(c: Cell, p: Path, i: nat)
    requires c.Node? && i <= 4
    ensures |Kids(c, p, -1, PreAll, None, i)| == SlotsCount(c, i)
    decreases c, 0, 4 - i
  {
    if i < 4 {
      KidsCount(c, p, i + 1);
      if Slot(c, i).Some? {
        WalkCount(Slot(c, i).value, p + [i]);
      }
    }
  }

  // ---------------------------------------------------------------------
  // ftt_cell_traverse and ftt_cell_traverse_boundary.

  /** The walker ftt_cell_traverse dispatches to; None when the flags
      hold neither LEAFS, NON_LEAFS nor LEVEL (the g_return_if_fail). */
  function ModeOf(order: Order, flags: Flags): Option<Mode>
  {
    if flags == All then Some(if order == PreOrder then PreAll else PostAll)
    else if flags.level then
      Some(if flags.leafs then LevelLeafs else if flags.nonLeafs then LevelNonLeafs else LevelAll)
    else if flags.leafs then Some(Leafs)
    else if flags.nonLeafs then Some(if order == PreOrder then PreNonLeafs else PostNonLeafs)
    else None
  }

  /** ftt_cell_traverse (side None) or ftt_cell_traverse_boundary (side
      Some(d)) from the cell at path p of t. */
  function TraverseFrom(t: Cell, p: Path, side: Option<Dir>, order: Order, flags: Flags, maxDepth: int): seq<Path>
    requires Live(t, p)
  {
    if Pruned(|p|, maxDepth) then []
    else match ModeOf(order, flags)
      case None => []
      case Some(m) => Walk(Get(t, p).value, p, maxDepth, m, side)
  }

  /** The cells a traversal visits, in terms of the whole tree. */
  lemma TraverseMembers(t: Cell, p: Path, side: Option<Dir>, order: Order, flags: Flags, maxDepth: int, q: Path)
    requires Live(t, p)
    ensures q in TraverseFrom(t, p, side, order, flags, maxDepth) <==>
      ModeOf(order, flags).Some? && !Pruned(|p|, maxDepth) &&
      IsPrefix(p, q) && Live(t, q) &&
      Selected(Get(t, q).value, |p|, |q|, maxDepth, ModeOf(order, flags).value) &&
      OnBoundary(side, q, |p|)
  {
    if ModeOf(order, flags).Some? && !Pruned(|p|, maxDepth) {
      WalkMembers(Get(t, p).value, p, maxDepth, ModeOf(order, flags).value, side, q);
      if IsPrefix(p, q) {
        assert q == p + q[|p|..];
        GetAppend(t, p, q[|p|..]);
      }
    }
  }

  /** The traversal rules of the flags, from the root: LEAFS visits exactly
      the live leaves within max_depth, LEVEL exactly the live cells at
      level max_depth, ALL every live cell within max_depth; with a
      non-negative max_depth nothing deeper is ever visited, and destroyed
      cells never are. */
  lemma TraverseRules(t: Cell, order: Order, flags: Flags, maxDepth: int, q: Path)
    ensures var s := TraverseFrom(t, [], None, order, flags, maxDepth);
      (q in s ==> Live(t, q)) &&
      (q in s && maxDepth >= 0 ==> |q| <= maxDepth) &&
      (flags == Flags(true, false, false) ==> (q in s <==> IsLeafAt(t, q) && !Pruned(|q|, maxDepth))) &&
      (flags == Flags(false, false, true) ==> (q in s <==> Live(t, q) && |q| == maxDepth)) &&
      (flags == All ==> (q in s <==> Live(t, q) && !Pruned(|q|, maxDepth)))
  {
    assert Live(t, []);
    TraverseMembers(t, [], None, order, flags, maxDepth, q);
    assert IsPrefix([], q);
  }

  /** Pre-order calls come before those on descendants, post-order ones
      after, and no cell is visited twice. */
  lemma TraverseOrdered(t: Cell, p: Path, side: Option<Dir>, order: Order, flags: Flags, maxDepth: int)
    requires Live(t, p)
    ensures var s := TraverseFrom(t, p, side, order, flags, maxDepth);
      Distinct(s) &&
      (order == PreOrder ==> AncestorsFirst(s)) &&
      (order == PostOrder ==> AncestorsLast(s))
  {
    if !Pruned(|p|, maxDepth) && ModeOf(order, flags).Some? {
      WalkOrdered(Get(t, p).value, p, maxDepth, ModeOf(order, flags).value, side);
    }
  }

  // ---------------------------------------------------------------------
  // The snapshot iterator.

  /** FttCellTraverse: the recorded visits and the current position. */
  datatype Iterator = Iterator(cells: seq<Path>, current: nat)

  /** ftt_cell_traverse_new: record a traversal, positioned at its start. */
  function IteratorNew(t: Cell, p: Path, order: Order, flags: Flags, maxDepth: int): (r: Iterator)
    requires Live(t, p)
    ensures r.current == 0
    ensures forall q :: q in r.cells <==>
      ModeOf(order, flags).Some? && !Pruned(|p|, maxDepth) &&
      IsPrefix(p, q) && Live(t, q) &&
      Selected(Get(t, q).value, |p|, |q|, maxDepth, ModeOf(order, flags).value)
    ensures Distinct(r.cells)
    ensures order == PreOrder ==> AncestorsFirst(r.cells)
    ensures order == PostOrder ==> AncestorsLast(r.cells)
  {
    IteratorCells(t, p, order, flags, maxDepth);
    Iterator(TraverseFrom(t, p, None, order, flags, maxDepth), 0)
  }

  /** The recorded traversal: its members and its order. */
  lemma IteratorCells(t: Cell, p: Path, order: Order, flags: Flags, maxDepth: int)
    requires Live(t, p)
    ensures var s := TraverseFrom(t, p, None, order, flags, maxDepth);
      (forall q :: q in s <==>
        ModeOf(order, flags).Some? && !Pruned(|p|, maxDepth) &&
        IsPrefix(p, q) && Live(t, q) &&
        Selected(Get(t, q).value, |p|, |q|, maxDepth, ModeOf(order, flags).value)) &&
      Distinct(s) &&
      (order == PreOrder ==> AncestorsFirst(s)) &&
      (order == PostOrder ==> AncestorsLast(s))
  {
    forall q ensures q in TraverseFrom(t, p, None, order, flags, maxDepth) <==>
        ModeOf(order, flags).Some? && !Pruned(|p|, maxDepth) &&
        IsPrefix(p, q) && Live(t, q) &&
        Selected(Get(t, q).value, |p|, |q|, maxDepth, ModeOf(order, flags).value) {
      TraverseMembers(t, p, None, order, flags, maxDepth, q);
    }
    TraverseOrdered(t, p, None, order, flags, maxDepth);
  }

  /** ftt_cell_traverse_next: the cell at the current position, or None
      (the terminating NULL) when all have been returned; the position
      moves on either way. */
  function IteratorNext(it: Iterator): (r: (Option<Path>, Iterator))
    ensures r.1.cells == it.cells && r.1.current == it.current + 1
    ensures it.current < |it.cells| ==> r.0 == Some(it.cells[it.current])
    ensures it.current >= |it.cells| ==> r.0.None?
  {
    (if it.current < |it.cells| then Some(it.cells[it.current]) else None, it.(current := it.current + 1))
  }

  /** ftt_cell_traverse_rewind. */
  function IteratorRewind(it: Iterator): (r: Iterator)
    ensures r.cells == it.cells && r.current == 0
  {
    it.(current := 0)
  }

  /** Calling next until it answers None. */
  function Drain(it: Iterator): seq<Path>
    decreases |it.cells| - it.current
  {
    var (c, next) := IteratorNext(it);
    match c
    case None => []
    case Some(q) => [q] + Drain(next)
  }

  /** Draining a freshly made or rewound iterator yields the recorded
      traversal, in its order. */
  lemma {:induction false} DrainYieldsRest(it: Iterator)
    requires it.current <= |it.cells|
    ensures Drain(it) == it.cells[it.current..]
    decreases |it.cells| - it.current
  {
    if it.current < |it.cells| {
      DrainYieldsRest(it.(current := it.current + 1));
    }
  }

  lemma RewindRestarts(it: Iterator)
    ensures Drain(IteratorRewind(it)) == it.cells
  {
    DrainYieldsRest(IteratorRewind(it));
  }
}
