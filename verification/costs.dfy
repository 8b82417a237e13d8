/** The cost pass of gfs_simulation_adapt (src/adaptive.c): every cell gets
    a cost, children's costs propagate to their parents and to the
    parents of their parents' same-level neighbours, and the two heaps
    are filled from the leaves.  Solver data a cell carries are taken as
    given functions of its path: whether it is cut by a solid (mixed) and
    whether it belongs to a boundary. */
module AdaptCosts {
  import opened Wrappers
  import opened Directions
  import opened Tree
  import opened Neighbors
  import opened Traverse
  import opened Criteria
  import opened Heaps

  /** The simulation as the scheduler sees it. */
  datatype Sim = Sim(adapts: seq<Criterion>, mixed: Path -> bool, boundary: Path -> bool)

  /** The cost variable, per cell. */
  type Costs = map<Path, real>

  function CostOf(c: Costs, y: Path): real
  {
    if y in c then c[y] else 0.0
  }

  // ---------------------------------------------------------------------
  // cell_coarse_init: every non-leaf cell's cost starts at 0.

  function Zero(c: Costs, cells: seq<Path>): (r: Costs)
    ensures forall y :: CostOf(r, y) == if y in cells then 0.0 else CostOf(c, y)
    decreases |cells|
  {
    if cells == [] then c
    else Zero(c[cells[0] := 0.0], cells[1..])
  }

  /** The post-order traversal of the non-leaf cells with cell_coarse_init:
      the cost of every cell with children is 0, other costs are kept. */
  function CoarseInit(t: Cell, c: Costs): (r: Costs)
  {
    Zero(c, Walk(t, [], -1, PostNonLeafs, None))
  }

  lemma CoarseInitSpec(t: Cell, c: Costs, y: Path)
    ensures CostOf(CoarseInit(t, c), y) == if IsNodeAt(t, y) then 0.0 else CostOf(c, y)
  {
    WalkMembers(t, [], -1, PostNonLeafs, None, y);
    assert y[0..] == y;
  }

  // ---------------------------------------------------------------------
  // compute_cost on one cell.

  function Bigger(t: Cell, c: Costs, y: Path, n: ChildIx, m: real): real
  {
    if Live(t, y + [n]) && CostOf(c, y + [n]) > m then CostOf(c, y + [n]) else m
  }

  /** The cmax of compute_cost: the largest cost of a live child, or 0
      when every child costs less. */
  function ChildMax(t: Cell, c: Costs, y: Path): (r: real)
    ensures r >= 0.0
    ensures forall n: ChildIx :: Live(t, y + [n]) ==> CostOf(c, y + [n]) <= r
    ensures r == 0.0 || exists n: ChildIx :: Live(t, y + [n]) && CostOf(c, y + [n]) == r
  {
    Bigger(t, c, y, 3, Bigger(t, c, y, 2, Bigger(t, c, y, 1, Bigger(t, c, y, 0, 0.0))))
  }

  /** The parent of the neighbour of y in direction d, when that neighbour
      is at the level of y and is not the root. */
  function LevelNeighborParent(t: Cell, y: Path, d: Dir): Option<Path>
  {
    var nb := Neighbor(t, y, d);
    if nb.Some? && |nb.value| == |y| && nb.value != [] then Some(Parent(nb.value)) else None
  }

  /** The neighbour loop of compute_cost, from direction d on: each such
      parent whose cost is below cmax is raised to cmax. */
  function RaiseNeighborParents(t: Cell, c: Costs, y: Path, cmax: real, d: nat): Costs
    requires d <= 4
    decreases 4 - d
  {
    if d == 4 then c
    else RaiseNeighborParents(t, RaiseTo(c, LevelNeighborParent(t, y, d), cmax), y, cmax, d + 1)
  }

  /** One step of that loop: the cost of q, if any, is raised to cmax. */
  function RaiseTo(c: Costs, q: Option<Path>, cmax: real): Costs
  {
    if q.Some? && cmax > CostOf(c, q.value) then c[q.value := cmax] else c
  }

  /** compute_cost on cell y.  A mixed cell is left alone.  A leaf takes
      its refine cost.  A cell with children takes the largest of its
      cost, its refine cost and its children's costs, and passes the
      children's maximum on to the parents of its same-level neighbours.
      (The call counter nc is kept by the caller.) */
  function ComputeCost(t: Cell, c: Costs, sim: Sim, y: Path): Costs
  {
    if sim.mixed(y) || !Live(t, y) then c
    else
      var cost := RefineCost(sim.adapts, y);
      if IsLeafAt(t, y) then c[y := cost]
      else
        var cmax := ChildMax(t, c, y);
        var own := if cmax > cost then cmax else cost;
        var c1 := if own > CostOf(c, y) then c[y := own] else c;
        RaiseNeighborParents(t, c1, y, cmax, 0)
  }

  /** The neighbour loop only raises costs, and only to cmax. */
  lemma {:induction false} RaiseRaises(t: Cell, c: Costs, y: Path, cmax: real, d: nat)
    requires d <= 4
    ensures var r := RaiseNeighborParents(t, c, y, cmax, d);
      forall z :: CostOf(r, z) >= CostOf(c, z) && (CostOf(r, z) == CostOf(c, z) || CostOf(r, z) == cmax)
    decreases 4 - d
  {
    if d < 4 {
      var c1 := RaiseTo(c, LevelNeighborParent(t, y, d), cmax);
      RaiseRaises(t, c1, y, cmax, d + 1);
    }
  }

  /** After the neighbour loop every parent it visits costs at least cmax. */
  lemma {:induction false} RaiseReaches(t: Cell, c: Costs, y: Path, cmax: real, d: nat, e: Dir)
    requires d <= e && LevelNeighborParent(t, y, e).Some?
    ensures CostOf(RaiseNeighborParents(t, c, y, cmax, d), LevelNeighborParent(t, y, e).value) >= cmax
    decreases 4 - d
  {
    var q := LevelNeighborParent(t, y, d);
    var c1 := RaiseTo(c, q, cmax);
    if d < e {
      RaiseReaches(t, c1, y, cmax, d + 1, e);
    } else {
      assert CostOf(c1, q.value) >= cmax;
      RaiseRaises(t, c1, y, cmax, d + 1);
    }
  }

  /** The neighbour loop changes no cost but those of the parents it visits. */
  lemma {:induction false} RaiseKeeps(t: Cell, c: Costs, y: Path, cmax: real, d: nat, z: Path)
    requires d <= 4
    requires forall e: Dir :: d <= e ==> LevelNeighborParent(t, y, e) != Some(z)
    ensures CostOf(RaiseNeighborParents(t, c, y, cmax, d), z) == CostOf(c, z)
    decreases 4 - d
  {
    if d < 4 {
      var c1 := RaiseTo(c, LevelNeighborParent(t, y, d), cmax);
      RaiseKeeps(t, c1, y, cmax, d + 1, z);
    }
  }

  /** The contract of compute_cost: mixed cells are skipped, a leaf's cost
      becomes its refine cost, and a cell with children has its cost
      raised, never lowered, to at least its refine cost and each child's
      cost, while every same-level neighbour's parent is raised to at
      least each child's cost; no other cost changes. */
  lemma ComputeCostSpec(t: Cell, c: Costs, sim: Sim, y: Path)
    ensures sim.mixed(y) ==> ComputeCost(t, c, sim, y) == c
    ensures !sim.mixed(y) && IsLeafAt(t, y) ==>
      CostOf(ComputeCost(t, c, sim, y), y) == RefineCost(sim.adapts, y) &&
      forall z :: z != y ==> CostOf(ComputeCost(t, c, sim, y), z) == CostOf(c, z)
    ensures !sim.mixed(y) && IsNodeAt(t, y) ==> NodeCostRaised(t, c, sim, y, ComputeCost(t, c, sim, y))
  {
    if !sim.mixed(y) && IsNodeAt(t, y) {
      NodeCostSpec(t, c, sim, y);
    }
  }

  lemma NodeCostSpec(t: Cell, c: Costs, sim: Sim, y: Path)
    requires !sim.mixed(y) && IsNodeAt(t, y)
    ensures NodeCostRaised(t, c, sim, y, ComputeCost(t, c, sim, y))
  {
    NodeNeverLowered(t, c, sim, y);
    NodeOwnCost(t, c, sim, y);
    NodeNeighborsReach(t, c, sim, y);
    NodeKeepsOthers(t, c, sim, y);
  }

  /** The cmax and own cost of compute_cost on a cell with children, and
      the costs after its own cost is set. */
  function NodeRaised(t: Cell, c: Costs, sim: Sim, y: Path): (c1: Costs)
  {
    var cost := RefineCost(sim.adapts, y);
    var cmax := ChildMax(t, c, y);
    var own := if cmax > cost then cmax else cost;
    if own > CostOf(c, y) then c[y := own] else c
  }

  lemma NodeUnfold(t: Cell, c: Costs, sim: Sim, y: Path)
    requires !sim.mixed(y) && IsNodeAt(t, y)
    ensures ComputeCost(t, c, sim, y) == RaiseNeighborParents(t, NodeRaised(t, c, sim, y), y, ChildMax(t, c, y), 0)
  {
  }

  lemma NodeNeverLowered(t: Cell, c: Costs, sim: Sim, y: Path)
    requires !sim.mixed(y) && IsNodeAt(t, y)
    ensures forall z :: CostOf(ComputeCost(t, c, sim, y), z) >= CostOf(c, z)
  {
    NodeUnfold(t, c, sim, y);
    RaiseRaises(t, NodeRaised(t, c, sim, y), y, ChildMax(t, c, y), 0);
  }

  lemma NodeOwnCost(t: Cell, c: Costs, sim: Sim, y: Path)
    requires !sim.mixed(y) && IsNodeAt(t, y)
    ensures var v := CostOf(ComputeCost(t, c, sim, y), y);
      v >= RefineCost(sim.adapts, y) && v >= 0.0 &&
      (forall n: ChildIx :: Live(t, y + [n]) ==> v >= CostOf(c, y + [n])) &&
      (v == CostOf(c, y) || v == RefineCost(sim.adapts, y) || v == 0.0 ||
       exists n: ChildIx :: Live(t, y + [n]) && v == CostOf(c, y + [n]))
  {
    var c1 := NodeRaised(t, c, sim, y);
    NodeUnfold(t, c, sim, y);
    RaiseSkipsSelf(t, c1, y, ChildMax(t, c, y));
  }

  lemma NodeNeighborsReach(t: Cell, c: Costs, sim: Sim, y: Path)
    requires !sim.mixed(y) && IsNodeAt(t, y)
    ensures forall e: Dir, n: ChildIx :: LevelNeighborParent(t, y, e).Some? && Live(t, y + [n]) ==>
      CostOf(ComputeCost(t, c, sim, y), LevelNeighborParent(t, y, e).value) >= CostOf(c, y + [n])
  {
    var r := ComputeCost(t, c, sim, y);
    var c1 := NodeRaised(t, c, sim, y);
    var cmax := ChildMax(t, c, y);
    NodeUnfold(t, c, sim, y);
    forall e: Dir | LevelNeighborParent(t, y, e).Some?
      ensures CostOf(r, LevelNeighborParent(t, y, e).value) >= cmax
    {
      RaiseReaches(t, c1, y, cmax, 0, e);
    }
  }

  lemma NodeKeepsOthers(t: Cell, c: Costs, sim: Sim, y: Path)
    requires !sim.mixed(y) && IsNodeAt(t, y)
    ensures forall z :: z != y && (forall e: Dir :: LevelNeighborParent(t, y, e) != Some(z)) ==>
      CostOf(ComputeCost(t, c, sim, y), z) == CostOf(c, z)
  {
    var c1 := NodeRaised(t, c, sim, y);
    NodeUnfold(t, c, sim, y);
    forall z | z != y && (forall e: Dir :: LevelNeighborParent(t, y, e) != Some(z))
      ensures CostOf(ComputeCost(t, c, sim, y), z) == CostOf(c, z)
    {
      RaiseKeeps(t, c1, y, ChildMax(t, c, y), 0, z);
    }
  }

  lemma RaiseSkipsSelf(t: Cell, c: Costs, y: Path, cmax: real)
    ensures CostOf(RaiseNeighborParents(t, c, y, cmax, 0), y) == CostOf(c, y)
  {
    forall e: Dir ensures LevelNeighborParent(t, y, e) != Some(y) {
      if LevelNeighborParent(t, y, e).Some? {
        assert |LevelNeighborParent(t, y, e).value| + 1 == |y|;
      }
    }
    RaiseKeeps(t, c, y, cmax, 0, y);
  }

  /** What compute_cost does to a cell y with children. */
  ghost predicate NodeCostRaised(t: Cell, c: Costs, sim: Sim, y: Path, r: Costs)
  {
    var v := CostOf(r, y);
    // never lowered
    (forall z :: CostOf(r, z) >= CostOf(c, z)) &&
    // at least the refine cost and every child's cost, and one of those
    v >= RefineCost(sim.adapts, y) && v >= 0.0 &&
    (forall n: ChildIx :: Live(t, y + [n]) ==> v >= CostOf(c, y + [n])) &&
    (v == CostOf(c, y) || v == RefineCost(sim.adapts, y) || v == 0.0 ||
     exists n: ChildIx :: Live(t, y + [n]) && v == CostOf(c, y + [n])) &&
    // the parents of same-level neighbours reach every child's cost
    (forall e: Dir, n: ChildIx :: LevelNeighborParent(t, y, e).Some? && Live(t, y + [n]) ==>
      CostOf(r, LevelNeighborParent(t, y, e).value) >= CostOf(c, y + [n])) &&
    // nothing else changes
    (forall z :: z != y && (forall e: Dir :: LevelNeighborParent(t, y, e) != Some(z)) ==>
      CostOf(r, z) == CostOf(c, z))
  }

  // ---------------------------------------------------------------------
  // The whole pass: level by level, deepest first.

  /** The cells compute_cost is called on: the level traversals from level
      l up to the root, each in pre-order. */
  function CostOrder(t: Cell, l: int): seq<Path>
    decreases l + 1
  {
    if l < 0 then [] else Walk(t, [], l, LevelAll, None) + CostOrder(t, l - 1)
  }

  function ComputeCosts(t: Cell, c: Costs, sim: Sim, cells: seq<Path>): Costs
    decreases |cells|
  {
    if cells == [] then c else ComputeCosts(t, ComputeCost(t, c, sim, cells[0]), sim, cells[1..])
  }

  /** Starting from the depth of the tree, the cost pass visits every live
      cell exactly once, so the counter nc it leaves is the number of
      cells. */
  lemma CostOrderCoversTree(t: Cell)
    ensures var s := CostOrder(t, Depth(t, 0));
      Distinct(s) && (forall y :: y in s <==> Live(t, y)) && |s| == Count(t)
  {
    var D := Depth(t, 0);
    CostOrderSpec(t, D);
    var s := CostOrder(t, D);
    forall y ensures y in s <==> Live(t, y) {
      if Live(t, y) {
        DepthIsDeepestLevel(t, 0, y);
      }
    }
    var w := Walk(t, [], -1, PreAll, None);
    WalkCount(t, []);
    WalkOrdered(t, [], -1, PreAll, None);
    forall y ensures y in w <==> Live(t, y) {
      WalkMembers(t, [], -1, PreAll, None, y);
      assert y[0..] == y;
    }
    SameMembersSameLength(s, w);
  }

  lemma {:induction false} CostOrderSpec(t: Cell, l: int)
    ensures Distinct(CostOrder(t, l))
    ensures forall y :: y in CostOrder(t, l) <==> Live(t, y) && |y| <= l
    decreases l + 1
  {
    if l >= 0 {
      var w := Walk(t, [], l, LevelAll, None);
      var rest := CostOrder(t, l - 1);
      CostOrderSpec(t, l - 1);
      WalkOrdered(t, [], l, LevelAll, None);
      forall y ensures y in w <==> Live(t, y) && |y| == l {
        WalkMembers(t, [], l, LevelAll, None, y);
        assert y[0..] == y;
      }
      ConcatOrdered(w, rest);
    }
  }

  /** Two sequences without repetition with the same members have the
      same length. */
  lemma SameMembersSameLength(a: seq<Path>, b: seq<Path>)
    requires Distinct(a) && Distinct(b)
    requires forall y :: y in a <==> y in b
    ensures |a| == |b|
  {
    DistinctCard(a);
    DistinctCard(b);
    assert (set y | y in a) == (set y | y in b);
  }

  lemma {:induction false} DistinctCard(a: seq<Path>)
    requires Distinct(a)
    ensures |set y | y in a| == |a|
    decreases |a|
  {
    if a != [] {
      var rest := a[1..];
      assert Distinct(rest) by {
        forall i, j | 0 <= i < j < |rest| ensures rest[i] != rest[j] {
          assert rest[i] == a[i + 1] && rest[j] == a[j + 1];
        }
      }
      DistinctCard(rest);
      assert (set y | y in a) == (set y | y in rest) + {a[0]};
      assert a[0] !in rest by {
        forall j | 0 <= j < |rest| ensures rest[j] != a[0] {
          assert rest[j] == a[j + 1];
        }
      }
    }
  }

  // ---------------------------------------------------------------------
  // fill_heaps.

  /** hcoarse holds the refinement candidates (leaves, keyed by minus
      their cost) and hfine the coarsening candidates (parents, keyed by
      their cost). */
  datatype Queues = Queues(hcoarse: Heap, hfine: Heap)

  /** fill_heaps on leaf y. */
  function FillOne(c: Costs, sim: Sim, q: Queues, y: Path): Queues
  {
    if sim.mixed(y) then q
    else
      var hc := if |y| < MaxLevel(sim.adapts, y) then Insert(q.hcoarse, -CostOf(c, y), y) else q.hcoarse;
      var hf :=
        if y != [] && !sim.mixed(Parent(y)) && !InHeap(q.hfine, Parent(y)) &&
           |y| > MinLevel(sim.adapts, Parent(y))
        then Insert(q.hfine, CostOf(c, Parent(y)), Parent(y))
        else q.hfine;
      Queues(hc, hf)
  }

  /** fill_heaps on each of the given leaves, in order. */
  function FillHeaps(c: Costs, sim: Sim, leaves: seq<Path>): Queues
    decreases |leaves|
  {
    if leaves == [] then Queues([], [])
    else FillOne(c, sim, FillHeaps(c, sim, leaves[..|leaves| - 1]), leaves[|leaves| - 1])
  }

  /** Leaf y makes its parent a coarsening candidate. */
  predicate ProposesParent(sim: Sim, y: Path)
  {
    y != [] && !sim.mixed(y) && !sim.mixed(Parent(y)) && |y| > MinLevel(sim.adapts, Parent(y))
  }

  /** h holds exactly the refinement candidates among the leaves zs: each
      non-mixed leaf below its maxlevel, keyed by minus its cost. */
  ghost predicate CoarseQueue(c: Costs, sim: Sim, h: Heap, zs: seq<Path>)
  {
    forall e :: e in h <==>
      e.cell in zs && !sim.mixed(e.cell) && |e.cell| < MaxLevel(sim.adapts, e.cell) &&
      e.key == -CostOf(c, e.cell)
  }

  /** h holds exactly the coarsening candidates the leaves zs propose: the
      parents of those that propose their parent, keyed by cost. */
  ghost predicate FineQueue(c: Costs, sim: Sim, h: Heap, zs: seq<Path>)
  {
    forall e :: e in h <==>
      (exists z :: z in zs && ProposesParent(sim, z) && Parent(z) == e.cell) &&
      e.key == CostOf(c, e.cell)
  }

  /** The heaps after fill_heaps: a non-mixed leaf is a refinement
      candidate, keyed by minus its cost, exactly when its level is below
      its maxlevel; a non-mixed parent is a coarsening candidate, keyed by
      its cost and entered once, exactly when one of its leaves is
      non-mixed and deeper than the parent's minlevel. */
  lemma {:induction false} FillHeapsSpec(c: Costs, sim: Sim, leaves: seq<Path>)
    requires Distinct(leaves)
    ensures var q := FillHeaps(c, sim, leaves);
      Unique(q.hcoarse) && Unique(q.hfine) &&
      CoarseQueue(c, sim, q.hcoarse, leaves) && FineQueue(c, sim, q.hfine, leaves)
    decreases |leaves|
  {
    if leaves != [] {
      var init := leaves[..|leaves| - 1];
      var y := leaves[|leaves| - 1];
      assert leaves == init + [y];
      assert Distinct(init);
      FillHeapsSpec(c, sim, init);
      var q0 := FillHeaps(c, sim, init);
      assert y !in init by {
        forall j | 0 <= j < |init| ensures init[j] != y {
          assert init[j] == leaves[j];
        }
      }
      FillCoarseStep(c, sim, q0, y, init);
      FillFineStep(c, sim, q0, y, init);
    }
  }

  /** fill_heaps over the leaf traversal of a tree: the refinement heap
      holds each non-mixed leaf below its maxlevel, the coarsening heap
      each non-mixed parent of a non-mixed leaf deeper than the parent's
      minlevel, each once. */
  lemma FillTreeHeaps(t: Cell, c: Costs, sim: Sim)
    ensures var q := FillHeaps(c, sim, Walk(t, [], -1, Leafs, None));
      Unique(q.hcoarse) && Unique(q.hfine) &&
      (forall e :: e in q.hcoarse <==>
        IsLeafAt(t, e.cell) && !sim.mixed(e.cell) && |e.cell| < MaxLevel(sim.adapts, e.cell) &&
        e.key == -CostOf(c, e.cell)) &&
      (forall e :: e in q.hfine <==>
        (exists y :: IsLeafAt(t, y) && ProposesParent(sim, y) && Parent(y) == e.cell) &&
        e.key == CostOf(c, e.cell))
  {
    var w := Walk(t, [], -1, Leafs, None);
    WalkOrdered(t, [], -1, Leafs, None);
    FillHeapsSpec(c, sim, w);
    forall y ensures y in w <==> IsLeafAt(t, y) {
      WalkMembers(t, [], -1, Leafs, None, y);
      assert y[0..] == y;
    }
  }

  /** One fill_heaps step, refinement side: leaf y joins when it is a
      candidate itself. */
  lemma FillCoarseStep(c: Costs, sim: Sim, q0: Queues, y: Path, init: seq<Path>)
    requires y !in init && Unique(q0.hcoarse) && CoarseQueue(c, sim, q0.hcoarse, init)
    ensures var q := FillOne(c, sim, q0, y);
      Unique(q.hcoarse) && CoarseQueue(c, sim, q.hcoarse, init + [y])
  {
    var q := FillOne(c, sim, q0, y);
    if !sim.mixed(y) && |y| < MaxLevel(sim.adapts, y) {
      assert q.hcoarse == Insert(q0.hcoarse, -CostOf(c, y), y);
      CoarseAdded(c, sim, q0.hcoarse, y, init);
    } else {
      assert q.hcoarse == q0.hcoarse;
      CoarseKept(c, sim, q0.hcoarse, y, init);
    }
  }

  /** A leaf that is no refinement candidate leaves the heap as it is. */
  lemma CoarseKept(c: Costs, sim: Sim, h0: Heap, y: Path, init: seq<Path>)
    requires CoarseQueue(c, sim, h0, init)
    requires sim.mixed(y) || |y| >= MaxLevel(sim.adapts, y)
    ensures CoarseQueue(c, sim, h0, init + [y])
  {
    assert forall x :: x in init + [y] <==> x in init || x == y;
  }

  /** A candidate leaf, new to the heap, is added once. */
  lemma CoarseAdded(c: Costs, sim: Sim, h0: Heap, y: Path, init: seq<Path>)
    requires y !in init && Unique(h0) && CoarseQueue(c, sim, h0, init)
    requires !sim.mixed(y) && |y| < MaxLevel(sim.adapts, y)
    ensures var h := Insert(h0, -CostOf(c, y), y);
      Unique(h) && CoarseQueue(c, sim, h, init + [y])
  {
    var h := Insert(h0, -CostOf(c, y), y);
    assert !InHeap(h0, y) by {
      forall j | 0 <= j < |h0| ensures h0[j].cell != y {
        assert h0[j] in h0;
      }
    }
    assert forall e :: e in h <==> e in h0 || e == Entry(-CostOf(c, y), y) by {
      assert forall e :: e in h <==> e in multiset(h);
      assert forall e :: e in h0 <==> e in multiset(h0);
    }
    forall e ensures e in h <==>
      e.cell in init + [y] && !sim.mixed(e.cell) && |e.cell| < MaxLevel(sim.adapts, e.cell) &&
      e.key == -CostOf(c, e.cell)
    {
      if e.cell in init + [y] && e.cell != y {
        assert e.cell in init;
      }
    }
  }

  /** One fill_heaps step, coarsening side: the parent of y joins when y
      proposes it and it is not in the heap yet. */
  lemma FillFineStep(c: Costs, sim: Sim, q0: Queues, y: Path, init: seq<Path>)
    requires Unique(q0.hfine) && FineQueue(c, sim, q0.hfine, init)
    ensures var q := FillOne(c, sim, q0, y);
      Unique(q.hfine) && FineQueue(c, sim, q.hfine, init + [y])
  {
    var q := FillOne(c, sim, q0, y);
    if ProposesParent(sim, y) && !InHeap(q0.hfine, Parent(y)) {
      assert q.hfine == Insert(q0.hfine, CostOf(c, Parent(y)), Parent(y));
      FineAdded(c, sim, q0.hfine, y, init);
    } else {
      assert q.hfine == q0.hfine;
      FineKept(c, sim, q0.hfine, y, init);
    }
  }

  /** A leaf that proposes nothing new leaves the coarsening heap as it is. */
  lemma FineKept(c: Costs, sim: Sim, h0: Heap, y: Path, init: seq<Path>)
    requires FineQueue(c, sim, h0, init)
    requires ProposesParent(sim, y) ==> InHeap(h0, Parent(y))
    ensures FineQueue(c, sim, h0, init + [y])
  {
    forall e ensures e in h0 <==>
      (exists z :: z in init + [y] && ProposesParent(sim, z) && Parent(z) == e.cell) &&
      e.key == CostOf(c, e.cell)
    {
      if e in h0 {
        var z :| z in init && ProposesParent(sim, z) && Parent(z) == e.cell;
        assert z in init + [y];
      }
      if (exists z :: z in init + [y] && ProposesParent(sim, z) && Parent(z) == e.cell) &&
         e.key == CostOf(c, e.cell) {
        var z :| z in init + [y] && ProposesParent(sim, z) && Parent(z) == e.cell;
        if z in init {
        } else {
          assert z == y;
          var j :| 0 <= j < |h0| && h0[j].cell == Parent(y);
          assert h0[j] in h0;
          assert e == h0[j];
        }
      }
    }
  }

  /** A leaf proposing a parent not yet in the heap adds it, once. */
  lemma FineAdded(c: Costs, sim: Sim, h0: Heap, y: Path, init: seq<Path>)
    requires Unique(h0) && FineQueue(c, sim, h0, init)
    requires ProposesParent(sim, y) && !InHeap(h0, Parent(y))
    ensures var h := Insert(h0, CostOf(c, Parent(y)), Parent(y));
      Unique(h) && FineQueue(c, sim, h, init + [y])
  {
    var h := Insert(h0, CostOf(c, Parent(y)), Parent(y));
    assert forall e :: e in h <==> e in multiset(h);
    assert forall e :: e in h0 <==> e in multiset(h0);
    forall e ensures e in h <==>
      (exists z :: z in init + [y] && ProposesParent(sim, z) && Parent(z) == e.cell) &&
      e.key == CostOf(c, e.cell)
    {
      if e in h0 {
        var z :| z in init && ProposesParent(sim, z) && Parent(z) == e.cell;
        assert z in init + [y];
      }
      if (exists z :: z in init + [y] && ProposesParent(sim, z) && Parent(z) == e.cell) &&
         e.key == CostOf(c, e.cell) {
        var z :| z in init + [y] && ProposesParent(sim, z) && Parent(z) == e.cell;
        if z !in init {
          assert z == y;
        }
      }
    }
  }}
