/** The adaptation loop of gfs_simulation_adapt (src/adaptive.c): the best
    refinement and coarsening candidates are taken off their heaps and
    acted on, one of each per round, while the cell count and the cost
    threshold call for it.  Coarsening runs ftt_cell_coarsen with
    fine_cell_coarsenable and fine_cell_cleanup; refinement runs
    ftt_cell_refine_single with cell_fine_init. */
module Adapt {
  import opened Wrappers
  import opened Directions
  import opened Tree
  import opened Traverse
  import opened Refine
  import opened Coarsen
  import opened Criteria
  import opened Heaps
  import opened AdaptCosts
  import Geometry

  /** G_MAXDOUBLE, the largest finite double: (2^53 - 1) * 2^971. */
  const MaxDouble: real := 9007199254740991.0 * (Geometry.Pow2(971) as real)

  /** What the callbacks keep between them: the cell counter nc, the cost
      variable and the two heaps. */
  datatype Ledger = Ledger(nc: int, costs: Costs, hcoarse: Heap, hfine: Heap)

  /** The number of non-boundary cells among the given ones. */
  function Inner(sim: Sim, cells: seq<Path>): (r: nat)
    ensures r <= |cells|
    ensures (forall i :: 0 <= i < |cells| ==> !sim.boundary(cells[i])) ==> r == |cells|
    decreases |cells|
  {
    if cells == [] then 0
    else Inner(sim, cells[..|cells| - 1]) + (if sim.boundary(cells[|cells| - 1]) then 0 else 1)
  }

  // ---------------------------------------------------------------------
  // fine_cell_coarsenable.

  /** Whether the coarsening may remove cell y, with clim the cost limit
      of the round: always for a boundary cell; otherwise never for a
      mixed cell, one costing at least -clim or one below its minimum
      level. */
  predicate Coarsenable(costs: Costs, sim: Sim, clim: real, y: Path)
  {
    if sim.boundary(y) then true
    else if sim.mixed(y) then false
    else if CostOf(costs, y) >= -clim then false
    else if |y| < MinLevel(sim.adapts, y) then false
    else true
  }

  // ---------------------------------------------------------------------
  // fine_cell_cleanup.

  /** fine_cell_cleanup on cell y: a non-boundary cell leaves the count
      and both heaps. */
  function Cleanup(led: Ledger, sim: Sim, y: Path): Ledger
  {
    if sim.boundary(y) then led
    else Ledger(led.nc - 1, led.costs, Evict(led.hcoarse, y), Evict(led.hfine, y))
  }

  /** fine_cell_cleanup on each cell the coarsening dropped, in order. */
  function CleanupAll(led: Ledger, sim: Sim, cells: seq<Path>): (r: Ledger)
    ensures r.costs == led.costs
    ensures |r.hcoarse| <= |led.hcoarse| && |r.hfine| <= |led.hfine|
    decreases |cells|
  {
    if cells == [] then led
    else
      Cleanup(CleanupAll(led, sim, cells[..|cells| - 1]), sim, cells[|cells| - 1])
  }

  /** Heap h is heap h0 without the entries of the non-boundary cells. */
  ghost predicate Evicted(h0: Heap, h: Heap, sim: Sim, cells: seq<Path>)
  {
    forall e :: e in h <==> e in h0 && (e.cell !in cells || sim.boundary(e.cell))
  }

  /** After the cleanups the count has dropped by the number of
      non-boundary cells dropped, and those cells, and only those, have
      left both heaps. */
  lemma {:induction false} CleanupAllSpec(led: Ledger, sim: Sim, cells: seq<Path>)
    ensures var r := CleanupAll(led, sim, cells);
      r.nc == led.nc - Inner(sim, cells) &&
      Evicted(led.hcoarse, r.hcoarse, sim, cells) && Evicted(led.hfine, r.hfine, sim, cells)
    decreases |cells|
  {
    if cells != [] {
      var init := cells[..|cells| - 1];
      var y := cells[|cells| - 1];
      assert cells == init + [y];
      CleanupAllSpec(led, sim, init);
      var m := CleanupAll(led, sim, init);
      EvictStep(led.hcoarse, m.hcoarse, sim, init, y);
      EvictStep(led.hfine, m.hfine, sim, init, y);
    }
  }

  /** One more cleanup. */
  lemma EvictStep(h0: Heap, h: Heap, sim: Sim, init: seq<Path>, y: Path)
    requires Evicted(h0, h, sim, init)
    ensures Evicted(h0, if sim.boundary(y) then h else Evict(h, y), sim, init + [y])
  {
    assert forall z :: z in init + [y] <==> z in init || z == y;
  }

  // ---------------------------------------------------------------------
  // cell_fine_init.

  /** cell_fine_init on the four children of oct o: each costs G_MAXDOUBLE
      and counts unless o is a boundary cell. */
  function InitOct(led: Ledger, sim: Sim, o: Path): Ledger
  {
    var costs := led.costs[o + [0] := MaxDouble][o + [1] := MaxDouble]
                          [o + [2] := MaxDouble][o + [3] := MaxDouble];
    Ledger(if sim.boundary(o) then led.nc else led.nc + 4, costs, led.hcoarse, led.hfine)
  }

  /** cell_fine_init on the children of every new oct, in order. */
  function InitAll(led: Ledger, sim: Sim, octs: seq<Path>): (r: Ledger)
    ensures r.hcoarse == led.hcoarse && r.hfine == led.hfine
    decreases |octs|
  {
    if octs == [] then led else InitOct(InitAll(led, sim, octs[..|octs| - 1]), sim, octs[|octs| - 1])
  }

  /** After the initialisations the count has grown by four per new
      non-boundary oct, every new child costs G_MAXDOUBLE and no other
      cost has changed. */
  lemma {:induction false} InitAllSpec(led: Ledger, sim: Sim, octs: seq<Path>)
    ensures var r := InitAll(led, sim, octs);
      r.nc == led.nc + 4 * Inner(sim, octs) &&
      (forall o, n: ChildIx :: o in octs ==> CostOf(r.costs, o + [n]) == MaxDouble) &&
      (forall z :: (z == [] || Parent(z) !in octs) ==> CostOf(r.costs, z) == CostOf(led.costs, z))
    decreases |octs|
  {
    if octs != [] {
      var init := octs[..|octs| - 1];
      var o := octs[|octs| - 1];
      InitAllSpec(led, sim, init);
      assert forall z :: z in octs <==> z in init || z == o by {
        assert octs == init + [o];
      }
      var r0 := InitAll(led, sim, init);
      forall z | z == [] || Parent(z) != o
        ensures CostOf(InitOct(r0, sim, o).costs, z) == CostOf(r0.costs, z)
      {
        forall n: ChildIx ensures z != o + [n] {
          assert Parent(o + [n]) == o;
        }
      }
    }
  }

  // ---------------------------------------------------------------------
  // One coarsening and one refinement.

  /** ftt_cell_coarsen on the coarsening candidate `fine`, with
      fine_cell_coarsenable as predicate and fine_cell_cleanup on every
      cell dropped. */
  function CoarsenStep(t: Cell, led: Ledger, sim: Sim, clim: real, fine: Path): (r: (Cell, Ledger))
    ensures |r.1.hcoarse| <= |led.hcoarse| && |r.1.hfine| <= |led.hfine|
  {
    var D := if |fine| > Depth(t, 0) + 1 then |fine| else Depth(t, 0) + 1;
    DepthShallow(t);
    var c := Coarsen.Coarsen(t, fine, y => Coarsenable(led.costs, sim, clim, y), D);
    (c.tree, CleanupAll(led, sim, c.cleaned))
  }

  /** A coarsening step changes the count by the cells it drops, each of
      which passed fine_cell_coarsenable, and with no boundary cells the
      count stays the number of cells. */
  lemma CoarsenStepSpec(t: Cell, led: Ledger, sim: Sim, clim: real, fine: Path)
    ensures var r := CoarsenStep(t, led, sim, clim, fine);
      r.1.nc <= led.nc &&
      (forall y :: Live(r.0, y) ==> Live(t, y)) &&
      (forall y :: Live(t, y) && !Live(r.0, y) ==> Coarsenable(led.costs, sim, clim, y)) &&
      ((forall y :: !sim.boundary(y)) ==> led.nc - r.1.nc == Count(t) - Count(r.0))
  {
    var D := if |fine| > Depth(t, 0) + 1 then |fine| else Depth(t, 0) + 1;
    DepthShallow(t);
    var pred := y => Coarsenable(led.costs, sim, clim, y);
    var c := Coarsen.Coarsen(t, fine, pred, D);
    assert CoarsenStep(t, led, sim, clim, fine) == (c.tree, CleanupAll(led, sim, c.cleaned));
    assert Removes(t, c.tree, c.cleaned, pred) by {
      CoarsenSpec(t, fine, pred, D);
    }
    assert CleanupAll(led, sim, c.cleaned).nc == led.nc - Inner(sim, c.cleaned) by {
      CleanupAllSpec(led, sim, c.cleaned);
    }
    assert forall y :: Live(t, y) && !Live(c.tree, y) ==> pred(y) by {
      RemovedAccepted(t, c.tree, c.cleaned, pred);
    }
  }

  /** Every cell a removal drops was accepted by the predicate. */
  lemma RemovedAccepted(t: Cell, u: Cell, cleaned: seq<Path>, pred: Path -> bool)
    requires Removes(t, u, cleaned, pred)
    ensures forall y :: Live(t, y) && !Live(u, y) ==> pred(y)
  {
    forall y | Live(t, y) && !Live(u, y) ensures pred(y) {
      var i :| 0 <= i < |cleaned| && cleaned[i] == y;
    }
  }

  /** ftt_cell_refine_single on the refinement candidate `coarse`, with
      cell_fine_init on the children of every oct it attaches. */
  function RefineStep(t: Cell, led: Ledger, sim: Sim, coarse: Path): (r: (Cell, Ledger))
    ensures r.1.hcoarse == led.hcoarse && r.1.hfine == led.hfine
  {
    var g := OctNew(t, coarse);
    (g.tree, InitAll(led, sim, g.octs))
  }

  /** A refinement step only adds cells, none deeper than one level below
      the refined cell. */
  lemma RefineStepShape(t: Cell, led: Ledger, sim: Sim, coarse: Path)
    ensures var r := RefineStep(t, led, sim, coarse);
      (forall y :: Live(t, y) ==> Live(r.0, y)) &&
      Depth(r.0, 0) <= Max(Depth(t, 0), |coarse| + 1)
  {
    if IsLeafAt(t, coarse) {
      OctNewSpec(t, coarse);
      RefineDepth(t, OctNew(t, coarse), coarse);
    }
  }

  /** A refinement step counts four cells per oct it attaches below a
      non-boundary cell, so with no boundary cells the count stays the
      number of cells. */
  lemma RefineStepCount(t: Cell, led: Ledger, sim: Sim, coarse: Path)
    ensures var r := RefineStep(t, led, sim, coarse);
      r.1.nc >= led.nc &&
      ((forall y :: !sim.boundary(y)) ==> r.1.nc - led.nc == Count(r.0) - Count(t))
  {
    var g := OctNew(t, coarse);
    InitAllSpec(led, sim, g.octs);
    if IsLeafAt(t, coarse) {
      OctNewSpec(t, coarse);
    }
  }

  lemma RefineDepth(t: Cell, g: Refined, coarse: Path)
    requires Grows(t, g)
    requires forall i :: 0 <= i < |g.octs| ==> |g.octs[i]| <= |coarse|
    ensures Depth(g.tree, 0) <= Max(Depth(t, 0), |coarse| + 1)
  {
    var z :| Live(g.tree, z) && |z| == Depth(g.tree, 0) by {
      DepthIsDeepestLevel(g.tree, 0, []);
    }
    if Live(t, z) {
      DepthIsDeepestLevel(t, 0, z);
    } else {
      var i :| 0 <= i < |g.octs| && g.octs[i] == Parent(z);
      assert |z| == |Parent(z)| + 1;
    }
  }

  // ---------------------------------------------------------------------
  // The loop.

  function Total(s: seq<int>): int
    decreases |s|
  {
    if s == [] then 0 else Total(s[..|s| - 1]) + s[|s| - 1]
  }

  lemma TotalAppend(s: seq<int>, x: int)
    ensures Total(s + [x]) == Total(s) + x
  {
    assert (s + [x])[..|s + [x]| - 1] == s;
  }

  /** The candidates on hand between rounds: the popped cells (None once a
      heap ran dry) and the keys they were popped with. */
  datatype Tops = Tops(coarse: Option<Path>, ccoarse: real, fine: Option<Path>, cfine: real)

  /** Everything the loop carries from round to round, with the removed
      and created statistics (one value per action) and the depth it
      tracks. */
  datatype State = State(tree: Cell, led: Ledger, tops: Tops, removed: seq<int>, created: seq<int>, depth: nat)

  /** What is left for the loop to do: the entries in the heaps and the
      candidates on hand. */
  function Pending(s: State): nat
  {
    |s.led.hcoarse| + |s.led.hfine| +
    (if s.tops.coarse.Some? then 1 else 0) + (if s.tops.fine.Some? then 1 else 0)
  }

  /** The bookkeeping the loop keeps: the count is the starting count nc0
      minus what was removed plus what was created, every statistic is
      non-negative, with no boundary cells the count is the number of
      cells, and the tracked depth bounds the tree's. */
  ghost predicate Books(s: State, sim: Sim, nc0: int)
  {
    s.depth >= Depth(s.tree, 0) &&
    ((forall y :: !sim.boundary(y)) ==> s.led.nc == Count(s.tree)) &&
    s.led.nc == nc0 - Total(s.removed) + Total(s.created) &&
    (forall i :: 0 <= i < |s.removed| ==> s.removed[i] >= 0) &&
    (forall i :: 0 <= i < |s.created| ==> s.created[i] >= 0)
  }

  /** The coarsening half of a round: the candidate `fine` is coarsened
      with the cost limit MIN (ccoarse, -cmax) and the next coarsening
      candidate is popped. */
  function CoarsenRound(s: State, sim: Sim, b: Bounds): (r: State)
    requires s.tops.fine.Some?
    ensures Pending(r) < Pending(s)
    ensures r.depth == s.depth && r.tops.coarse == s.tops.coarse && r.tops.ccoarse == s.tops.ccoarse
  {
    var clim := if s.tops.ccoarse < -b.cmax then s.tops.ccoarse else -b.cmax;
    var step := CoarsenStep(s.tree, s.led, sim, clim, s.tops.fine.value);
    var p := RemoveTopFine(step.1.hfine, s.tops.cfine, step.0);
    var led := step.1.(hfine := p.heap);
    State(step.0, led, s.tops.(fine := p.cell, cfine := p.key),
          s.removed + [s.led.nc - led.nc], s.created, s.depth)
  }

  /** The refinement half of a round: the candidate `coarse` is refined,
      the tracked depth follows, and the next refinement candidate is
      popped. */
  function RefineRound(s: State, sim: Sim): (r: State)
    requires s.tops.coarse.Some?
    ensures Pending(r) < Pending(s)
    ensures r.depth >= s.depth && r.tops.fine == s.tops.fine && r.tops.cfine == s.tops.cfine
  {
    var level := |s.tops.coarse.value|;
    var step := RefineStep(s.tree, s.led, sim, s.tops.coarse.value);
    var p := RemoveTopCoarse(step.1.hcoarse, s.tops.ccoarse, step.0);
    var led := step.1.(hcoarse := p.heap);
    State(step.0, led, s.tops.(coarse := p.cell, ccoarse := p.key),
          s.removed, s.created + [led.nc - s.led.nc],
          if level + 1 > s.depth then level + 1 else s.depth)
  }

  lemma CoarsenRoundBooks(s: State, sim: Sim, b: Bounds, nc0: int)
    requires s.tops.fine.Some? && Books(s, sim, nc0)
    ensures Books(CoarsenRound(s, sim, b), sim, nc0)
  {
    var clim := if s.tops.ccoarse < -b.cmax then s.tops.ccoarse else -b.cmax;
    CoarsenStepSpec(s.tree, s.led, sim, clim, s.tops.fine.value);
    var step := CoarsenStep(s.tree, s.led, sim, clim, s.tops.fine.value);
    CoarsenShallower(s.tree, step.0);
    var r := CoarsenRound(s, sim, b);
    TotalAppend(s.removed, s.led.nc - r.led.nc);
  }

  lemma RefineRoundBooks(s: State, sim: Sim, nc0: int)
    requires s.tops.coarse.Some? && Books(s, sim, nc0)
    ensures Books(RefineRound(s, sim), sim, nc0)
  {
    RefineStepShape(s.tree, s.led, sim, s.tops.coarse.value);
    RefineStepCount(s.tree, s.led, sim, s.tops.coarse.value);
    var r := RefineRound(s, sim);
    TotalAppend(s.created, r.led.nc - s.led.nc);
  }

  /** A refinement candidate that is no longer a cell of the tree (the
      coarsening earlier in the round dropped its parent's oct) is not
      refined: the tree and the count stay as they are, the created
      statistic records 0, and only the next candidate is popped. */
  lemma RefineRoundDead(s: State, sim: Sim)
    requires s.tops.coarse.Some? && !Live(s.tree, s.tops.coarse.value)
    ensures RefineRound(s, sim).tree == s.tree && RefineRound(s, sim).led.nc == s.led.nc
    ensures RefineRound(s, sim).created == s.created + [0] && RefineRound(s, sim).removed == s.removed
    ensures RefineRound(s, sim).led.hfine == s.led.hfine
  {
    assert OctNew(s.tree, s.tops.coarse.value) == Refined(s.tree, []);
  }

  /** Neither rule fires on the candidates on hand. */
  predicate Settled(s: State, b: Bounds)
  {
    !(s.tops.fine.Some? && CoarsenFires(b, s.tops.cfine, s.tops.ccoarse, s.led.nc)) &&
    !(s.tops.coarse.Some? && RefineFires(b, s.tops.cfine, s.tops.ccoarse, s.led.nc))
  }

  /** The loop of gfs_simulation_adapt from state s0 under the global
      bounds b.  Each round coarsens if the rule says so, then refines if
      the rule says so; the loop stops after a round that did neither,
      so that neither rule fires on what it leaves.  Along the way the
      count moves exactly by the recorded statistics. */
  method AdaptLoop(s0: State, sim: Sim, b: Bounds) returns (s: State)
    requires s0.removed == [] && s0.created == []
    requires s0.depth >= Depth(s0.tree, 0)
    requires (forall y :: !sim.boundary(y)) ==> s0.led.nc == Count(s0.tree)
    ensures Settled(s, b)
    ensures s.led.nc == s0.led.nc - Total(s.removed) + Total(s.created)
    ensures forall i :: 0 <= i < |s.removed| ==> s.removed[i] >= 0
    ensures forall i :: 0 <= i < |s.created| ==> s.created[i] >= 0
    ensures (forall y :: !sim.boundary(y)) ==> s.led.nc == Count(s.tree)
    ensures s.depth >= Depth(s.tree, 0) && s.depth >= s0.depth
  {
    s := s0;
    var changed := true;
    while changed
      invariant Books(s, sim, s0.led.nc) && s.depth >= s0.depth
      invariant !changed ==> Settled(s, b)
      decreases Pending(s) + (if changed then 1 else 0)
    {
      changed := false;
      if s.tops.fine.Some? && CoarsenFires(b, s.tops.cfine, s.tops.ccoarse, s.led.nc) {
        CoarsenRoundBooks(s, sim, b, s0.led.nc);
        s := CoarsenRound(s, sim, b);
        changed := true;
      }
      if s.tops.coarse.Some? && RefineFires(b, s.tops.cfine, s.tops.ccoarse, s.led.nc) {
        RefineRoundBooks(s, sim, s0.led.nc);
        s := RefineRound(s, sim);
        changed := true;
      }
    }
  }

  /** gfs_simulation_adapt up to the end of the loop.  With no active
      criterion nothing happens.  Otherwise the costs are computed, the
      heaps filled, the first candidates popped and the loop run; the
      statistics s->cmax and s->ncells are then -ccoarse and the count of
      the returned state.  The count starts at the number of cells and
      moves exactly by the recorded statistics. */
  method SimulationAdapt(t0: Cell, costs0: Costs, sim: Sim) returns (s: State)
    ensures !GlobalBounds(sim.adapts).active ==> s.tree == t0 && s.removed == [] && s.created == []
    ensures GlobalBounds(sim.adapts).active ==>
      Settled(s, GlobalBounds(sim.adapts)) &&
      s.led.nc == Count(t0) - Total(s.removed) + Total(s.created) &&
      ((forall y :: !sim.boundary(y)) ==> s.led.nc == Count(s.tree))
    ensures forall i :: 0 <= i < |s.removed| ==> s.removed[i] >= 0
    ensures forall i :: 0 <= i < |s.created| ==> s.created[i] >= 0
    ensures s.depth >= Depth(s.tree, 0)
  {
    var b := GlobalBounds(sim.adapts);
    var depth := Depth(t0, 0);
    if !b.active {
      return State(t0, Ledger(0, costs0, [], []), Tops(None, 0.0, None, 0.0), [], [], depth);
    }
    var cells := CostOrder(t0, depth);
    var costs := ComputeCosts(t0, CoarseInit(t0, costs0), sim, cells);
    CostOrderCoversTree(t0);
    var q := FillHeaps(costs, sim, Walk(t0, [], -1, Leafs, None));
    var pc := RemoveTopCoarse(q.hcoarse, 0.0, t0);
    var pf := RemoveTopFine(q.hfine, 0.0, t0);
    var led := Ledger(|cells|, costs, pc.heap, pf.heap);
    s := AdaptLoop(State(t0, led, Tops(pc.cell, pc.key, pf.cell, pf.key), [], [], depth), sim, b);
  }

  /** Coarsening never deepens the tree. */
  lemma CoarsenShallower(t: Cell, u: Cell)
    requires forall y :: Live(u, y) ==> Live(t, y)
    ensures Depth(u, 0) <= Depth(t, 0)
  {
    var z :| Live(u, z) && |z| == Depth(u, 0) by {
      DepthIsDeepestLevel(u, 0, []);
    }
    DepthIsDeepestLevel(t, 0, z);
  }
}
