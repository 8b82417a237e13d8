/** How the adaptation criteria of src/adaptive.c combine: the GfsAdapt
    items of a simulation, each with a weight, an optional cost function,
    minimum and maximum level functions and global cell-count and cost
    bounds.  The functions read solver fields, so they are taken here as
    given functions of the cell. */
module Criteria {
  import opened Wrappers
  import opened Tree

  /** G_MAXINT. */
  const GMaxInt: nat := 0x7fff_ffff

  datatype Criterion = Criterion(
    active: bool,
    weight: real,
    cost: Option<Path -> real>,
    minlevel: Path -> nat,
    maxlevel: Path -> nat,
    mincells: nat,
    maxcells: nat,
    cmax: real)

  // ---------------------------------------------------------------------
  // Sums over the criteria, accumulated in list order as the C loops do.

  function Sum(cs: seq<Criterion>, f: Criterion -> real): real
    decreases |cs|
  {
    if cs == [] then 0.0 else Sum(cs[..|cs| - 1], f) + f(cs[|cs| - 1])
  }

  /** A sum over two lists of criteria is the sum of the two sums. */
  lemma {:induction false} SumAppend(a: seq<Criterion>, b: seq<Criterion>, f: Criterion -> real)
    ensures Sum(a + b, f) == Sum(a, f) + Sum(b, f)
    decreases |b|
  {
    if b == [] {
      assert a + b == a;
    } else {
      assert (a + b)[..|a + b| - 1] == a + b[..|b| - 1];
      assert (a + b)[|a + b| - 1] == b[|b| - 1];
      SumAppend(a, b[..|b| - 1], f);
    }
  }

  /** Criteria on which f is zero add nothing. */
  lemma {:induction false} SumOfZeros(cs: seq<Criterion>, f: Criterion -> real)
    requires forall i :: 0 <= i < |cs| ==> f(cs[i]) == 0.0
    ensures Sum(cs, f) == 0.0
    decreases |cs|
  {
    if cs != [] {
      SumOfZeros(cs[..|cs| - 1], f);
    }
  }

  /** Dropping a criterion on which f is zero leaves the sum unchanged. */
  lemma SumSkipsZero(a: seq<Criterion>, x: Criterion, b: seq<Criterion>, f: Criterion -> real)
    requires f(x) == 0.0
    ensures Sum(a + [x] + b, f) == Sum(a + b, f)
  {
    SumAppend(a + [x], b, f);
    SumAppend(a, b, f);
    assert (a + [x])[..|a + [x]| - 1] == a;
  }

  // ---------------------------------------------------------------------
  // refine_cost.

  /** What one criterion adds to the refine cost of cell y. */
  function Contribution(a: Criterion, y: Path): real
  {
    if a.active && a.cost.Some? then a.weight * a.cost.value(y) else 0.0
  }

  /** refine_cost: the weighted costs of the active criteria that have a
      cost function, added up in list order from 0. */
  function RefineCost(cs: seq<Criterion>, y: Path): real
  {
    Sum(cs, a => Contribution(a, y))
  }

  /** An inactive criterion, or one without a cost function, changes no
      refine cost wherever it stands in the list; with none active the
      cost is 0; and the cost of a list is the sum over its parts. */
  lemma RefineCostInactive(a: seq<Criterion>, x: Criterion, b: seq<Criterion>, y: Path)
    requires !x.active || x.cost.None?
    ensures RefineCost(a + [x] + b, y) == RefineCost(a + b, y)
    ensures RefineCost(a + b, y) == RefineCost(a, y) + RefineCost(b, y)
  {
    SumSkipsZero(a, x, b, z => Contribution(z, y));
    SumAppend(a, b, z => Contribution(z, y));
  }

  lemma NoActiveNoCost(cs: seq<Criterion>, y: Path)
    requires forall i :: 0 <= i < |cs| ==> !cs[i].active
    ensures RefineCost(cs, y) == 0.0
  {
    SumOfZeros(cs, z => Contribution(z, y));
  }

  /** The refine_cost loop, criterion by criterion. */
  method RefineCostLoop(cs: seq<Criterion>, y: Path) returns (cost: real)
    ensures cost == RefineCost(cs, y)
  {
    cost := 0.0;
    var i := 0;
    while i < |cs|
      invariant 0 <= i <= |cs|
      invariant cost == RefineCost(cs[..i], y)
    {
      var a := cs[i];
      if a.active && a.cost.Some? {
        cost := cost + a.weight * a.cost.value(y);
      }
      assert cs[..i + 1][..i] == cs[..i];
      i := i + 1;
    }
    assert cs[..i] == cs;
  }

  // ---------------------------------------------------------------------
  // minlevel and maxlevel.

  /** minlevel: the largest minimum level among the active criteria, 0
      when none is active. */
  function MinLevel(cs: seq<Criterion>, y: Path): (r: nat)
    ensures forall i :: 0 <= i < |cs| && cs[i].active ==> cs[i].minlevel(y) <= r
    ensures r == 0 || exists i :: 0 <= i < |cs| && cs[i].active && cs[i].minlevel(y) == r
    decreases |cs|
  {
    if cs == [] then 0
    else
      var m := MinLevel(cs[..|cs| - 1], y);
      var a := cs[|cs| - 1];
      if a.active && a.minlevel(y) > m then a.minlevel(y) else m
  }

  /** maxlevel: the smallest maximum level among the active criteria,
      G_MAXINT when none is active (a larger level is never taken). */
  function MaxLevel(cs: seq<Criterion>, y: Path): (r: nat)
    ensures r <= GMaxInt
    ensures forall i :: 0 <= i < |cs| && cs[i].active ==> r <= cs[i].maxlevel(y)
    ensures r == GMaxInt || exists i :: 0 <= i < |cs| && cs[i].active && cs[i].maxlevel(y) == r
    decreases |cs|
  {
    if cs == [] then GMaxInt
    else
      var m := MaxLevel(cs[..|cs| - 1], y);
      var a := cs[|cs| - 1];
      if a.active && a.maxlevel(y) < m then a.maxlevel(y) else m
  }

  // ---------------------------------------------------------------------
  // The global bounds gathered at the start of gfs_simulation_adapt.

  datatype Bounds = Bounds(active: bool, mincells: nat, maxcells: nat, cmax: real)

  function ActiveCmax(a: Criterion): real
  {
    if a.active then a.cmax else 0.0
  }

  /** Whether any criterion is active, the largest mincells and the
      smallest maxcells of the active ones (0 and G_MAXINT when none is),
      and the sum of their cmax. */
  function GlobalBounds(cs: seq<Criterion>): (r: Bounds)
    ensures r.active <==> exists i :: 0 <= i < |cs| && cs[i].active
    ensures forall i :: 0 <= i < |cs| && cs[i].active ==>
      r.mincells >= cs[i].mincells && r.maxcells <= cs[i].maxcells
    ensures r.mincells == 0 || exists i :: 0 <= i < |cs| && cs[i].active && cs[i].mincells == r.mincells
    ensures r.maxcells == GMaxInt || exists i :: 0 <= i < |cs| && cs[i].active && cs[i].maxcells == r.maxcells
    ensures r.maxcells <= GMaxInt
    decreases |cs|
  {
    if cs == [] then Bounds(false, 0, GMaxInt, 0.0)
    else
      var b := GlobalBounds(cs[..|cs| - 1]);
      var a := cs[|cs| - 1];
      if !a.active then b
      else Bounds(true,
                  if a.mincells > b.mincells then a.mincells else b.mincells,
                  if a.maxcells < b.maxcells then a.maxcells else b.maxcells,
                  b.cmax + a.cmax)
  }

  /** The global cmax is the sum of the cmax of the active criteria. */
  lemma {:induction false} GlobalCmax(cs: seq<Criterion>)
    ensures GlobalBounds(cs).cmax == Sum(cs, ActiveCmax)
    decreases |cs|
  {
    if cs != [] {
      GlobalCmax(cs[..|cs| - 1]);
    }
  }

  // ---------------------------------------------------------------------
  // The decision rule of the adaptation loop.

  /** The loop coarsens the top coarsening candidate (cost cfine) when
      there are too many cells and it is cheaper than the best refinement,
      or when it is below the cost threshold and there are enough cells. */
  predicate CoarsenFires(b: Bounds, cfine: real, ccoarse: real, nc: int)
  {
    (cfine < -ccoarse && nc > b.maxcells) || (cfine < b.cmax && nc >= b.mincells)
  }

  /** The loop refines the top refinement candidate (cost -ccoarse) when
      there are too few cells and it outweighs the best coarsening, or
      when it is above the cost threshold and the cell budget allows. */
  predicate RefineFires(b: Bounds, cfine: real, ccoarse: real, nc: int)
  {
    (-ccoarse > cfine && nc < b.mincells) || (-ccoarse > b.cmax && nc <= b.maxcells)
  }
}
