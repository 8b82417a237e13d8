/** ftt_cell_coarsen of src/ftt.c.  The children of a cell are coarsened
    first, then the predicate is asked at the cell, then every neighbouring
    cell one level finer that has live children facing the cell is
    coarsened too; only when all of that succeeded are the children
    cleaned up and dropped.  Work done before a failure stays done. */
module Coarsen {
  import opened Wrappers
  import opened Directions
  import opened Tree
  import opened Neighbors
  import opened Traverse

  /** The tree afterwards, the value returned, and the cells the cleanup
      callback was called on, in call order. */
  datatype Coarsened = Coarsened(tree: Cell, ok: bool, cleaned: seq<Path>)

  /** Every node of t lies above level D.  This bounds the recursion, which
      visits only nodes; DepthShallow gives such a D for every tree. */
  ghost predicate Shallow(t: Cell, D: nat)
  {
    forall y :: IsNodeAt(t, y) ==> |y| < D
  }

  ghost predicate NoNewNodes(t: Cell, u: Cell)
  {
    forall y :: IsNodeAt(u, y) ==> IsNodeAt(t, y)
  }

  /** The live children of p in index order. */
  function LiveKids(t: Cell, p: Path): seq<Path>
  {
    KidIf(t, p, 0) + KidIf(t, p, 1) + KidIf(t, p, 2) + KidIf(t, p, 3)
  }

  function KidIf(t: Cell, p: Path, n: ChildIx): seq<Path>
  {
    if Live(t, p + [n]) then [p + [n]] else []
  }

  /** Whether cell q has a live child on side d (the `empty` test of the
      neighbour loop). */
  predicate FacingLive(t: Cell, q: Path, d: Dir)
  {
    Live(t, q + [ChildrenDir(d)[0]]) || Live(t, q + [ChildrenDir(d)[1]])
  }

  /** p names a destroyed child of a live oct: the cell still exists,
      flagged destroyed and without children, so it counts as a leaf. */
  predicate DestroyedSlot(t: Cell, p: Path)
  {
    p != [] && IsNodeAt(t, Parent(p)) && !Live(t, p)
  }

  /** ftt_cell_coarsen on the cell at p with predicate `coarsen`.  A path
      that names no cell at all gives false. */
  function Coarsen(t: Cell, p: Path, coarsen: Path -> bool, D: nat): (r: Coarsened)
    requires Shallow(t, D) && |p| <= D
    ensures NoNewNodes(t, r.tree)
    decreases D - |p|, 2
  {
    if !Live(t, p) then Coarsened(t, DestroyedSlot(t, p) && coarsen(p), [])
    else if IsLeafAt(t, p) then Coarsened(t, coarsen(p), [])
    else
      var k := CoarsenKids(t, p, coarsen, D, 0);
      if !k.ok || !coarsen(p) then Coarsened(k.tree, false, k.cleaned)
      else
        var b := CoarsenNeighbors(k.tree, p, coarsen, D, 0);
        if !b.ok then Coarsened(b.tree, false, k.cleaned + b.cleaned)
        else
          DropNoNewNodes(b.tree, p);
          Coarsened(Replace(b.tree, p, Leaf), true, k.cleaned + b.cleaned + LiveKids(b.tree, p))
  }

  /** The loop over the live children n.. of p; the results are and-ed
      without short cut, so every live child is visited. */
  function CoarsenKids(t: Cell, p: Path, coarsen: Path -> bool, D: nat, n: nat): (r: Coarsened)
    requires Shallow(t, D) && |p| < D && n <= 4
    ensures NoNewNodes(t, r.tree)
    decreases D - |p|, 1, 4 - n
  {
    if n == 4 then Coarsened(t, true, [])
    else
      var x := p + [n as ChildIx];
      var a := if Live(t, x) then Coarsen(t, x, coarsen, D) else Coarsened(t, true, []);
      var b := CoarsenKids(a.tree, p, coarsen, D, n + 1);
      Coarsened(b.tree, a.ok && b.ok, a.cleaned + b.cleaned)
  }

  /** The loop over the directions d and the children of p on side d
      (step i is direction i / 2, child ChildrenDir(d)[i % 2]): a
      neighbour with children facing p must coarsen, or p does not. */
  function CoarsenNeighbors(t: Cell, p: Path, coarsen: Path -> bool, D: nat, i: nat): (r: Coarsened)
    requires Shallow(t, D) && |p| < D && i <= 8
    ensures NoNewNodes(t, r.tree)
    decreases D - |p|, 0, 8 - i
  {
    if i == 8 then Coarsened(t, true, [])
    else
      var d: Dir := i / 2;
      var x := p + [ChildrenDir(d)[i % 2]];
      var nb := if Live(t, x) then Neighbor(t, x, d) else None;
      if nb.Some? && IsNodeAt(t, nb.value) && FacingLive(t, nb.value, Opposite(d)) then
        var a := Coarsen(t, nb.value, coarsen, D);
        if !a.ok then a
        else
          var b := CoarsenNeighbors(a.tree, p, coarsen, D, i + 1);
          Coarsened(b.tree, b.ok, a.cleaned + b.cleaned)
      else CoarsenNeighbors(t, p, coarsen, D, i + 1)
  }

  lemma DropNoNewNodes(t: Cell, p: Path)
    ensures NoNewNodes(t, Replace(t, p, Leaf))
  {
    if !Live(t, p) {
      ReplaceDead(t, p, Leaf);
    } else {
      forall y | IsNodeAt(Replace(t, p, Leaf), y) ensures IsNodeAt(t, y) {
        GetReplace(t, p, Leaf, y);
      }
    }
  }

  /** One more than the depth bounds every node. */
  lemma DepthShallow(t: Cell)
    ensures Shallow(t, Depth(t, 0) + 1)
  {
    forall y | IsNodeAt(t, y) ensures |y| < Depth(t, 0) + 1 {
      DepthIsDeepestLevel(t, 0, y);
    }
  }

  // ---------------------------------------------------------------------
  // What a coarsening does to the tree.

  /** u comes from t by removing cells only: nothing revives, no leaf
      gains children, every cell cleaned up was live in t, is gone from u
      and satisfied the predicate, every cell gone was cleaned up exactly
      once, and the count drops by the number of cleanups. */
  ghost predicate Removes(t: Cell, u: Cell, cleaned: seq<Path>, coarsen: Path -> bool)
  {
    (forall y :: Live(u, y) ==> Live(t, y)) &&
    NoNewNodes(t, u) &&
    (forall i :: 0 <= i < |cleaned| ==>
      Live(t, cleaned[i]) && !Live(u, cleaned[i]) && coarsen(cleaned[i])) &&
    (forall y :: Live(t, y) && !Live(u, y) ==> y in cleaned) &&
    Distinct(cleaned) &&
    Count(u) + |cleaned| == Count(t)
  }

  lemma RemovesRefl(t: Cell, coarsen: Path -> bool)
    ensures Removes(t, t, [], coarsen)
  {
  }

  lemma RemovesTrans(t: Cell, a: Cell, b: Cell, ca: seq<Path>, cb: seq<Path>, coarsen: Path -> bool)
    requires Removes(t, a, ca, coarsen) && Removes(a, b, cb, coarsen)
    ensures Removes(t, b, ca + cb, coarsen)
  {
    var c := ca + cb;
    forall i, j | 0 <= i < j < |c| ensures c[i] != c[j] {
      if j < |ca| {
        assert c[i] == ca[i] && c[j] == ca[j];
      } else if i >= |ca| {
        assert c[i] == cb[i - |ca|] && c[j] == cb[j - |ca|];
      } else {
        assert !Live(a, c[i]) && Live(a, c[j]);
      }
    }
    forall i | 0 <= i < |c| ensures Live(t, c[i]) && !Live(b, c[i]) && coarsen(c[i]) {
      if i < |ca| {
        assert c[i] == ca[i];
      } else {
        assert c[i] == cb[i - |ca|];
      }
    }
  }

  /** Alike is transitive and weakens to shallower levels. */
  lemma AlikeTrans(t: Cell, a: Cell, b: Cell, L: nat)
    requires Alike(t, a, L) && Alike(a, b, L)
    ensures Alike(t, b, L)
  {
  }

  lemma AlikeShallower(t: Cell, u: Cell, L: nat, K: nat)
    requires Alike(t, u, L) && K < L
    ensures Alike(t, u, K)
  {
    forall y | |y| == K ensures Live(t, y) == Live(u, y) {
      assert KindAt(t, y) == KindAt(u, y);
    }
  }

  /** A node whose live children are leaves counts itself and them. */
  lemma OctCount(t: Cell, p: Path)
    requires IsNodeAt(t, p)
    requires forall n: ChildIx :: Live(t, p + [n]) ==> IsLeafAt(t, p + [n])
    ensures Count(Get(t, p).value) == 1 + |LiveKids(t, p)|
  {
    var c := Get(t, p).value;
    GetSnoc(t, p, 0);
    GetSnoc(t, p, 1);
    GetSnoc(t, p, 2);
    GetSnoc(t, p, 3);
    assert SlotCount(c.k0) == |KidIf(t, p, 0)|;
    assert SlotCount(c.k1) == |KidIf(t, p, 1)|;
    assert SlotCount(c.k2) == |KidIf(t, p, 2)|;
    assert SlotCount(c.k3) == |KidIf(t, p, 3)|;
  }

  /** The live children of p, each once. */
  lemma LiveKidsMembers(t: Cell, p: Path, y: Path)
    ensures y in LiveKids(t, p) <==> Live(t, y) && |y| == |p| + 1 && IsPrefix(p, y)
    ensures Distinct(LiveKids(t, p))
  {
    if |y| == |p| + 1 && IsPrefix(p, y) {
      assert y == p + [y[|p|]];
    }
    var s := LiveKids(t, p);
    forall i, j | 0 <= i < j < |s| ensures s[i] != s[j] {
      assert s[i][|p|] < s[j][|p|];
    }
  }

  /** Dropping the children of a node whose live children are leaves
      removes exactly those children. */
  lemma DropRemoves(t: Cell, p: Path, coarsen: Path -> bool)
    requires IsNodeAt(t, p)
    requires forall n: ChildIx :: Live(t, p + [n]) ==> IsLeafAt(t, p + [n]) && coarsen(p + [n])
    ensures Removes(t, Replace(t, p, Leaf), LiveKids(t, p), coarsen)
    ensures Alike(t, Replace(t, p, Leaf), |p|)
    ensures IsLeafAt(Replace(t, p, Leaf), p)
  {
    var u := Replace(t, p, Leaf);
    var s := LiveKids(t, p);
    DropNoNewNodes(t, p);
    GetReplace(t, p, Leaf, p);
    assert p[|p|..] == [];
    DropKeeps(t, p);
    DropKills(t, p);
    DropCleans(t, p, coarsen);
    LiveKidsMembers(t, p, []);
    CountReplace(t, p, Leaf);
    OctCount(t, p);
    DropAlike(t, p);
  }

  lemma DropKeeps(t: Cell, p: Path)
    requires IsNodeAt(t, p)
    ensures forall y :: Live(Replace(t, p, Leaf), y) ==> Live(t, y)
  {
    forall y | Live(Replace(t, p, Leaf), y) ensures Live(t, y) {
      GetReplace(t, p, Leaf, y);
      if IsPrefix(p, y) {
        assert y[|p|..] == [];
        assert y == p;
      }
    }
  }

  lemma DropKills(t: Cell, p: Path)
    requires IsNodeAt(t, p)
    requires forall n: ChildIx :: Live(t, p + [n]) ==> IsLeafAt(t, p + [n])
    ensures forall y :: Live(t, y) && !Live(Replace(t, p, Leaf), y) ==> y in LiveKids(t, p)
  {
    forall y | Live(t, y) && !Live(Replace(t, p, Leaf), y) ensures y in LiveKids(t, p) {
      GetReplace(t, p, Leaf, y);
      assert IsPrefix(p, y) && y != p;
      var k := p + [y[|p|]];
      assert IsPrefix(k, y) by {
        assert y[..|p| + 1] == y[..|p|] + [y[|p|]];
      }
      LivePrefix(t, y, k);
      assert |y| == |p| + 1;
      LiveKidsMembers(t, p, y);
    }
  }

  lemma DropCleans(t: Cell, p: Path, coarsen: Path -> bool)
    requires IsNodeAt(t, p)
    requires forall n: ChildIx :: Live(t, p + [n]) ==> coarsen(p + [n])
    ensures forall i :: 0 <= i < |LiveKids(t, p)| ==>
      Live(t, LiveKids(t, p)[i]) && !Live(Replace(t, p, Leaf), LiveKids(t, p)[i]) &&
      coarsen(LiveKids(t, p)[i])
  {
    var s := LiveKids(t, p);
    forall i | 0 <= i < |s|
      ensures Live(t, s[i]) && !Live(Replace(t, p, Leaf), s[i]) && coarsen(s[i])
    {
      LiveKidsMembers(t, p, s[i]);
      GetReplace(t, p, Leaf, s[i]);
      assert s[i] == p + [s[i][|p|]];
      assert s[i][|p|..] == [s[i][|p|]];
    }
  }

  lemma DropAlike(t: Cell, p: Path)
    requires IsNodeAt(t, p)
    ensures Alike(t, Replace(t, p, Leaf), |p|)
  {
    var u := Replace(t, p, Leaf);
    forall y | |y| <= |p| && y != p ensures KindAt(t, y) == KindAt(u, y) {
      if IsPrefix(y, p) {
        GetReplace(t, p, Leaf, y);
      } else {
        KindReplace(t, p, Leaf, y);
      }
    }
    GetReplace(t, p, Leaf, p);
    assert p[|p|..] == [];
  }

  // ---------------------------------------------------------------------
  // The contract of ftt_cell_coarsen.

  /** Coarsening only removes cells, each after a cleanup call, and
      only cells the predicate accepts; nothing at p's level or above
      changes but p itself; on a leaf, or on a destroyed child of a live
      oct, it returns the predicate and changes nothing; on a node it returns true exactly when p is a leaf
      afterwards, which needs the predicate at p. */
  lemma {:induction false} CoarsenSpec(t: Cell, p: Path, coarsen: Path -> bool, D: nat)
    requires Shallow(t, D) && |p| <= D
    ensures var r := Coarsen(t, p, coarsen, D);
      Removes(t, r.tree, r.cleaned, coarsen) && Alike(t, r.tree, |p|)
    ensures DestroyedSlot(t, p) ==> Coarsen(t, p, coarsen, D) == Coarsened(t, coarsen(p), [])
    ensures !Live(t, p) && !DestroyedSlot(t, p) ==> Coarsen(t, p, coarsen, D) == Coarsened(t, false, [])
    ensures IsLeafAt(t, p) ==> Coarsen(t, p, coarsen, D) == Coarsened(t, coarsen(p), [])
    ensures IsNodeAt(t, p) ==>
      (Coarsen(t, p, coarsen, D).ok <==> IsLeafAt(Coarsen(t, p, coarsen, D).tree, p))
    ensures IsNodeAt(t, p) && Coarsen(t, p, coarsen, D).ok ==> coarsen(p)
    decreases D - |p|, 2
  {
    if !Live(t, p) || IsLeafAt(t, p) {
      RemovesRefl(t, coarsen);
    } else {
      var k := CoarsenKids(t, p, coarsen, D, 0);
      KidsSpec(t, p, coarsen, D, 0);
      if !k.ok || !coarsen(p) {
        CoarsenStopped(t, k.tree, p);
      } else {
        var b := CoarsenNeighbors(k.tree, p, coarsen, D, 0);
        NeighborsSpec(k.tree, p, coarsen, D, 0);
        RemovesTrans(t, k.tree, b.tree, k.cleaned, b.cleaned, coarsen);
        AlikeTrans(t, k.tree, b.tree, |p| + 1);
        if !b.ok {
          CoarsenStopped(t, b.tree, p);
        } else {
          CoarsenFinish(t, k.tree, b.tree, p, coarsen, k.cleaned + b.cleaned);
        }
      }
    }
  }

  /** A successful coarsening of a node removes its whole subtree below
      it, each cell after one cleanup call, and only when the predicate
      accepts every one of those cells. */
  lemma CoarsenRemovesSubtree(t: Cell, p: Path, coarsen: Path -> bool, D: nat, y: Path)
    requires Shallow(t, D) && |p| <= D
    requires IsNodeAt(t, p) && Coarsen(t, p, coarsen, D).ok
    requires Live(t, y) && IsPrefix(p, y) && y != p
    ensures y in Coarsen(t, p, coarsen, D).cleaned && coarsen(y)
    ensures !Live(Coarsen(t, p, coarsen, D).tree, y)
  {
    var r := Coarsen(t, p, coarsen, D);
    CoarsenSpec(t, p, coarsen, D);
    assert y == p + y[|p|..];
    GetAppend(r.tree, p, y[|p|..]);
    var i :| 0 <= i < |r.cleaned| && r.cleaned[i] == y;
  }

  /** Stopping before the drop leaves p a node. */
  lemma CoarsenStopped(t: Cell, u: Cell, p: Path)
    requires IsNodeAt(t, p) && Alike(t, u, |p| + 1)
    ensures Alike(t, u, |p|) && IsNodeAt(u, p) && !IsLeafAt(u, p)
  {
    AlikeShallower(t, u, |p| + 1, |p|);
    assert KindAt(t, p) == KindAt(u, p);
  }

  /** The drop at the end of a successful coarsening. */
  lemma CoarsenFinish(t: Cell, k: Cell, b: Cell, p: Path, coarsen: Path -> bool, cleaned: seq<Path>)
    requires IsNodeAt(t, p)
    requires Removes(t, b, cleaned, coarsen) && Alike(k, b, |p| + 1) && Alike(t, k, |p| + 1)
    requires NoNewNodes(k, b)
    requires forall m: ChildIx :: Live(t, p + [m]) ==> IsLeafAt(k, p + [m]) && coarsen(p + [m])
    ensures Removes(t, Replace(b, p, Leaf), cleaned + LiveKids(b, p), coarsen)
    ensures Alike(t, Replace(b, p, Leaf), |p|)
    ensures IsLeafAt(Replace(b, p, Leaf), p)
  {
    AlikeTrans(t, k, b, |p| + 1);
    CoarsenStopped(t, b, p);
    KidsStayLeaves(t, k, b, p, coarsen);
    DropRemoves(b, p, coarsen);
    RemovesTrans(t, b, Replace(b, p, Leaf), cleaned, LiveKids(b, p), coarsen);
    AlikeTrans(t, b, Replace(b, p, Leaf), |p|);
  }

  /** The neighbour loop leaves the children as the children loop left
      them. */
  lemma KidsStayLeaves(t: Cell, k: Cell, b: Cell, p: Path, coarsen: Path -> bool)
    requires Alike(t, b, |p| + 1) && Alike(k, b, |p| + 1) && NoNewNodes(k, b)
    requires forall m: ChildIx :: Live(t, p + [m]) ==> IsLeafAt(k, p + [m]) && coarsen(p + [m])
    ensures forall n: ChildIx :: Live(b, p + [n]) ==> IsLeafAt(b, p + [n]) && coarsen(p + [n])
  {
    forall n: ChildIx | Live(b, p + [n])
      ensures IsLeafAt(b, p + [n]) && coarsen(p + [n])
    {
      assert |p + [n]| == |p| + 1;
      assert Live(t, p + [n]);
      assert Live(k, p + [n]);
      assert !IsNodeAt(b, p + [n]);
    }
  }

  /** The children loop: it changes nothing above the children's level nor
      which children are live, and when it returns true every live child
      from n on is a leaf the predicate accepts. */
  lemma {:induction false} KidsSpec(t: Cell, p: Path, coarsen: Path -> bool, D: nat, n: nat)
    requires Shallow(t, D) && |p| < D && n <= 4
    ensures var r := CoarsenKids(t, p, coarsen, D, n);
      Removes(t, r.tree, r.cleaned, coarsen) && Alike(t, r.tree, |p| + 1)
    ensures CoarsenKids(t, p, coarsen, D, n).ok ==>
      forall m: ChildIx :: n <= m && Live(t, p + [m]) ==>
        IsLeafAt(CoarsenKids(t, p, coarsen, D, n).tree, p + [m]) && coarsen(p + [m])
    decreases D - |p|, 1, 4 - n
  {
    if n == 4 {
      RemovesRefl(t, coarsen);
    } else {
      var x := p + [n as ChildIx];
      var a := if Live(t, x) then Coarsen(t, x, coarsen, D) else Coarsened(t, true, []);
      if Live(t, x) {
        CoarsenSpec(t, x, coarsen, D);
      } else {
        RemovesRefl(t, coarsen);
      }
      var b := CoarsenKids(a.tree, p, coarsen, D, n + 1);
      KidsSpec(a.tree, p, coarsen, D, n + 1);
      KidsStep(t, a, b, p, n, coarsen);
    }
  }

  /** One step of the children loop, composed with the rest of it. */
  lemma KidsStep(t: Cell, a: Coarsened, b: Coarsened, p: Path, n: nat, coarsen: Path -> bool)
    requires n < 4
    requires Removes(t, a.tree, a.cleaned, coarsen) && Alike(t, a.tree, |p| + 1)
    requires a.ok && Live(t, p + [n as ChildIx]) ==>
      IsLeafAt(a.tree, p + [n as ChildIx]) && coarsen(p + [n as ChildIx])
    requires Removes(a.tree, b.tree, b.cleaned, coarsen) && Alike(a.tree, b.tree, |p| + 1)
    requires b.ok ==> forall m: ChildIx :: n + 1 <= m && Live(a.tree, p + [m]) ==>
      IsLeafAt(b.tree, p + [m]) && coarsen(p + [m])
    ensures Removes(t, b.tree, a.cleaned + b.cleaned, coarsen) && Alike(t, b.tree, |p| + 1)
    ensures a.ok && b.ok ==> forall m: ChildIx :: n <= m && Live(t, p + [m]) ==>
      IsLeafAt(b.tree, p + [m]) && coarsen(p + [m])
  {
    RemovesTrans(t, a.tree, b.tree, a.cleaned, b.cleaned, coarsen);
    AlikeTrans(t, a.tree, b.tree, |p| + 1);
    if a.ok && b.ok {
      forall m: ChildIx | n <= m && Live(t, p + [m])
        ensures IsLeafAt(b.tree, p + [m]) && coarsen(p + [m])
      {
        assert |p + [m]| == |p| + 1;
        assert Live(a.tree, p + [m]);
        if m == n {
          assert p + [m] == p + [n as ChildIx];
          assert IsLeafAt(a.tree, p + [m]);
          assert Live(b.tree, p + [m]) && !IsNodeAt(b.tree, p + [m]);
        }
      }
    }
  }

  /** A node neighbour of a child of p on side d is not a child of p, and
      lies at the children's level. */
  lemma NeighborOutside(t: Cell, p: Path, i: nat)
    requires i < 8
    requires Neighbor(t, p + [ChildrenDir(i / 2)[i % 2]], i / 2).Some?
    requires IsNodeAt(t, Neighbor(t, p + [ChildrenDir(i / 2)[i % 2]], i / 2).value)
    ensures var q := Neighbor(t, p + [ChildrenDir(i / 2)[i % 2]], i / 2).value;
      |q| == |p| + 1 && Parent(q) != p
  {
    var d: Dir := i / 2;
    var c := ChildrenDir(d)[i % 2];
    var x := p + [c];
    ChildrenDirCharacterised(d, c);
    assert Parent(x) == p && Last(x) == c;
    var q := Neighbor(t, x, d).value;
    var r := Neighbor(t, p, d).value;
    assert IsNodeAt(t, r) && q == r + [Mirror(NeighborIndex(d, c))];
    assert Parent(q) == r;
  }

  /** Step i of the neighbour loop finds nothing left to coarsen. */
  predicate FacesNoFinerNeighbor(t: Cell, p: Path, i: nat)
    requires i < 8
  {
    var d: Dir := i / 2;
    var x := p + [ChildrenDir(d)[i % 2]];
    Live(t, x) && Neighbor(t, x, d).Some? ==>
      !(IsNodeAt(t, Neighbor(t, x, d).value) && FacingLive(t, Neighbor(t, x, d).value, Opposite(d)))
  }

  /** The neighbour loop: it changes nothing above the children's level,
      and when it returns true no live child of p on a side from step i on
      faces a neighbour that still has live children facing it. */
  lemma {:induction false} NeighborsSpec(t: Cell, p: Path, coarsen: Path -> bool, D: nat, i: nat)
    requires Shallow(t, D) && |p| < D && i <= 8
    ensures var r := CoarsenNeighbors(t, p, coarsen, D, i);
      Removes(t, r.tree, r.cleaned, coarsen) && Alike(t, r.tree, |p| + 1)
    ensures var r := CoarsenNeighbors(t, p, coarsen, D, i);
      r.ok ==> forall j :: i <= j < 8 ==> FacesNoFinerNeighbor(r.tree, p, j)
    decreases D - |p|, 0, 8 - i, 2
  {
    if i == 8 {
      assert CoarsenNeighbors(t, p, coarsen, D, i) == Coarsened(t, true, []);
      RemovesRefl(t, coarsen);
    } else if NeighborFires(t, p, i) {
      NeighborsFired(t, p, coarsen, D, i);
    } else {
      NeighborsQuiet(t, p, coarsen, D, i);
    }
  }

  /** A step with no neighbour to coarsen passes on to the next one. */
  lemma {:induction false} NeighborsQuiet(t: Cell, p: Path, coarsen: Path -> bool, D: nat, i: nat)
    requires Shallow(t, D) && |p| < D && i < 8 && !NeighborFires(t, p, i)
    ensures var r := CoarsenNeighbors(t, p, coarsen, D, i);
      Removes(t, r.tree, r.cleaned, coarsen) && Alike(t, r.tree, |p| + 1)
    ensures var r := CoarsenNeighbors(t, p, coarsen, D, i);
      r.ok ==> forall j :: i <= j < 8 ==> FacesNoFinerNeighbor(r.tree, p, j)
    decreases D - |p|, 0, 8 - i, 1
  {
    QuietUnfold(t, p, coarsen, D, i);
    NeighborsSpec(t, p, coarsen, D, i + 1);
    QuietStep(t, CoarsenNeighbors(t, p, coarsen, D, i + 1), p, i, coarsen);
  }

  lemma QuietStep(t: Cell, b: Coarsened, p: Path, i: nat, coarsen: Path -> bool)
    requires i < 8 && FacesNoFinerNeighbor(t, p, i)
    requires Removes(t, b.tree, b.cleaned, coarsen) && Alike(t, b.tree, |p| + 1)
    requires b.ok ==> forall j :: i + 1 <= j < 8 ==> FacesNoFinerNeighbor(b.tree, p, j)
    ensures b.ok ==> forall j :: i <= j < 8 ==> FacesNoFinerNeighbor(b.tree, p, j)
  {
    StepFaces(t, b.tree, p, i);
  }

  /** Whether step i of the neighbour loop has a neighbour to coarsen. */
  predicate NeighborFires(t: Cell, p: Path, i: nat)
    requires i < 8
  {
    !FacesNoFinerNeighbor(t, p, i)
  }

  lemma {:induction false} NeighborsFired(t: Cell, p: Path, coarsen: Path -> bool, D: nat, i: nat)
    requires Shallow(t, D) && |p| < D && i < 8 && NeighborFires(t, p, i)
    ensures var r := CoarsenNeighbors(t, p, coarsen, D, i);
      Removes(t, r.tree, r.cleaned, coarsen) && Alike(t, r.tree, |p| + 1)
    ensures var r := CoarsenNeighbors(t, p, coarsen, D, i);
      r.ok ==> forall j :: i <= j < 8 ==> FacesNoFinerNeighbor(r.tree, p, j)
    decreases D - |p|, 0, 8 - i, 1
  {
    var a := Coarsen(t, Neighbor(t, p + [ChildrenDir(i / 2)[i % 2]], i / 2).value, coarsen, D);
    FiredCoarsen(t, p, coarsen, D, i);
    if a.ok {
      FiredUnfold(t, p, coarsen, D, i, a);
      FiredOk(t, p, coarsen, D, i, a, CoarsenNeighbors(t, p, coarsen, D, i));
    }
  }

  /** Coarsening the neighbour of step i: it removes cells only, below the
      children's level; on success the neighbour is a leaf, on failure the
      loop stops with that result. */
  lemma FiredCoarsen(t: Cell, p: Path, coarsen: Path -> bool, D: nat, i: nat)
    requires Shallow(t, D) && |p| < D && i < 8 && NeighborFires(t, p, i)
    ensures var q := Neighbor(t, p + [ChildrenDir(i / 2)[i % 2]], i / 2).value;
      var a := Coarsen(t, q, coarsen, D);
      Removes(t, a.tree, a.cleaned, coarsen) && Alike(t, a.tree, |p| + 1) &&
      (a.ok ==> IsLeafAt(a.tree, q)) &&
      (!a.ok ==> CoarsenNeighbors(t, p, coarsen, D, i) == a)
    decreases D - |p|, 0, 8 - i, 0, 0
  {
    var q := Neighbor(t, p + [ChildrenDir(i / 2)[i % 2]], i / 2).value;
    NeighborOutside(t, p, i);
    var a := Coarsen(t, q, coarsen, D);
    CoarsenSpec(t, q, coarsen, D);
    AlikeChildren(t, a.tree, q, p);
  }

  lemma {:induction false} FiredOk(t: Cell, p: Path, coarsen: Path -> bool, D: nat, i: nat, a: Coarsened, r: Coarsened)
    requires Shallow(a.tree, D) && |p| < D && i < 8 && NeighborFires(t, p, i)
    requires IsLeafAt(a.tree, Neighbor(t, p + [ChildrenDir(i / 2)[i % 2]], i / 2).value)
    requires Removes(t, a.tree, a.cleaned, coarsen) && Alike(t, a.tree, |p| + 1)
    requires var b := CoarsenNeighbors(a.tree, p, coarsen, D, i + 1);
      r == Coarsened(b.tree, b.ok, a.cleaned + b.cleaned)
    ensures Removes(t, r.tree, r.cleaned, coarsen) && Alike(t, r.tree, |p| + 1)
    ensures r.ok ==> forall j :: i <= j < 8 ==> FacesNoFinerNeighbor(r.tree, p, j)
    decreases D - |p|, 0, 8 - i, 0
  {
    var b := CoarsenNeighbors(a.tree, p, coarsen, D, i + 1);
    NeighborsSpec(a.tree, p, coarsen, D, i + 1);
    FiredNowLeaf(t, a.tree, p, i);
    NeighborsStep(t, a, b, p, i, coarsen);
  }

  lemma QuietUnfold(t: Cell, p: Path, coarsen: Path -> bool, D: nat, i: nat)
    requires Shallow(t, D) && |p| < D && i < 8 && !NeighborFires(t, p, i)
    ensures CoarsenNeighbors(t, p, coarsen, D, i) == CoarsenNeighbors(t, p, coarsen, D, i + 1)
  {
  }

  lemma FiredUnfold(t: Cell, p: Path, coarsen: Path -> bool, D: nat, i: nat, a: Coarsened)
    requires Shallow(t, D) && |p| < D && i < 8 && NeighborFires(t, p, i)
    requires a == Coarsen(t, Neighbor(t, p + [ChildrenDir(i / 2)[i % 2]], i / 2).value, coarsen, D)
    requires a.ok
    ensures Shallow(a.tree, D)
    ensures var b := CoarsenNeighbors(a.tree, p, coarsen, D, i + 1);
      CoarsenNeighbors(t, p, coarsen, D, i) == Coarsened(b.tree, b.ok, a.cleaned + b.cleaned)
  {
  }

  /** Once the neighbour of step i is a leaf, the step has nothing left
      to coarsen. */
  lemma FiredNowLeaf(t: Cell, u: Cell, p: Path, i: nat)
    requires i < 8 && NeighborFires(t, p, i) && Alike(t, u, |p| + 1)
    requires IsLeafAt(u, Neighbor(t, p + [ChildrenDir(i / 2)[i % 2]], i / 2).value)
    ensures FacesNoFinerNeighbor(u, p, i)
  {
    var d: Dir := i / 2;
    var x := p + [ChildrenDir(d)[i % 2]];
    assert Live(u, x);
    NeighborLocal(t, u, x, d);
  }

  /** A coarsening of a cell at the children's level that is not a child
      changes nothing above the children's level. */
  lemma AlikeChildren(t: Cell, u: Cell, q: Path, p: Path)
    requires Alike(t, u, |q|) && |q| == |p| + 1
    ensures Alike(t, u, |p| + 1)
  {
  }

  /** One step of the neighbour loop, composed with the rest of it. */
  lemma NeighborsStep(t: Cell, a: Coarsened, b: Coarsened, p: Path, i: nat, coarsen: Path -> bool)
    requires i < 8
    requires Removes(t, a.tree, a.cleaned, coarsen) && Alike(t, a.tree, |p| + 1)
    requires FacesNoFinerNeighbor(a.tree, p, i)
    requires Removes(a.tree, b.tree, b.cleaned, coarsen) && Alike(a.tree, b.tree, |p| + 1)
    requires b.ok ==> forall j :: i + 1 <= j < 8 ==> FacesNoFinerNeighbor(b.tree, p, j)
    ensures Removes(t, b.tree, a.cleaned + b.cleaned, coarsen) && Alike(t, b.tree, |p| + 1)
    ensures b.ok ==> forall j :: i <= j < 8 ==> FacesNoFinerNeighbor(b.tree, p, j)
  {
    RemovesTrans(t, a.tree, b.tree, a.cleaned, b.cleaned, coarsen);
    AlikeTrans(t, a.tree, b.tree, |p| + 1);
    StepFaces(a.tree, b.tree, p, i);
  }

  /** Once step i has nothing left to coarsen, removing cells below the
      children's level keeps it so. */
  lemma StepFaces(t: Cell, u: Cell, p: Path, i: nat)
    requires i < 8 && FacesNoFinerNeighbor(t, p, i)
    requires (forall y :: Live(u, y) ==> Live(t, y)) && NoNewNodes(t, u)
    requires Alike(t, u, |p| + 1)
    ensures FacesNoFinerNeighbor(u, p, i)
  {
    var d: Dir := i / 2;
    var x := p + [ChildrenDir(d)[i % 2]];
    if Live(u, x) && Neighbor(u, x, d).Some? {
      assert Neighbor(u, x, d) == Neighbor(t, x, d) by {
        NeighborLocal(t, u, x, d);
      }
      var q := Neighbor(u, x, d).value;
      var od := Opposite(d);
      assert IsNodeAt(u, q) ==> IsNodeAt(t, q);
      assert FacingLive(u, q, od) ==> FacingLive(t, q, od) by {
        assert Live(u, q + [ChildrenDir(od)[0]]) ==> Live(t, q + [ChildrenDir(od)[0]]);
        assert Live(u, q + [ChildrenDir(od)[1]]) ==> Live(t, q + [ChildrenDir(od)[1]]);
      }
    }
  }
}
