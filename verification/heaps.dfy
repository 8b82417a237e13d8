/** The two priority queues of gfs_simulation_adapt (GtsEHeap) as a
    sequence of (key, cell) entries, and the lazy pops remove_top_coarse
    and remove_top_fine of src/adaptive.c.  A cell's heap marker (the
    hcoarse and hfine temporary variables, non-zero while the cell has an
    entry) is modelled as the presence of an entry for the cell. */
module Heaps {
  import opened Wrappers
  import opened Directions
  import opened Tree

  datatype Entry = Entry(key: real, cell: Path)

  type Heap = seq<Entry>

  predicate InHeap(h: Heap, y: Path)
  {
    exists i :: 0 <= i < |h| && h[i].cell == y
  }

  /** At most one entry per cell, as the markers ensure. */
  predicate Unique(h: Heap)
  {
    forall i, j :: 0 <= i < j < |h| ==> h[i].cell != h[j].cell
  }

  /** gts_eheap_insert_with_key. */
  function Insert(h: Heap, key: real, y: Path): (r: Heap)
    ensures multiset(r) == multiset(h) + multiset{Entry(key, y)}
    ensures !InHeap(h, y) && Unique(h) ==> Unique(r)
    ensures InHeap(r, y)
  {
    var r := h + [Entry(key, y)];
    assert r[|h|] == Entry(key, y);
    r
  }

  /** Where the least key sits (the first such entry: ties are taken in
      insertion order). */
  function MinIndex(h: Heap): (i: nat)
    requires h != []
    ensures i < |h|
    ensures forall j :: 0 <= j < |h| ==> h[i].key <= h[j].key
    decreases |h|
  {
    if |h| == 1 then 0
    else
      var k := MinIndex(h[1..]) + 1;
      assert forall j :: 1 <= j < |h| ==> h[j] == h[1..][j - 1];
      if h[0].key <= h[k].key then 0 else k
  }

  function RemoveAt(h: Heap, i: nat): (r: Heap)
    requires i < |h|
    ensures multiset(r) + multiset{h[i]} == multiset(h)
    ensures |r| == |h| - 1
  {
    assert h == h[..i] + [h[i]] + h[i + 1..];
    h[..i] + h[i + 1..]
  }

  /** gts_eheap_remove on the entry a cell's marker points at: the cell
      loses its entry and nothing else changes. */
  function Evict(h: Heap, y: Path): (r: Heap)
    ensures forall e :: e in r <==> e in h && e.cell != y
    ensures multiset(r) <= multiset(h)
    ensures |r| <= |h|
    decreases |h|
  {
    if h == [] then []
    else
      var rest := Evict(h[1..], y);
      assert h == [h[0]] + h[1..];
      if h[0].cell == y then rest else [h[0]] + rest
  }

  /** Evicting leaves the cell without an entry, is a no-op on a cell
      that has none, and keeps the markers unique. */
  lemma EvictSpec(h: Heap, y: Path)
    ensures !InHeap(Evict(h, y), y)
    ensures !InHeap(h, y) ==> Evict(h, y) == h
    ensures Unique(h) ==> Unique(Evict(h, y))
  {
    var r := Evict(h, y);
    forall j | 0 <= j < |r| ensures r[j].cell != y {
      assert r[j] in r;
    }
    if !InHeap(h, y) {
      EvictNoop(h, y);
    }
    if Unique(h) {
      EvictUnique(h, y);
    }
  }

  lemma {:induction false} EvictNoop(h: Heap, y: Path)
    requires !InHeap(h, y)
    ensures Evict(h, y) == h
    decreases |h|
  {
    if h != [] {
      assert !InHeap(h[1..], y) by {
        forall j | 0 <= j < |h[1..]| ensures h[1..][j].cell != y {
          assert h[1..][j] == h[j + 1];
        }
      }
      EvictNoop(h[1..], y);
      assert h[0].cell != y;
      assert h == [h[0]] + h[1..];
    }
  }

  lemma {:induction false} EvictUnique(h: Heap, y: Path)
    requires Unique(h)
    ensures Unique(Evict(h, y))
    decreases |h|
  {
    if h != [] {
      var t := h[1..];
      assert Unique(t) by {
        forall a, b | 0 <= a < b < |t| ensures t[a].cell != t[b].cell {
          assert t[a] == h[a + 1] && t[b] == h[b + 1];
        }
      }
      EvictUnique(t, y);
      var rest := Evict(t, y);
      if h[0].cell != y {
        forall e | e in rest ensures e.cell != h[0].cell {
          assert e in t;
          var k :| 0 <= k < |t| && t[k] == e;
          assert h[k + 1] == e;
        }
        UniqueCons(h[0], rest);
      }
    }
  }

  lemma UniqueCons(x: Entry, s: Heap)
    requires Unique(s)
    requires forall e :: e in s ==> e.cell != x.cell
    ensures Unique([x] + s)
  {
    var r := [x] + s;
    forall a, b | 0 <= a < b < |r| ensures r[a].cell != r[b].cell {
      assert r[b] == s[b - 1];
      if a > 0 {
        assert r[a] == s[a - 1];
      } else {
        assert s[b - 1] in s;
      }
    }
  }

  // ---------------------------------------------------------------------
  // Lazy pops.

  /** A popped cell (None once the heap ran dry), the key it was stored
      with and the heap left behind. */
  datatype Popped = Popped(cell: Option<Path>, key: real, heap: Heap)

  /** gts_eheap_remove_top repeated until the cell it yields passes
      `accept` or the heap is empty.  Every entry taken off has its
      marker reset.  The key is that of the last entry taken off; on a
      heap that is empty from the start it keeps its previous value, as
      gts_eheap_remove_top leaves it unwritten. */
  function PopWhere(h: Heap, key: real, accept: Path -> bool): (r: Popped)
    ensures r.cell.None? || accept(r.cell.value)
    ensures |r.heap| + (if r.cell.Some? then 1 else 0) <= |h|
    decreases |h|
  {
    if h == [] then Popped(None, key, h)
    else
      var i := MinIndex(h);
      var rest := RemoveAt(h, i);
      if accept(h[i].cell) then Popped(Some(h[i].cell), h[i].key, rest)
      else PopWhere(rest, h[i].key, accept)
  }

  /** The popped entry has the least key of what is left, and everything
      taken off before it failed `accept`; an exhausted heap is empty. */
  lemma {:induction false} PopWhereSpec(h: Heap, key: real, accept: Path -> bool)
    ensures var r := PopWhere(h, key, accept);
      multiset(r.heap) <= multiset(h) &&
      (r.cell.Some? ==> (Entry(r.key, r.cell.value) in h &&
        forall e :: e in r.heap ==> r.key <= e.key)) &&
      (r.cell.None? ==> r.heap == []) &&
      (h == [] ==> r.key == key) &&
      (h != [] ==> exists e :: e in h && e.key == r.key) &&
      forall e :: e in h && e !in r.heap ==> !accept(e.cell) || r.cell == Some(e.cell)
    decreases |h|
  {
    if h != [] {
      var i := MinIndex(h);
      var rest := RemoveAt(h, i);
      PopEntry(h, i, rest);
      if accept(h[i].cell) {
        forall e | e in rest ensures h[i].key <= e.key {
          assert e in h;
        }
      } else {
        PopWhereSpec(rest, h[i].key, accept);
        var r := PopWhere(rest, h[i].key, accept);
        assert PopWhere(h, key, accept) == r;
        assert h[i] in h;
      }
    }
  }

  /** Every entry taken off has its marker reset: with one entry per cell,
      no cell taken off still has an entry. */
  lemma {:induction false} PopWhereMarkers(h: Heap, key: real, accept: Path -> bool)
    requires Unique(h)
    ensures var r := PopWhere(h, key, accept);
      Unique(r.heap) && forall e :: e in h && e !in r.heap ==> !InHeap(r.heap, e.cell)
    decreases |h|
  {
    if h != [] {
      var i := MinIndex(h);
      var rest := RemoveAt(h, i);
      PopEntry(h, i, rest);
      if !accept(h[i].cell) {
        PopWhereMarkers(rest, h[i].key, accept);
        PopWhereSpec(rest, h[i].key, accept);
        var r := PopWhere(rest, h[i].key, accept);
        forall e | e in h && e !in r.heap ensures !InHeap(r.heap, e.cell) {
          if e in rest {
          } else {
            assert e == h[i];
            forall j | 0 <= j < |r.heap| ensures r.heap[j].cell != e.cell {
              assert r.heap[j] in multiset(r.heap);
              assert r.heap[j] in rest;
            }
          }
        }
      } else {
        forall e | e in h && e !in rest ensures !InHeap(rest, e.cell) {
          assert e == h[i];
        }
      }
    }
  }

  lemma PopEntry(h: Heap, i: nat, rest: Heap)
    requires i < |h| && rest == RemoveAt(h, i)
    ensures forall e :: e in h <==> e in rest || e == h[i]
    ensures Unique(h) ==> Unique(rest) && !InHeap(rest, h[i].cell)
  {
    assert forall e :: e in h <==> e in multiset(h);
    if Unique(h) {
      forall a, b | 0 <= a < b < |rest| ensures rest[a].cell != rest[b].cell {
        var a' := if a < i then a else a + 1;
        var b' := if b < i then b else b + 1;
        assert rest[a] == h[a'] && rest[b] == h[b'];
      }
      forall j | 0 <= j < |rest| ensures rest[j].cell != h[i].cell {
        var j' := if j < i then j else j + 1;
        assert rest[j] == h[j'];
      }
    }
  }

  /** Pops come off in key order: with nothing inserted in between, the
      next pop's key is no smaller. */
  lemma PopsAscend(h: Heap, key: real, accept: Path -> bool)
    requires PopWhere(h, key, accept).cell.Some?
    ensures PopWhere(PopWhere(h, key, accept).heap, PopWhere(h, key, accept).key, accept).key
      >= PopWhere(h, key, accept).key
  {
    var r := PopWhere(h, key, accept);
    PopWhereSpec(h, key, accept);
    PopWhereSpec(r.heap, r.key, accept);
  }

  /** remove_top_coarse: the refinement candidates whose cell is no longer
      a leaf are dropped. */
  function RemoveTopCoarse(h: Heap, key: real, t: Cell): (r: Popped)
    ensures r.cell.None? || IsLeafAt(t, r.cell.value)
  {
    PopWhere(h, key, y => IsLeafAt(t, y))
  }

  /** The coarsening candidates remove_top_fine keeps: live cells one level
      shallower than the deepest cell below them. */
  predicate FineCandidate(t: Cell, y: Path)
  {
    Live(t, y) && Depth(Get(t, y).value, |y|) == |y| + 1
  }

  /** remove_top_fine: the coarsening candidates whose depth below them is
      no longer one are dropped. */
  function RemoveTopFine(h: Heap, key: real, t: Cell): (r: Popped)
    ensures r.cell.None? || (Live(t, r.cell.value) &&
      Depth(Get(t, r.cell.value).value, |r.cell.value|) == |r.cell.value| + 1)
  {
    PopWhere(h, key, y => FineCandidate(t, y))
  }

  /** In a tree without emptied octs, a cell is one level shallower than
      the deepest cell below it exactly when it has children and all of
      them are leaves. */
  lemma FineCandidateShape(t: Cell, y: Path)
    requires NoEmptyOct(t) && Live(t, y)
    ensures FineCandidate(t, y) <==>
      IsNodeAt(t, y) && forall n: ChildIx :: Live(t, y + [n]) ==> IsLeafAt(t, y + [n])
  {
    var x := Get(t, y).value;
    NoEmptyOctBelow(t, y);
    if x.Node? {
      forall n: ChildIx ensures Get(t, y + [n]) == Slot(x, n) {
        GetSnoc(t, y, n);
      }
      DepthOneBelow(x, |y|);
    }
  }

  lemma NoEmptyOctBelow(t: Cell, y: Path)
    requires NoEmptyOct(t) && Live(t, y)
    ensures NoEmptyOct(Get(t, y).value)
    decreases |y|
  {
    if y != [] {
      NoEmptyOctBelow(Slot(t, y[0]).value, y[1..]);
    }
  }

  lemma DepthOneBelow(x: Cell, L: nat)
    requires x.Node? && NoEmptyOct(x)
    ensures Depth(x, L) == L + 1 <==> forall n: ChildIx :: Slot(x, n).Some? ==> Slot(x, n).value.Leaf?
  {
    forall n: ChildIx ensures SlotDepth(Slot(x, n), L + 1) <= L + 1 <==>
      (Slot(x, n).Some? ==> Slot(x, n).value.Leaf?)
    {
      if Slot(x, n).Some? && Slot(x, n).value.Node? {
        SlotDeeper(x, n, L);
      }
    }
    assert SlotDepth(x.k0, L + 1) == SlotDepth(Slot(x, 0), L + 1);
    assert SlotDepth(x.k1, L + 1) == SlotDepth(Slot(x, 1), L + 1);
    assert SlotDepth(x.k2, L + 1) == SlotDepth(Slot(x, 2), L + 1);
    assert SlotDepth(x.k3, L + 1) == SlotDepth(Slot(x, 3), L + 1);
    assert x.k0.Some? || x.k1.Some? || x.k2.Some? || x.k3.Some?;
  }

  /** A child that has children of its own reaches two levels further. */
  lemma SlotDeeper(x: Cell, n: ChildIx, L: nat)
    requires x.Node? && NoEmptyOct(x) && Slot(x, n).Some? && Slot(x, n).value.Node?
    ensures SlotDepth(Slot(x, n), L + 1) >= L + 2
  {
    var k := Slot(x, n).value;
    assert SlotNoEmptyOct(Slot(x, n));
    assert SlotDepth(Slot(x, n), L + 1) == Depth(k, L + 1);
    assert Depth(k, L + 1) >= SlotDepth(k.k0, L + 2) && Depth(k, L + 1) >= SlotDepth(k.k1, L + 2) &&
      Depth(k, L + 1) >= SlotDepth(k.k2, L + 2) && Depth(k, L + 1) >= SlotDepth(k.k3, L + 2);
    assert k.k0.Some? || k.k1.Some? || k.k2.Some? || k.k3.Some?;
    if k.k0.Some? { DepthAtLeastLevel(k.k0.value, L + 2); }
    else if k.k1.Some? { DepthAtLeastLevel(k.k1.value, L + 2); }
    else if k.k2.Some? { DepthAtLeastLevel(k.k2.value, L + 2); }
    else { DepthAtLeastLevel(k.k3.value, L + 2); }
  }
}
