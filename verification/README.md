# Gerris quadtree kernel, adaptation scheduler and output-name tokenizer

This project is a Dafny model of three pieces of the Gerris flow solver:

- **The fully threaded tree (FTT) kernel** of `src/ftt.c`, in its
  two-dimensional build (`FTT_2D`: four children per oct, four directions).
  A cell is `Leaf` or `Node(k0, k1, k2, k3)`. Each child slot is an
  `Option<Cell>`, and `None` stands for a destroyed child. A cell is named
  by its path of child indices from the root, so its level is the path's
  length. Its size is `1/2^level`, and its centre follows from the
  `coords` table of `ftt_cell_pos`. Neighbours are never stored: `Neighbor`
  is `ftt_cell_neighbor_not_cached`, computed from the tree. The model
  covers:
  - the constant tables;
  - neighbour search, face types, depth and relative level, and location;
  - `oct_new` with `ftt_cell_refine_single` and the predicate-driven
    `ftt_cell_refine`;
  - `ftt_cell_coarsen` and `ftt_cell_destroy`;
  - the traversal family with its iterator, and `ftt_refine_corner`;
  - the cells of each level as a square grid (column and row), on which
    the neighbour search is shown to find exactly the cell covering the
    square next to a cell, and `ftt_refine_corner` to answer TRUE for
    every finer diagonal node in a complete, balanced tree;
  - the flag stream of `ftt_cell_write` and `ftt_cell_read`, and
    `ftt_cell_copy`.
- **The adaptation scheduler** of `src/adaptive.c`. The model covers:
  - how the criteria combine;
  - the cost pass (`cell_coarse_init`, then `compute_cost` level by level
    from the deepest);
  - the two heaps. The refinement candidates go in `hcoarse`, keyed by
    minus their cost. The coarsening candidates go in `hfine`, keyed by
    their cost. The heaps are sequences of (key, cell) entries with a
    least-key pop;
  - the lazy pops, the coarsenability predicate and the cell-count
    bookkeeping of the callbacks;
  - the greedy loop of `gfs_simulation_adapt`, which coarsens and refines
    until neither rule fires.

  Criterion cost, minimum-level and maximum-level functions are parameters
  of the model. So are the "mixed" (cut-cell) and "boundary" tests of a
  cell.
- **The output file-name tokenizer** of `gfs_output_read` in `src/output.c`
  (lines 244-296), and `format_string`. The tokenizer splits a printf-like
  template into NONE (literal), PID, ITER and TIME segments, sets the
  dynamic flag, and rejects unknown conversions.

Modules: `Wrappers` (Option, Result), `Directions` (tables), `Tree`,
`Geometry`, `Neighbors`, `Grid`, `Traverse`, `Serialize`, `Refine`, `RefineExample`,
`Coarsen`, `Destroy`, `Copy`, `Criteria`, `Heaps`, `AdaptCosts`, `Adapt`,
`Format`.

## Model

| member | source | states |
|---|---|---|
| Directions.OppositeInvolution | src/ftt.c:32-37 | The opposite direction is an involution without fixed point. It stays on the same axis and reverses the unit step. |
| Directions.OppositePairs | src/ftt.c:32-37 | Opposite pairs right with left and top with bottom. |
| Directions.SiblingSymmetric | src/ftt.c:319-364 | When `neighbor_index[d][n] = m >= 0`, `neighbor_index[opposite(d)][m] = n`, and child m sits one child width from n along d. |
| Directions.OutsideMirror | src/ftt.c:319-364 | When the entry nn is negative, `-nn-1` is a child on the `opposite(d)` side and n is on side d. The opposite lookup from `-nn-1` names n back. The mirrored child's offset is one child width back along d, just across the face in the next oct. |
| Directions.NeighborIndexRange | src/ftt.c:319-364 | Every table entry is in [-4, 4) and never names the child itself. |
| Directions.BrotherMatchesNeighborIndex | src/ftt.c:454-473 | `b[n][d]` is true exactly when `neighbor_index[d][n] >= 0`. |
| Directions.ChildrenDirCharacterised | src/ftt.c:134-175 | The children on side d are exactly those whose d-neighbour lies outside the oct, and exactly those whose `coords` offset points along d. |
| Directions.ChildrenDirPartition | src/ftt.c:134-175 | The index sets for d and `opposite(d)` hold FTT_CELLS/2 distinct indices each, are disjoint and cover all children. |
| Directions.ChildCornerCharacterised | src/ftt.c:186-244 | Two parallel directions have no corner child (-1). For two perpendicular directions the corner child lies on both sides, in either argument order. |
| Directions.CornerVectorDiagonal | src/ftt.c:2104-2164 | The walk of `ftt_refine_corner` (one cell along i, back to near-side child j, one child along the perpendicular) ends three quarter-cells away along both axes. |
| Directions.PerpendicularCharacterised | src/ftt.c:2104-2164 | The `perpendicular[i][j]` direction is perpendicular to i, and the child it starts from lies on that side. |
| Tree.DepthIsDeepestLevel | src/ftt.c:1923-1942 | `ftt_cell_depth` bounds the level of every live cell below, and some live cell reaches it. |
| Tree.RelativeLevelIsShallowestLeaf | src/ftt.c:1322-1343 | The relative level is 0 exactly on a leaf, and no leaf below is closer. Absent emptied octs and within the G_MAXINT/2 cap, some leaf is exactly that far. An oct with all children destroyed gives G_MAXINT/2 + 1. |
| Geometry.LevelSizeIsPower | src/ftt.c:51-61 | The halving loop gives exactly 1/2^level. |
| Geometry.ChildrenVolume | src/ftt.c:82-94 | The root has volume 1, and four children have exactly their parent's volume. |
| Geometry.Locate | src/ftt.c:1882-1914 | A located cell is live and its box holds the target. It is a leaf or at max_depth, and never deeper than a non-negative max_depth. |
| Geometry.LocateSound | src/ftt.c:1882-1914 | For a search started at any live cell, a located cell lies in that cell's subtree, is live, holds the target, and is a leaf or at max_depth. From a start no deeper than a non-negative max_depth it is never deeper than max_depth. From a start below max_depth it is a leaf. |
| Geometry.LocateTotal | src/ftt.c:1882-1914 | In a tree without destroyed children, every point of the root's box (in its plane) is located. |
| Geometry.ChildCovers | src/ftt.c:786-804 | The four child boxes placed by `ftt_cell_pos` cover the parent's box. |
| Neighbors.Neighbor | src/ftt.c:319-364 | A found neighbour is a live cell other than the cell, no deeper than it. A shallower one is a leaf. |
| Neighbors.NeighborNotAncestor | src/ftt.c:319-364 | A neighbour is never an ancestor of the cell. |
| Neighbors.NeighborLocal | src/ftt.c:319-364 | The search depends only on the shape above the cell's level and on which cells of that level are live. |
| Neighbors.NeighborAdjacent | src/ftt.c:319-364 | A same-level neighbour in direction d is centred exactly one cell width away along d (tables agree with `ftt_cell_pos`). The converse and the NULL case are Grid.NeighborFindsAdjacent and Grid.NeighborNone. |
| Neighbors.NeighborSymmetric | src/ftt.c:319-364 | Same-level neighbours are mutual: from the d-neighbour, `opposite(d)` leads back. |
| Neighbors.FaceTypeOf | src/ftt.c:434-444 | BOUNDARY exactly without a neighbour. FINE_FINE exactly for a same-level neighbour. FINE_COARSE exactly for a shallower one, which is a leaf. |
| Neighbors.BrotherSharesParent | src/ftt.c:454-473 | For an existing neighbour, `ftt_cell_neighbor_is_brother` holds exactly when it shares the cell's parent (false for the root). |
| Neighbors.RefineCornerFindsFinerDiagonal | src/ftt.c:2104-2164 | When `ftt_refine_corner` answers TRUE, a cell with children, one level finer than the cell, meets it diagonally at a corner. |
| Grid.CoordsInjective | src/ftt.c:786-804 | Two cells of one level on the same grid square are the same cell. |
| Grid.PathAtCoords | src/ftt.c:786-804 | Every cell of level l lies on a square of the 2^l by 2^l grid, and the path rebuilt from that square is the cell's own path. |
| Grid.PosCoords | src/ftt.c:786-804 | The centre `ftt_cell_pos` gives a cell in column c and row r of level l lies (2c+1)/2^(l+1) from the root box's left side and (2r+1)/2^(l+1) from its bottom, in the root's plane. |
| Grid.AdjacentCoords | src/ftt.c:786-804 | Two cells of one level are centred one cell width apart along d exactly when their squares are one apart along d. |
| Grid.CoverNone | src/ftt.c:319-364 | No cell covers a square exactly when the square's own path is destroyed and every live cell above it has children. |
| Grid.AdjacentMirror | src/ftt.c:319-364 | The square next to a child across its oct's face is the mirrored child of the square next to the parent, and is outside the root exactly when the parent's is. |
| Grid.NeighborCovers | src/ftt.c:319-364 | The search finds exactly the cell covering the square next to the cell: nothing at the edge of the root, else the same-level cell there or the leaf above it, and nothing under a destroyed child. |
| Grid.NeighborFindsAdjacent | src/ftt.c:311-364 | A live cell of the same level centred one cell width along d is the neighbour the search returns. |
| Grid.NeighborNone | src/ftt.c:311-364 | The search returns NULL exactly when every same-level path centred one cell width along d is destroyed and all its live ancestors have children. |
| Grid.NeighborWithin | src/ftt.c:311-364 | A found neighbour is the same-level cell centred one width along d, or a leaf containing that cell's square. |
| Grid.CoverComplete | src/ftt.c:319-364 | In a tree without destroyed children every square is covered. |
| Grid.NodeNeighborLive | src/ftt.c:319-364 | In a complete tree where every face neighbour is at most one level coarser, the same-level square next to a cell with children, when inside the root, is a live cell. |
| Grid.DiagonalCoords | src/ftt.c:2104-2164 | A cell one level finer is centred three quarters of the cell's width away along both axes exactly when its column and its row are each two past or one before twice the cell's. |
| Grid.FinerDiagonalFindsCorner | src/ftt.c:2097-2164 | In a complete tree where every face neighbour is at most one level coarser, a leaf with a diagonal cell with children one level finer makes `ftt_refine_corner` answer TRUE. |
| Traverse.WalkMembers | src/ftt.c:1130-1313 | Each static walker calls back exactly on the live cells below its start that its mode selects: all, leaves, non-leaves, or the level. The max_depth pruning applies. A boundary walker also keeps only the children on side d. |
| Traverse.WalkOrdered | src/ftt.c:1130-1313 | No cell is called twice. Pre-order walkers call a cell before its descendants, post-order ones after. |
| Traverse.WalkCount | src/ftt.c:1130-1157 | An unbounded pre-order walk of everything calls back once per live cell. |
| Traverse.TraverseMembers | src/ftt.c:1359-1396 | `ftt_cell_traverse` and `ftt_cell_traverse_boundary` visit exactly the selected live cells in the start's subtree. Flags with neither LEAFS, NON_LEAFS nor LEVEL visit nothing. |
| Traverse.TraverseRules | src/ftt.c:1359-1396 | From the root: nothing deeper than a non-negative max_depth and no destroyed cell is visited. LEAFS visits exactly the live leaves within max_depth, LEVEL exactly the live cells at level max_depth, and ALL every live cell within max_depth. |
| Traverse.TraverseOrdered | src/ftt.c:1599-1640 | Both traversals (with or without a side) visit no cell twice. Pre-order visits ancestors first, post-order last. |
| Traverse.IteratorCells | src/ftt.c:2750-2768 | The traversal an iterator records holds exactly the selected live cells below the start, each once, ancestors first in pre-order and last in post-order. |
| Traverse.IteratorNew | src/ftt.c:2750-2768 | The iterator starts at its beginning and records exactly the traversal's cells, with no cell twice, and in the traversal's order: ancestors first in pre-order, last in post-order. |
| Traverse.IteratorNext | src/ftt.c:2778-2783 | Next returns the current cell, or NULL once all are returned, and moves the position on by one either way. |
| Traverse.IteratorRewind | src/ftt.c:2792-2797 | Rewind returns to the first recorded cell. |
| Traverse.DrainYieldsRest | src/ftt.c:2778-2783 | Calling next until NULL yields the recorded cells from the current position, in order. |
| Traverse.RewindRestarts | src/ftt.c:2792-2797 | After a rewind, draining yields the whole recorded traversal again. |
| Serialize.WriteSlot | src/ftt.c:1957-1985 | The first record carries the cell's index. Its leaf bit is set on a leaf, on a destroyed cell and at max_depth, and its destroyed bit on a destroyed cell. |
| Serialize.ReadSlot | src/ftt.c:1994-2025 | A successful read consumed a record carrying the expected index, so a mismatched index is an error. A destroyed record yields a destroyed slot. |
| Serialize.ReadKids | src/ftt.c:2027-2054 | Reading an oct yields a cell with children and leaves no more input than it was given. |
| Serialize.RoundTripSlot | src/ftt.c:1957-2054 | Reading back what was written rebuilds the same shape, destroyed slots included, cut at max_depth, and leaves any following input unread. |
| Serialize.RoundTrip | src/ftt.c:2075-2094 | The same round trip from the root. |
| Serialize.TruncateKeeps | src/ftt.c:1957-1985 | The tree read back keeps exactly the cells no deeper than max_depth (all cells for a negative max_depth). The cells at max_depth are leaves. |
| Refine.NeighborMonotone | src/ftt.c:476-517 | Refinement only makes neighbours finer. A missing neighbour stays missing, and a found one is replaced by itself or a descendant. |
| Refine.OctNewSpec | src/ftt.c:476-517 | Refining a leaf only grows the tree. Every oct attached on the way (init runs on its four children) is shallower than the cell, except the cell itself, last. The cell ends with four live leaf children. |
| Refine.OctNewLevelsNeighbors | src/ftt.c:476-517 | In a 2:1 balanced neighbourhood, after `oct_new` every neighbour of the refined cell is at its level (coarser neighbours refined first). |
| Refine.CoarserNeighborRefined | src/ftt.c:476-517 | Once a neighbour one level coarser has children, the neighbour becomes the mirrored child at the cell's own level. |
| Refine.RefineWhereSpec | src/ftt.c:606-629 | The octs attached on the predicate's account lie in the subtree. Any leaf there that the predicate still accepts is a child of an oct attached by a neighbour cascade. |
| Refine.RefineWhereRefinesLeaves | src/ftt.c:606-629 | Every leaf of the subtree that exists at the start and is accepted by the predicate ends up with children. |
| RefineExample.CascadedLeafUntested | src/ftt.c:606-629 | A concrete tree where a leaf made by a neighbour cascade, onto a cell the walk has already passed, satisfies the predicate but stays a leaf. "No accepted leaf remains" does not hold in general. |
| Coarsen.CoarsenSpec | src/ftt.c:2654-2713 | Coarsening only removes cells, each after one cleanup call and only if the predicate accepts it. Nothing at or above the cell's level changes except the cell itself. A leaf, or a destroyed child of a live oct (which has no children, so C takes it for a leaf), gives the predicate's value and no change. On a node it returns true exactly when the cell ends a leaf, which needs the predicate at the cell. |
| Coarsen.CoarsenRemovesSubtree | src/ftt.c:2654-2713 | On success the whole subtree below is gone, each cell cleaned up and accepted by the predicate. |
| Coarsen.KidsSpec | src/ftt.c:2669-2673 | The children loop keeps the shape above the children's level. When it returns true, every live child is a leaf the predicate accepts. Changes made by a failed child stay. |
| Coarsen.NeighborsSpec | src/ftt.c:2677-2701 | The neighbour loop keeps the shape above the children's level. When it returns true, no child on any side faces a neighbour that still has live children facing it. |
| Destroy.DestroyTrivial | src/ftt.c:1667-1723 | Destroying a destroyed cell does nothing. Destroying the root frees the tree after one cleanup per live cell. |
| Destroy.DestroyCleans | src/ftt.c:1667-1723 | Cleanup runs once on every live cell of the subtree, on the cell first and on each cell before its descendants. The count drops by their number. |
| Destroy.DestroyShape | src/ftt.c:1710-1722 | The subtree is gone and nothing else changes except the parent. The parent becomes a leaf exactly when the cell was its last live child. |
| Destroy.DestroyUnlinksNeighbors | src/ftt.c:1690-1708 | A same-level neighbour no longer finds the destroyed cell in the opposite direction. |
| Copy.CopySpec | src/ftt.c:2166-2188 | The copy has the original's shape, destroyed slots included. The callback runs in pre-order on each live cell. |
| Copy.CopyTree | src/ftt.c:2200-2216 | Copying a whole tree gives the tree back. The callback runs once per live cell, each before its descendants. |
| Criteria.RefineCostInactive | src/adaptive.c:720-734 | An inactive criterion or one without a cost function changes no refine cost, wherever it stands. The cost of a list is the sum over its parts. |
| Criteria.NoActiveNoCost | src/adaptive.c:720-734 | With no active criterion the refine cost is 0. |
| Criteria.RefineCostLoop | src/adaptive.c:720-734 | The accumulation loop returns the weighted cost sum over the active criteria with a cost function. |
| Criteria.MinLevel | src/adaptive.c:775-789 | The effective minlevel is the maximum over active criteria, attained by one of them, or 0 when none is active. |
| Criteria.MaxLevel | src/adaptive.c:791-805 | The effective maxlevel is the minimum over active criteria, attained by one of them, or G_MAXINT when none is active. |
| Criteria.GlobalBounds | src/adaptive.c:890-903 | Activity holds exactly when some criterion is active. mincells is the largest over active criteria (else 0). maxcells is the smallest (else G_MAXINT). |
| Criteria.GlobalCmax | src/adaptive.c:890-903 | The global cmax is the sum of the active criteria's cmax. |
| Heaps.Insert | src/adaptive.c:807-822 | Insertion adds exactly one entry, and keeps one entry per cell when the cell was absent. |
| Heaps.EvictSpec | src/adaptive.c:837-849 | Removing a cell's entry leaves it without one, is a no-op when it had none, and keeps one entry per cell. |
| Heaps.PopWhereSpec | src/adaptive.c:686-712 | The popped entry has the least key of what remains. Every entry taken off before it failed the filter. An exhausted heap is empty, and an empty heap leaves the key unwritten. |
| Heaps.PopWhereMarkers | src/adaptive.c:686-712 | Every entry taken off has its marker reset: no popped cell still has an entry. |
| Heaps.PopsAscend | src/adaptive.c:686-712 | With nothing inserted in between, successive pops come off in non-decreasing key order. |
| Heaps.RemoveTopCoarse | src/adaptive.c:686-698 | `remove_top_coarse` returns NULL or a leaf. |
| Heaps.RemoveTopFine | src/adaptive.c:700-712 | `remove_top_fine` returns NULL or a live cell whose depth is exactly its level + 1. |
| Heaps.FineCandidateShape | src/adaptive.c:700-712 | Without emptied octs, depth = level + 1 holds exactly for a cell with children that are all leaves. |
| AdaptCosts.CoarseInitSpec | src/adaptive.c:714-718 | After the post-order pass over non-leaves, every cell with children costs 0 and other costs are kept. |
| AdaptCosts.ChildMax | src/adaptive.c:736-768 | The children maximum bounds every live child's cost. It is attained by one of them or is 0, and it is never negative. |
| AdaptCosts.RaiseRaises | src/adaptive.c:736-768 | The neighbour loop only raises costs, and only to the children maximum. |
| AdaptCosts.RaiseReaches | src/adaptive.c:736-768 | After the loop, each same-level neighbour's parent costs at least the children maximum. |
| AdaptCosts.RaiseKeeps | src/adaptive.c:736-768 | The loop changes no cost except those of the parents it visits. |
| AdaptCosts.ComputeCostSpec | src/adaptive.c:736-768 | Mixed cells are skipped. A leaf's cost becomes its refine cost and nothing else changes. A node's cost is raised, never lowered, to at least its refine cost and each child's cost. Each same-level neighbour's parent is raised to at least each child's cost, and no other cost changes. |
| AdaptCosts.CostOrderSpec | src/adaptive.c:927-930 | The level traversals from l down to 0 visit each live cell of level at most l exactly once. |
| AdaptCosts.CostOrderCoversTree | src/adaptive.c:927-930 | Started at the tree's depth, the pass visits every live cell once, so the counter nc ends at the number of cells. |
| AdaptCosts.FillHeapsSpec | src/adaptive.c:807-822 | A non-mixed leaf is a refinement candidate keyed by minus its cost exactly when its level is below its maxlevel. A non-mixed parent is a coarsening candidate keyed by its cost, entered once, exactly when one of its non-mixed leaves is deeper than the parent's minlevel. |
| AdaptCosts.FillTreeHeaps | src/adaptive.c:935-940 | The same, over the leaf traversal of a whole tree. |
| Adapt.CleanupAllSpec | src/adaptive.c:837-849 | Cleanups lower nc by the number of non-boundary cells dropped. Exactly those cells leave both heaps. |
| Adapt.InitAllSpec | src/adaptive.c:851-857 | Each new oct under a non-boundary cell adds 4 to nc. Every new child costs G_MAXDOUBLE, and no other cost changes. |
| Adapt.CoarsenStepSpec | src/adaptive.c:951-966 | A coarsening step only removes cells, each of which passed `fine_cell_coarsenable`. nc never grows. Without boundary cells it drops by exactly the number of cells removed. |
| Adapt.RefineStepShape | src/adaptive.c:967-982 | A refinement step only adds cells, none deeper than one level below the candidate, so the tracked depth update bounds the tree. |
| Adapt.RefineStepCount | src/adaptive.c:967-982 | nc never drops. Without boundary cells it grows by exactly the number of cells added. |
| Adapt.CoarsenRoundBooks | src/adaptive.c:951-966 | A coarsening round keeps the books: nc equals the start value minus the removed statistics (each `n - nc`) plus the created ones, all non-negative. Without boundary cells nc is the cell count, and the tracked depth bounds the tree. |
| Adapt.RefineRoundDead | src/adaptive.c:967-982 | A refinement candidate the coarsening earlier in the round dropped is not refined: the tree and nc stay as they are, the created statistic records 0, and the next candidate is popped. |
| Adapt.RefineRoundBooks | src/adaptive.c:967-982 | A refinement round keeps the same books, with created statistic `nc - n`. |
| Adapt.AdaptLoop | src/adaptive.c:946-983 | The loop ends with neither decision rule firing on the candidates on hand. nc has moved exactly by the recorded statistics, every statistic is non-negative, and without boundary cells nc is the cell count. |
| Adapt.SimulationAdapt | src/adaptive.c:872-990 | With no active criterion nothing changes. Otherwise nc starts at the cell count, and the loop ends settled with the books kept. |
| Format.FirstPercentFirst | src/output.c:244-247 | The literal before a conversion ends at the first '%', and no '%' precedes it. |
| Format.ConversionEndFirst | src/output.c:255-260 | A conversion ends at the first character of "diouxXeEfFgGaAcsCSpn%" after its '%', or at the end of the template. |
| Format.ScanConversion | src/output.c:247-261 | The scanning loop stops at that first conversion-ending character, with `prev` the character before it. |
| Format.ReadFormat | src/output.c:234-296 | "stderr" and "stdout" name the standard streams. Any other template is tokenized with the dynamic flag reset. It is rejected exactly when tokenizing fails, which is exactly when it is outside the template grammar. |
| Format.NextShape | src/output.c:246-291 | One round emits only well-formed segments. A NONE segment is "%" or non-empty text without '%'. A conversion segment is '%', then characters that end no conversion, then its last character: ITER an integer conversion after 'l', PID one without, TIME a float conversion. The round sets dynamic exactly when it emits ITER or TIME. A failure names a character that ends none of these. |
| Format.TokenizeShape | src/output.c:244-296 | Every segment is well formed, so each conversion stops at its first conversion-ending character. dynamic holds exactly when it held before or some segment is ITER or TIME. An error names a specifier that ends no known conversion. |
| Format.TokenizeAccepts | src/output.c:244-296 | The tokenizer succeeds exactly on the template grammar: text without '%', then the end or a conversion whose first conversion-ending character is '%' or an integer or float conversion, then another template. It fails exactly when a conversion ends in another character or runs to the end. |
| Format.TokenizeRoundTrip | src/output.c:244-296 | The segments keep template order. Without a '%'-ended conversion their texts concatenate back to the template; with one, the text is shorter. |
| Format.TokenizeLength | src/output.c:244-296 | The segment texts together are never longer than the template. |
| Format.FormatLiterals | src/output.c:67-106 | Over NONE segments only, `format_string` returns their concatenation, whatever the pid, iteration, time or printf. |
| Format.PlainTemplate | src/output.c:244-296 | A template without '%' gives one NONE segment (none if empty) and a static name that is the template itself. |

## Left out

- Three-dimensional and `FTT_2D3` builds, and the OOGL drawing routines: only the quadtree build is modelled.
- Cached neighbour arrays, `set_neighbors` in `ftt_cell_read`, and the root's own neighbour array. Neighbours are always computed from the tree. The root is a standalone `ftt_cell_new` root with no neighbours; the multi-root domain and `gfs_domain_match` are not modelled.
- Cell flags other than the destroyed and leaf bits: the child index in the flags is the path's last element. The values `FTT_FLAG_LEAF`, `FTT_FLAG_DESTROYED` and the traverse flags of `ftt.h` are not part of this model, so flags are modelled as named booleans.
- Refine.OctNewSpec: oct_new re-reads each neighbour from the current tree, while the C code reads the neighbour array taken before its loop. The two agree when the tree is 2:1 balanced. The "neighbours at the parent's level" property is stated only under that balance precondition.
- Refine.RefineWhereSpec: weaker than "no accepted leaf remains", because that property is false for some leaves created by a neighbour cascade (see RefineExample.CascadedLeafUntested). The predicate is taken as false from a level limit on, so the recursion is bounded. Without such a bound the C recursion does not end for a predicate that accepts every leaf.
- Coarsen.CoarsenSpec: the recursion bound D is a depth bound (`Tree` depth + 1 always works, `Coarsen.DepthShallow`). It is a proof device, not a restriction of the source. A path below a destroyed cell or a leaf names no cell at all, so C has no counterpart for it; the model returns false there.
- Grid.FinerDiagonalFindsCorner: the converse of Neighbors.RefineCornerFindsFinerDiagonal is stated only for trees with no destroyed child and with every face neighbour at most one level coarser. Other trees are outside its contract.
- Traverse.WalkMembers: callbacks are taken not to modify the tree. The same holds for Traverse.TraverseRules and the other traversal members. In C a callback that refines the visited cell in a pre-order walk has its new children walked, and one that destroys the oct trips the assertion after the call.
- Destroy.DestroyUnlinksNeighbors: stated only while the parent oct survives. A freed last-sibling oct is left to the next neighbour search. Freeing the root cell's memory is modelled as the tree becoming `None`.
- Adapt.RefineStep: models `ftt_cell_refine_single` only. `ftt_cell_refine_corners` (called at src/adaptive.c:970) lives in ftt_internal.c, which is not part of this model.
- The corner-refinement pass after the loop (src/adaptive.c:995-999), `gfs_set_merged`, the boundary conditions, `store_cost`, the timers, the DEBUG prints and the statistics ranges' other fields are left out. They are solver I/O or call code outside the core.
- Criterion cost functions, minimum and maximum levels, the mixed and boundary tests, and `gfs_cell_fine_init`/`gfs_cell_cleanup`/`gfs_cell_coarse_init` are parameters or left out. Costs are exact reals, with no double rounding and no double-to-guint conversion in minlevel/maxlevel.
- Heaps.PopWhereSpec: `gts_eheap` is modelled as a sequence with a least-key pop that takes ties in insertion order. GTS's own tie-breaking is not part of this model, and freezing or thawing the heap changes nothing.
- Adapt.RefineRound: the candidate `coarse` can be dropped by a coarsening that runs before it is refined. This needs `ftt_cell_coarsen` to cascade through a neighbour's neighbour (src/ftt.c:2677-2701) onto the oct holding `coarse`, and `coarse` to pass `fine_cell_coarsenable` (a boundary cell, or a cost below cmax). If the refinement rule then fires, C calls `ftt_cell_level` and `ftt_cell_refine_single` on the freed cell (src/adaptive.c:969-972). The model refines nothing in that case and keeps the books (Adapt.RefineRoundDead). Whether the C configuration is reachable is not decided here.
- Adapt.SimulationAdapt: the cell counter and the comparisons with mincells and maxcells use unbounded integers. The C code mixes `guint` and `gint`, which only matters past 2^31 cells.
- Serialize.RoundTrip: the user read and write hooks and the text layout of the stream (numbers, newlines) are left out. A read error gives an error value, not the partial tree that `ftt_cell_read` returns.
- Format.ReadFormat: `gfs_char_in_string` is not part of this model. It is taken to be plain membership, so a template that ends inside a conversion is rejected. The template is taken to contain no '\0' character: the C string ends at the first one, while a model string may hold it.
- Format.FormatLiterals: `format_string` is stated for NONE segments only. PID, ITER and TIME segments go through printf, which is a parameter. The initial file name computation and the file opening after line 296 are I/O.
- `gfs_output_read`'s GTS token handling and `output_free` are left out: an error just yields no result.

## Findings

No source defect is claimed. The function comment of `ftt_cell_refine` (src/ftt.c:600-604) says that new refined cells are themselves recursively refined. The code does this for the children of each cell it refines. It also reads each child again from the current tree before recursing, and recurses into any child that has become a node (src/ftt.c:618-628). So an oct that the 2:1 balancing cascade of `oct_new` attaches to a cell the walk has not reached yet is walked, and its leaves are tested. Only the leaves of cascade octs on cells the walk has already passed, or outside the start cell's subtree, go untested. RefineExample.CascadedLeafUntested exhibits such a leaf, and Refine.RefineWhereSpec states the behaviour as written. Whether the comment's "new refined cells" is meant to include those octs cannot be decided from the source, so this is recorded as a property of the code rather than as a defect.
