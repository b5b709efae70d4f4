# Virtualized list: a Dafny model of `RootViewController.updateVisibleCells`

The Auto Layout list demo shows 100 items in a vertical stack inside a scroll
view. It keeps a view only for the items on screen. `RootViewController`
holds:

- a size cache `cachedSizes` with one height per item, starting from a
  deliberately wrong estimate of 25;
- a dictionary `visibleCells` from item index to the cell view attached to it;
- a `pool` of detached cells kept for reuse;
- a scroll anchor `visualOffset`, which pairs an item index with the
  distance from that item's top to the viewport top.

Each layout pass (`updateVisibleCells`) does five things in order:

1. It copies the measured height of every attached cell into the cache.
2. It scans the cache and collects the items whose extent meets the
   viewport. Each item is followed by the stack's 8-point spacing.
3. It diffs that run against the dictionary. Cells that left go to the pool.
   Each index that entered gets a pooled or new cell, at its rank in the run.
4. It sizes the spacers above and below the stack.
5. It applies the anchor, or records one from the first visible item. A user
   scroll drops the anchor before the pass.

The model has four files:

- `wrappers.dfy`: the `Option` type, standing in for Swift optionals.
- `layout.dfy` (module `Layout`): geometry, specified by functions, with
  lemmas about those functions.
  - `HeightSum` is the recursive sum of `size + 8`.
  - `CellTop`/`CellBottom` give an item's extent; `InWindow` says whether
    the scan selects an item.
  - `IsVisibleRun` specifies the scan's result.
  - `Refreshed` and `InvalidatedExactly` specify the cache refresh.
  - `Spacers` gives the two spacer heights; `ResolvedAnchor` gives the
    anchor step.
  - It also holds the two loops that only read the cache, as methods proved
    against those functions: `HeightSumOf` (the nested `heightSum`) and
    `SelectVisibleIndices` (the scan with its early `break`).
- `diff.dfy` (module `Diff`): the pure part of the diff.
  - `IndicesToInsert` is the `filter` of visible indices that have no cell.
  - `FirstIndexOf` is `firstIndex(of:)`.
  - `IsDiff` specifies what a pass reports as inserted and removed.
- `virtualized_list.dfy` (module `VirtualizedList`): the stateful part.
  - `Cell` is a class with its `id`.
  - `RootViewController` is a class that owns the cache array and the
    dictionary, pool, anchor, content offset and spacer fields, with
    `Valid()` as its invariant.
  - `UpdateVisibleCells` is composed of one method per step. Each step's
    `ensures` ties the new state to the specification functions above.

Two behaviours of the code shape the model:

- **An empty visible run traps.** `updateVisibleCells` force-unwraps
  `visibleIndices.first!` and `visibleIndices.last!` (ContentView.swift:196-197)
  and indexes `visibleIndices[0]` (:210). When the run is empty the pass stops
  there with a runtime trap. The model returns `trapped = true` at that point:
  the cache and the diff are already applied, and the spacers and anchor are
  untouched. `Layout.WindowEmptyInGap` shows a viewport that produces an empty
  run: one that lies inside an 8-point gap. With no items at all the run is
  empty too.
- **Measured heights are not clamped.** The code copies `cell.bounds.height`
  into the cache as it is (:147). The model takes any real height. The
  guarantees that need non-negative heights (contiguity, and the early
  `break` losing nothing) carry that as a hypothesis.

## Model

| member | source | states |
|---|---|---|
| Layout.HeightSumOf | AutoLayoutBasedVirtualizedList/AutoLayoutBasedVirtualizedList/ContentView.swift:188-194 | the accumulator loop returns `HeightSum`, the sum of `size + 8` over the range |
| Layout.HeightSumSplit | AutoLayoutBasedVirtualizedList/AutoLayoutBasedVirtualizedList/ContentView.swift:188-194 | the height of a range is the height of its two halves added |
| Layout.HeightSumFrame | AutoLayoutBasedVirtualizedList/AutoLayoutBasedVirtualizedList/ContentView.swift:188-194 | the height of a range depends only on the sizes inside it |
| Layout.HeightSumNonNegative | AutoLayoutBasedVirtualizedList/AutoLayoutBasedVirtualizedList/ContentView.swift:188-194 | with non-negative sizes every range height is non-negative |
| Layout.TopsIncrease | AutoLayoutBasedVirtualizedList/AutoLayoutBasedVirtualizedList/ContentView.swift:151-157 | with non-negative sizes, a later item starts at least one cell plus one gap below an earlier item's bottom |
| Layout.SelectVisibleIndices | AutoLayoutBasedVirtualizedList/AutoLayoutBasedVirtualizedList/ContentView.swift:150-166 | the scan's result is strictly increasing and within `[0, N)`; it holds `i` iff no earlier item starts below the viewport and `[cellTop, cellBottom]` meets `[top, bottom]`; with non-negative sizes it is a run of consecutive indices |
| Layout.WindowIsIntersection | AutoLayoutBasedVirtualizedList/AutoLayoutBasedVirtualizedList/ContentView.swift:159-165 | with non-negative sizes the early `break` loses no item: the scan selects `i` iff `cellBottom >= top && cellTop <= bottom` |
| Layout.WindowContiguous | AutoLayoutBasedVirtualizedList/AutoLayoutBasedVirtualizedList/ContentView.swift:150-166 | with non-negative sizes, every item between two selected items is selected |
| Layout.WindowRunIsConsecutive | AutoLayoutBasedVirtualizedList/AutoLayoutBasedVirtualizedList/ContentView.swift:150-166 | an increasing list of exactly the selected items steps by one |
| Layout.WindowEmptyInGap | AutoLayoutBasedVirtualizedList/AutoLayoutBasedVirtualizedList/ContentView.swift:159-166 | a viewport strictly inside the gap after an item selects no item, so the force-unwraps that follow trap |
| Layout.SameMembersSameRun | AutoLayoutBasedVirtualizedList/AutoLayoutBasedVirtualizedList/ContentView.swift:150-166 | two strictly increasing lists with the same members are equal |
| Layout.VisibleRunIsUnique | AutoLayoutBasedVirtualizedList/AutoLayoutBasedVirtualizedList/ContentView.swift:150-166 | the visible run is determined by the sizes and the viewport alone |
| Layout.UniformTops | AutoLayoutBasedVirtualizedList/AutoLayoutBasedVirtualizedList/ContentView.swift:151-157 | with every height equal to `c`, item `i` starts at `i * (c + 8)` |
| Layout.InitialWindow | AutoLayoutBasedVirtualizedList/AutoLayoutBasedVirtualizedList/ContentView.swift:115 | with the initial estimates of 25 and an 800-point viewport at the top, the window is items 0 to 24 |
| Layout.RefreshIsIdempotent | AutoLayoutBasedVirtualizedList/AutoLayoutBasedVirtualizedList/ContentView.swift:143-148 | refreshing again with the same measurements changes no entry and invalidates no index |
| Layout.SpacersAddUp | AutoLayoutBasedVirtualizedList/AutoLayoutBasedVirtualizedList/ContentView.swift:196-197 | top spacer, visible block and bottom spacer add up to the height of the whole list |
| Layout.AnchorRoundTrip | AutoLayoutBasedVirtualizedList/AutoLayoutBasedVirtualizedList/ContentView.swift:205-214 | an anchor recorded at an offset and applied with the same sizes gives that offset back |
| Layout.ResolveAnchorIsStable | AutoLayoutBasedVirtualizedList/AutoLayoutBasedVirtualizedList/ContentView.swift:205-214 | with unchanged sizes a second anchor step keeps the anchor and the offset the first produced, whichever item is first visible |
| Layout.AnchorIgnoresLaterSizes | AutoLayoutBasedVirtualizedList/AutoLayoutBasedVirtualizedList/ContentView.swift:205-208 | the offset an anchor `(k, off)` yields is unaffected by size changes at indices `>= k` |
| Diff.IndicesToInsert | AutoLayoutBasedVirtualizedList/AutoLayoutBasedVirtualizedList/ContentView.swift:168 | the filter keeps exactly the visible indices without a cell, and is no longer than its input |
| Diff.IndicesToInsertIncreasing | AutoLayoutBasedVirtualizedList/AutoLayoutBasedVirtualizedList/ContentView.swift:168-169 | the inserted indices come out in ascending order |
| Diff.NothingToInsert | AutoLayoutBasedVirtualizedList/AutoLayoutBasedVirtualizedList/ContentView.swift:168 | the filter is empty when every visible index already has a cell |
| Diff.RepeatInsertsAndRemovesNothing | AutoLayoutBasedVirtualizedList/AutoLayoutBasedVirtualizedList/ContentView.swift:168-178 | when the attached indices are exactly the visible ones, nothing is inserted and nothing is removed |
| Diff.RepeatedPassIsQuiet | AutoLayoutBasedVirtualizedList/AutoLayoutBasedVirtualizedList/ContentView.swift:150-178 | a pass with the same sizes and viewport as the previous pass reports no inserted and no removed index |
| Diff.FirstIndexOf | AutoLayoutBasedVirtualizedList/AutoLayoutBasedVirtualizedList/ContentView.swift:183 | the result is the first position holding the index |
| Diff.PositionIsRank | AutoLayoutBasedVirtualizedList/AutoLayoutBasedVirtualizedList/ContentView.swift:183-184 | in the ascending run, the position where a new cell is inserted has only smaller indices before it and only larger ones after it |
| VirtualizedList.Cell.constructor | AutoLayoutBasedVirtualizedList/AutoLayoutBasedVirtualizedList/ContentView.swift:12-13 | a new cell (`Cell()`, :123) shows no item yet: its `id` is nil |
| VirtualizedList.RepeatedPassReportsNoChanges | AutoLayoutBasedVirtualizedList/AutoLayoutBasedVirtualizedList/ContentView.swift:132-140 | the `Changes` record of a pass that repeats the previous pass's sizes, viewport and measurements is empty in the sense of `isEmtpy`: nothing invalidated, inserted or removed |
| VirtualizedList.Cell.Attach | AutoLayoutBasedVirtualizedList/AutoLayoutBasedVirtualizedList/ContentView.swift:61-64 | the cell now shows the given item |
| VirtualizedList.RootViewController.constructor | AutoLayoutBasedVirtualizedList/AutoLayoutBasedVirtualizedList/ContentView.swift:113-126 | 100 cache entries of 25, no attached cell, empty pool, no anchor |
| VirtualizedList.RootViewController.AttachedCellsAreDistinct | AutoLayoutBasedVirtualizedList/AutoLayoutBasedVirtualizedList/ContentView.swift:171-186 | under the invariant no cell is attached to two items |
| VirtualizedList.RootViewController.NextCell | AutoLayoutBasedVirtualizedList/AutoLayoutBasedVirtualizedList/ContentView.swift:119-124 | a non-empty pool gives up one of its cells, which leaves the pool; a new cell is allocated only when the pool is empty |
| VirtualizedList.RootViewController.RefreshSizeCache | AutoLayoutBasedVirtualizedList/AutoLayoutBasedVirtualizedList/ContentView.swift:143-148 | each attached index gets its measured height and every other entry is unchanged; the reported indices are exactly, once each, those whose cached height differed |
| VirtualizedList.RootViewController.RecycleRemoved | AutoLayoutBasedVirtualizedList/AutoLayoutBasedVirtualizedList/ContentView.swift:171-178 | the entries of indices that left the run are dropped, their cells join the pool, and the cells are conserved between pool and dictionary |
| VirtualizedList.RootViewController.AttachOne | AutoLayoutBasedVirtualizedList/AutoLayoutBasedVirtualizedList/ContentView.swift:181-185 | the next cell (pooled, or fresh when the pool is empty) is attached to the index and entered in the dictionary; the other pooled cells are untouched |
| VirtualizedList.RootViewController.AttachInserted | AutoLayoutBasedVirtualizedList/AutoLayoutBasedVirtualizedList/ContentView.swift:180-186 | every index to insert gets a cell showing it, existing entries are untouched, no cell is lost, the only new cells are fresh ones taken when the pool is empty, and cells left in the pool keep their `id` |
| VirtualizedList.RootViewController.ApplyDiff | AutoLayoutBasedVirtualizedList/AutoLayoutBasedVirtualizedList/ContentView.swift:168-186 | the dictionary's keys become the visible set, kept cells stay put, inserted is the new indices minus the old keys in ascending order, removed is the old keys minus the visible set, no cell is lost, and cells left in the pool keep their `id` |
| VirtualizedList.RootViewController.ApplySpacers | AutoLayoutBasedVirtualizedList/AutoLayoutBasedVirtualizedList/ContentView.swift:188-197 | the spacers are `heightSum(0..<first)` and `heightSum(last+1..<N)` |
| VirtualizedList.RootViewController.ResolveAnchor | AutoLayoutBasedVirtualizedList/AutoLayoutBasedVirtualizedList/ContentView.swift:205-214 | an anchor `(k, off)` moves the offset to `off + heightSum(0..<k)`; without one, `(first, offset - heightSum(0..<first))` is recorded and the offset stays |
| VirtualizedList.RootViewController.SizeSpacersAndAnchor | AutoLayoutBasedVirtualizedList/AutoLayoutBasedVirtualizedList/ContentView.swift:196-214 | an empty run traps before touching spacers or anchor; otherwise spacers and anchor are set as above |
| VirtualizedList.RootViewController.UpdateVisibleCells | AutoLayoutBasedVirtualizedList/AutoLayoutBasedVirtualizedList/ContentView.swift:128-215 | the whole pass keeps the invariant and composes refresh, scan at the starting viewport, diff, cell conservation, spacers and anchor; it traps exactly when the run is empty |
| VirtualizedList.RootViewController.ScrollViewDidScroll | AutoLayoutBasedVirtualizedList/AutoLayoutBasedVirtualizedList/ContentView.swift:236-241 | a user scroll clears the anchor, so the pass leaves the offset where the user put it and records a new anchor at the first visible item |

## Left out

- UIKit plumbing is not part of this model: the constraint setup in `configureHierarchy` and in `Cell` (`updateConstraints`, `init`), the `HackedView` responder-chain notification, and the wiring in `viewDidLoad` and `viewDidLayoutSubviews`.
- View attachment is not modelled: `removeArrangedSubview`, `removeFromSuperview` and `insertArrangedSubview`. The model keeps the resulting dictionary and pool, and computes the insertion position with `FirstIndexOf`.
- Measured heights are an input. They become the parameter `measured: int -> real`, keyed by item index. The timer-driven random resizing (`Size.step`, `acceptableSizes`) is nondeterministic and external, so it is left out. So is the `size` object a cell carries.
- The `print` logging is left out. `Changes.IsEmpty` models the `isEmtpy` check that guards it.
- The scroll view is reduced to two reals, `contentOffset` and `viewportHeight`. UIKit may call `scrollViewDidScroll` again when the anchor assigns the content offset; that re-entrant call is not modelled.
- Heights are exact reals. CGFloat rounding is not modelled, and the cache comparison is exact inequality.
- The bottom spacer sums up to `sizes.count`. The model uses the cache length, which is the same 100.
- DynamicKeyCommand/DynamicKeyCommand/ContentView.swift is not part of this model. It is key-command and text-view glue.
- VirtualizedList.RootViewController.UpdateVisibleCells: `removedIndices` is a set. The source appends to an array in dictionary iteration order, which is unspecified.
- VirtualizedList.RootViewController.RefreshSizeCache: the order of the invalidated indices is left open, because it follows dictionary iteration. The contract states membership and distinctness, not order.
- VirtualizedList.RootViewController.ScrollViewDidScroll: the contract restates only the visible run, the keys, the trap and the anchor. The cache, diff and spacer results are those of `UpdateVisibleCells`.
