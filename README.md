# virtualized: position managers, overscan and pooled rendering

This project models the core of the `virtualized` Vue library in Dafny. The library renders
long lists and large grids by drawing only the cells near the viewport.

- **Position manager** (`src/helpers.ts`). It keeps a lazily extended table of cell offsets and
  sizes: a sparse `store` plus the cursors `lastMeasuredIndex` and `lastDeferredIndex`. `get`
  extends the table cell by cell from a size getter (an estimate when the getter has no
  size). `unset` rewinds the cursors. `size` sums the measured cells and estimates the rest.
  `find` clamps an offset, binary-searches the first visible cell and walks forward until the
  viewport is covered.
- **Scaling wrapper** (`createScalingPositionManager`). It delegates to that manager and never
  reports scaled offsets.
- **Measure cache**. A keyed size store with a fallback size.
- **`overScanRange`**. Pads a visible range by the scroll direction.
- **List component** (`abstract-list.ts`): the fixed prefix and suffix segmentation in
  `renderItems`, the item keys of `renderItemsRange`, the keep-alive pool size of `render`,
  the pending-render flag and the `itemsCount` and `scrollOffset` watchers.
- **Grid component** (`abstract-grid.ts`): the per-axis scroll state machine of
  `computeScrollPosition` and `onScroll`, the single-slot frame coalescing of
  `forceRenderInNextFrame`, `computePoolSize`, `saveCurrentScrollState`, the pooled cell keys
  of `renderGridCells`, `render`, `scrollTo` and the count watchers.

## How the model is built

Each stateful object is modelled twice:

- as a **value**: a `Table` datatype with pure functions `Lookup`, `Scan`, `UnsetTable`,
  `Search`, `Walk` and `FindRange`; the list and grid renders as functions over tables;
- as a **class** whose methods update fields in place: `PositionManager`,
  `ScalingPositionManager`, `MeasureCache`, `AbstractList` and `AbstractGrid`.

Every method's `ensures` ties its result and new state to the value-level function applied to
the old state. Examples:

- `(r, Snapshot()) == Lookup(old(Snapshot()), …)`;
- `(r, rows.Snapshot(), columns.Snapshot()) == RenderRows(…)`.

The source's promises are then proved as lemmas about those functions.

The loops of the source keep their form as `while` loops with invariants:

- `get` (module `PositionManagers`, method `Rescan`);
- `binarySearch`, and the end walk of `find`;
- `renderItemsRange`, and the segments of `renderItems`;
- both loops of `renderGridCells`.

`get` throws on an index outside `0..count - 1`. In the model it returns `Err`, and every
render that calls it passes the error on.

The position invariant, `PositionTables.Exact`, says the table holds, for every cell up to the
higher cursor, the prefix sum of the sizes the getter gives now. `get`, `unset` and `find`
preserve it. `configure` of a new estimate or getter can break it, as in the source. The
properties of `find` and `binarySearch` are proved for tables that satisfy it.

### Behaviours of the code worth knowing

- **`find` stops as soon as the viewport end is reached.** On a fresh manager of 1000 cells
  of 30 pixels, `find(150, 300)` returns `{5, 14}`: the walk stops once the covered offset
  reaches 450, the end of cell 14. See `PositionScenarios.FreshFind`.
- **Ties in `binarySearch`.** When several cells start at the target offset, the code returns
  whichever probed middle matches first, not necessarily the lowest index.
  `PositionProperties.SearchHolds` states only what the code guarantees.
- **Entries below `lastMeasuredIndex`.** They are not always measured sums. The code keeps
  earlier estimated (deferred) entries below `lastMeasuredIndex` until the next `unset`
  rewinds over them, and `get` returns such an entry as stored.
- **Zero counts.** `configure` and the `itemsCount` watcher ignore a new count of 0, because
  the test is for truthiness.
- **Direction conventions.** The grid calls a move to a smaller offset FORWARD. The list calls
  a move to a larger offset FORWARD. Each is modelled as written.

## Model

| member | source | states |
|---|---|---|
| OverScan.OverScanRange | src/helpers.ts:8-23 | result within `0..total-1`; FORWARD pads 1 behind and `overScanCount` ahead, REVERSE the other way, each end either clamped or exactly padded; contains the input when the input fits and the count is not negative |
| OverScan.ReverseMirrorsForward | src/helpers.ts:14-20 | REVERSE padding is FORWARD padding of the mirrored range, mirrored back |
| MeasureCaches.RowColumnKey | src/helpers.ts:47 | the default key keeps row and column, so distinct cells have distinct keys |
| MeasureCaches.MeasureCache.constructor | src/helpers.ts:50-54 | empty store; fallback size is the given height and width, or 30 and 100 |
| MeasureCaches.MeasureCache.Has | src/helpers.ts:56-58 | true exactly when a size is stored under the cell's key |
| MeasureCaches.MeasureCache.Get | src/helpers.ts:59-61 | the stored size when the key is present, else the fallback |
| MeasureCaches.MeasureCache.Is | src/helpers.ts:65-71 | false without a size; otherwise true iff width and height equal `get` |
| MeasureCaches.MeasureCache.Set | src/helpers.ts:62-64 | only this key changes; afterwards `has` holds and `get` returns the size; `has` and `get` of every cell with another key are unchanged |
| MeasureCaches.MeasureCache.Remove | src/helpers.ts:72-74 | only this key is removed; afterwards `has` fails and `get` is the fallback; `has` and `get` of every cell with another key are unchanged |
| MeasureCaches.UnmeasuredIsFallback | src/helpers.ts:65-71 | `is` is true for an absent cell compared with the fallback size |
| PositionTables.ScanStep | src/helpers.ts:163-181 | one loop step of `get` stores the getter's size (or the estimate) at the running offset and advances the offset by it |
| PositionTables.Scan | src/helpers.ts:162-182 | the loop of `get` stores the requested index |
| PositionTables.ScanWrites | src/helpers.ts:162-182 | every cell the loop visits is stored with its size, the first at the start offset and each after its predecessor's end |
| PositionTables.ScanFrame | src/helpers.ts:162-182 | cells outside the visited indices are untouched |
| PositionTables.ScanCursors | src/helpers.ts:162-182 | a measured cell advances `lastMeasuredIndex`, an unmeasured one `lastDeferredIndex`; each cursor is unchanged or points at such a cell; the last index sets the matching cursor |
| PositionTables.ScanUnmeasuredTail | src/helpers.ts:162-182 | visited cells after the new `lastMeasuredIndex` have no measured size |
| PositionTables.ScanPlaced | src/helpers.ts:155-184 | a rescan up to `index` leaves the store readable up to `index` and back to back from 0 |
| PositionTables.Lookup | src/helpers.ts:150-187 | throws exactly outside `0..count-1`, changing nothing; otherwise returns the stored cell, extends the table to the index and keeps it back to back |
| PositionTables.UnsetTableAsWritten | src/helpers.ts:140-149 | the source's `unset`: deletes only the index and sets both cursors to `min(index - 1, lastMeasuredIndex)`, which is below -1 for a negative index |
| PositionTables.UnsetTable | src/helpers.ts:140-149 | deletes only the index, rewinds both cursors to before it (never below -1), keeps the table back to back, and equals the source's update for every index ≥ 0 on a table whose cursor is at least -1 |
| PositionTables.LastMeasuredCell | src/helpers.ts:124-130 | `{0,0}` while `lastMeasuredIndex` is negative, else the stored cell at it; `PositionProperties.LastMeasuredCellExact` places it |
| PositionTables.TotalSize | src/helpers.ts:116-123 | the end of the last measured cell plus the estimate for each later cell; `PositionProperties.TotalSizeExact` proves it the prefix sum |
| PositionTables.Search | src/helpers.ts:214-233 | the result lies in `max(0, low-1)..high`, and is `max(0, low-1)` for an empty range |
| PositionTables.Probe | src/helpers.ts:215-225 | one probe of the search stays within `max(0, low-1)..high` |
| PositionTables.NearestCell | src/helpers.ts:210-212 | the start cell is an index of the manager when the count is positive |
| PositionTables.Walk | src/helpers.ts:199-204 | the end walk never moves back and stays below `count` |
| PositionTables.Advance | src/helpers.ts:200-204 | one walk step stays below `count` |
| PositionTables.ClampedOffset | src/helpers.ts:191 | the clamped offset is at most `size - viewport`, and is that bound or `max(0, offset)` |
| PositionTables.FindStart | src/helpers.ts:193 | the start of `find` is an index of the manager when the count is positive |
| PositionTables.FindFrom | src/helpers.ts:194-206 | succeeds iff the start is below `count`, and then `start ≤ end < count` |
| PositionTables.FindRange | src/helpers.ts:188-207 | `{0,0}` with nothing changed when `size` is 0; otherwise throws iff `count ≤ 0`, else `0 ≤ start ≤ end < count` |
| PositionProperties.ExactEntry | src/helpers.ts:160-181 | in an exact table each stored cell sits at the prefix sum of the sizes before it |
| PositionProperties.EmptyTableExact | src/helpers.ts:107-109 | a fresh manager satisfies the position invariant |
| PositionProperties.MeasuredEndExact | src/helpers.ts:159-160 | the end of `lastMeasuredCell` is the prefix sum up to `lastMeasuredIndex` |
| PositionProperties.LookupExact | src/helpers.ts:150-187 | `get` keeps the invariant, returns the cell's prefix-sum position, and leaves all earlier cells unchanged |
| PositionProperties.LookupCanonical | src/helpers.ts:150-187 | `get` of a valid index returns the prefix-sum position and keeps the invariant |
| PositionProperties.RescanUnmeasured | src/helpers.ts:155-183 | rescanning estimated cells the getter still cannot size stores the same cells again and only moves `lastDeferredIndex` |
| PositionProperties.LookupIdempotent | src/helpers.ts:150-187 | repeating `get(i)` returns the same result and leaves the table as the first call left it |
| PositionProperties.UnsetRestoresExact | src/helpers.ts:140-149 | after `unset(i)` the table is exact for any getter that agrees on the cells below `i` |
| PositionProperties.UnsetRecomputes | src/helpers.ts:140-187 | after `unset(i)`, `get(j)` for `j ≥ i` returns the size the getter gives now |
| PositionProperties.TotalSizeExact | src/helpers.ts:116-123 | `size` is the measured prefix sum plus `(count - lastMeasuredIndex - 1) * estimatedCellSize` |
| PositionProperties.LastMeasuredCellExact | src/helpers.ts:124-130 | `lastMeasuredCell` is the prefix-sum position of the last measured cell |
| PositionProperties.SearchCanonical | src/helpers.ts:214-233 | on an exact table the search returns what it returns on the prefix sums, and keeps the invariant |
| PositionProperties.ProbeCanonical | src/helpers.ts:215-225 | the same for one probe of the search |
| PositionProperties.CanonicalSearchHolds | src/helpers.ts:214-233 | on prefix sums the search returns a cell starting at or before the target, and either exactly at it, the last cell, or followed by a cell starting after it |
| PositionProperties.SearchHolds | src/helpers.ts:210-233 | `binarySearch` on an exact table returns such a cell |
| PositionProperties.WalkCanonical | src/helpers.ts:199-204 | on an exact table the end walk returns what it returns on the prefix sums, keeping the invariant |
| PositionProperties.AdvanceCanonical | src/helpers.ts:200-204 | the same for one step of the walk |
| PositionProperties.CanonicalWalkCovers | src/helpers.ts:196-204 | the walk ends at the last cell or at the first cell whose end reaches `maxOffset`, and every cell it passed starts before `maxOffset` |
| PositionProperties.WalkCovers | src/helpers.ts:196-204 | the end walk on an exact table has that property |
| PositionProperties.FindStartHolds | src/helpers.ts:191-193 | the start cell of `find` contains the clamped offset, in the sense of `CanonicalSearchHolds` |
| PositionProperties.FindFromCovers | src/helpers.ts:194-206 | from a valid start the walk covers `maxOffset` or reaches the last cell |
| PositionProperties.FindCoversViewport | src/helpers.ts:188-207 | `find` keeps the invariant; its start contains the clamped offset, and its end is the last cell or the viewport end lies within it |
| PositionScenarios.AllDeferredOffset | src/helpers.ts:162-172 | with no measured sizes, cell `j` starts at `j * estimatedCellSize` |
| PositionScenarios.FreshLookup | src/helpers.ts:150-187 | 1000 cells of estimate 30: a fresh `get(500)` is `{15000, 30}` |
| PositionScenarios.FreshFind | src/helpers.ts:188-207 | the same manager: `find(150, 300)` is `{5, 14}` |
| PositionScenarios.FirstCellStartsAtZero | src/helpers.ts:159-160 | on a back-to-back table `get(0)` succeeds for a positive count and starts at 0 |
| PositionScenarios.UnsetNegativeAsWritten | src/helpers.ts:140-149 | the source's `unset(-5)` on a fresh manager makes the next `get(0)` start at 150 |
| PositionScenarios.UnsetNegativeCorrected | src/helpers.ts:140-149 | the corrected `unset(-5)` leaves a fresh manager unchanged and `get(0)` starts at 0 |
| PositionManagers.PositionManager.constructor | src/helpers.ts:102-109 | an empty store, both cursors at -1, the invariant, and the given configuration |
| PositionManagers.PositionManager.Length | src/helpers.ts:113-115 | `length` is `count` |
| PositionManagers.PositionManager.LastMeasuredCell | src/helpers.ts:124-130 | `{0,0}` before any measurement, else the stored last measured cell, which is its prefix-sum position under the invariant |
| PositionManagers.PositionManager.Size | src/helpers.ts:116-123 | under the invariant, the measured prefix sum plus the estimate for the remaining cells |
| PositionManagers.PositionManager.Configure | src/helpers.ts:131-139 | only options given with a non-zero value change; the store and cursors are untouched; changing only the count keeps the invariant |
| PositionManagers.PositionManager.Unset | src/helpers.ts:140-149 | no index: nothing changes; otherwise the new state is `UnsetTable` of the old, which for an index ≥ 0 is the source's update `UnsetTableAsWritten` |
| PositionManagers.PositionManager.Get | src/helpers.ts:150-187 | the result and new state are `Lookup` of the old state |
| PositionManagers.PositionManager.Rescan | src/helpers.ts:159-182 | the extension loop leaves the state `Scan` gives |
| PositionManagers.PositionManager.BinarySearch | src/helpers.ts:214-233 | the result and new state are `Search` of the old state |
| PositionManagers.PositionManager.ProbeMiddle | src/helpers.ts:216-217 | reading the middle cell turns the search into its `Probe` on the new state |
| PositionManagers.PositionManager.NearestCell | src/helpers.ts:210-212 | the result and new state are `NearestCell` of the old state |
| PositionManagers.PositionManager.Find | src/helpers.ts:188-207 | the result and new state are `FindRange` of the old state |
| PositionManagers.PositionManager.StartCell | src/helpers.ts:191-194 | the start and state follow `FindStart` |
| PositionManagers.PositionManager.CoverFrom | src/helpers.ts:194-206 | the range and state follow `FindFrom` |
| PositionManagers.PositionManager.ExtendEnd | src/helpers.ts:199-204 | the end walk loop follows `Walk` |
| ScalingPositionManagers.ScalingPositionManager.constructor | src/helpers.ts:245-249 | wraps a fresh manager built from the other options; the maximum scroll size is ignored |
| ScalingPositionManagers.ScalingPositionManager.HasScaledOffsets | src/helpers.ts:252-254 | always false |
| ScalingPositionManagers.ScalingPositionManager.Length | src/helpers.ts:255-257 | the wrapped manager's `length` |
| ScalingPositionManagers.ScalingPositionManager.Size | src/helpers.ts:258-260 | the wrapped manager's `size` |
| ScalingPositionManagers.ScalingPositionManager.LastMeasuredCell | src/helpers.ts:261-263 | the wrapped manager's `lastMeasuredCell` |
| ScalingPositionManagers.ScalingPositionManager.Configure | src/helpers.ts:249-251 | delegates: same effect as the wrapped `configure` |
| ScalingPositionManagers.ScalingPositionManager.Unset | src/helpers.ts:249-251 | delegates: the wrapped table becomes `UnsetTable` of the old, the source's update for an index ≥ 0 |
| ScalingPositionManagers.ScalingPositionManager.Get | src/helpers.ts:249-251 | delegates: `Lookup` on the wrapped table |
| ScalingPositionManagers.ScalingPositionManager.Find | src/helpers.ts:249-251 | delegates: `FindRange` on the wrapped table |
| ListRendering.PoolSize | src/components/abstract-list.ts:349-352 | the pool is at least the previous size (2 when unset) and covers the rendered span, and is one of the two |
| ListRendering.RenderRange | src/components/abstract-list.ts:248-291 | the loop of `renderItemsRange` keeps the table readable; what it emits is `RenderRangeItems` |
| ListRendering.RenderRangeItems | src/components/abstract-list.ts:248-291 | `renderItemsRange(a, b)` throws iff the range is not empty and leaves `0..count-1`; otherwise it emits exactly `a..b` in order, each item keyed and flagged by the fixed-item rule |
| ListRendering.RenderRangeAppends | src/components/abstract-list.ts:288 | the items already rendered are a prefix of the result; the table does not depend on them |
| ListRendering.RenderRangeCanonical | src/components/abstract-list.ts:248-249 | on an exact table every item carries its prefix-sum position, and the invariant is kept |
| ListRendering.ContinueItems | src/components/abstract-list.ts:303-305 | `children.push(...renderItemsRange(a, b))` appends exactly `a..b`, or throws iff the segment does not fit |
| ListRendering.RenderSegmentsItems | src/components/abstract-list.ts:299-322 | the segments are rendered one after another; it throws iff one does not fit |
| ListRendering.RenderSegmentsHalts | src/components/abstract-list.ts:294-324 | once a segment throws, nothing further is rendered |
| ListRendering.AllFitInBounds | src/components/abstract-list.ts:248-249 | every segment fits iff every emitted index is an index of the manager |
| ListRendering.RenderItems | src/components/abstract-list.ts:294-324 | the segments rendered from no items keep the table readable; what it emits is `RenderItemsPlanned` |
| ListRendering.RenderItemsPlanned | src/components/abstract-list.ts:294-324 | `renderItems` emits the fixed prefix, then `max(prefix, start)..end'`, then the fixed suffix, and throws iff one of those segments does not fit |
| ListRendering.PlannedShape | src/components/abstract-list.ts:302-320 | with non-negative fixed counts summing to at most the count, the emitted indices strictly increase (none twice), and each is fixed or within the middle range |
| ListRendering.ItemKeysDistinct | src/components/abstract-list.ts:250-255 | increasing indices whose non-fixed part spans at most the pool size get pairwise distinct keys |
| ListRendering.PooledSlotsDiffer | src/components/abstract-list.ts:255 | two indices less than `n` apart have different remainders mod `n` |
| ListRendering.Render | src/components/abstract-list.ts:344-361 | the pool never shrinks and is positive after a render that completes; the keys are `RenderKeysDistinct` |
| ListRendering.RenderKeysDistinct | src/components/abstract-list.ts:344-361 | a render that completes emits the planned indices of the padded visible range, under pairwise distinct keys |
| AbstractLists.VisibleRange | src/components/abstract-list.ts:163-172 | a cached visible range is returned without a new `find` |
| AbstractLists.AbstractList.constructor | src/components/abstract-list.ts:140-162 | a fresh manager configured from the props, direction FORWARD, no pool, nothing pending or cached |
| AbstractLists.AbstractList.ForceRenderInTick | src/components/abstract-list.ts:220-230 | the pending flag is set; one tick is scheduled only when none was pending |
| AbstractLists.AbstractList.Tick | src/components/abstract-list.ts:227-229 | running a scheduled tick forces exactly one update |
| AbstractLists.AbstractList.OnItemMeasure | src/components/abstract-list.ts:215-218 | the manager is `unset` at the index and a render is requested |
| AbstractLists.AbstractList.ItemsCountWatcher | src/components/abstract-list.ts:328-335 | the same count changes nothing; another count is configured (0 ignored) and a render requested |
| AbstractLists.AbstractList.SetItemsCount | src/components/abstract-list.ts:328-335 | a new prop value runs the watcher |
| AbstractLists.AbstractList.ScrollOffsetWatcher | src/components/abstract-list.ts:336-341 | direction is FORWARD iff the old offset (default 0) is below the new one |
| AbstractLists.AbstractList.SetScrollOffset | src/components/abstract-list.ts:336-341 | a changed prop runs the watcher with the old value; an unchanged one keeps the direction |
| AbstractLists.AbstractList.Visible | src/components/abstract-list.ts:164-172 | follows `VisibleRange` and caches a range it finds |
| AbstractLists.AbstractList.Rendered | src/components/abstract-list.ts:173-180 | the visible range padded by `overScanRange` |
| AbstractLists.AbstractList.RenderItemsRange | src/components/abstract-list.ts:232-292 | the loop follows `RenderRange` from no items |
| AbstractLists.AbstractList.PushRange | src/components/abstract-list.ts:303-305 | the loop appends to the given children as `RenderRange` does |
| AbstractLists.AbstractList.RenderItems | src/components/abstract-list.ts:294-324 | the rendered range, then `RenderItems` over it |
| AbstractLists.AbstractList.RenderSegmentsOf | src/components/abstract-list.ts:299-322 | the three segment calls follow `RenderItems` |
| AbstractLists.AbstractList.Render | src/components/abstract-list.ts:344-361 | clears the pending flag; the result, table and pool follow `ListRendering.Render`, whose keys `ListRendering.RenderKeysDistinct` proves distinct |
| GridRendering.GrowAxis | src/components/abstract-grid.ts:341-350 | a pool side never shrinks, exceeds the rendered span, and is the old size or the span plus one |
| GridRendering.KeyOf | src/components/abstract-grid.ts:406-408 | the key `(row % y):(column % x)` names a slot inside the pool |
| GridRendering.RenderColumns | src/components/abstract-grid.ts:405-446 | the inner loop adds one cell per column when it completes; its cells are `RenderColumnsCells` |
| GridRendering.RowCells | src/components/abstract-grid.ts:402-446 | one row: its `get`, then one cell per column of the range |
| GridRendering.RenderRows | src/components/abstract-grid.ts:402-463 | the outer loop keeps both tables readable; its cells are `RenderRowsCells` |
| GridRendering.RenderColumnsFails | src/components/abstract-grid.ts:407-411 | the inner loop throws iff the column range is not empty and leaves `0..count-1` |
| GridRendering.RenderColumnsCells | src/components/abstract-grid.ts:405-446 | the inner loop appends the cells of the row across the columns, in order, each keyed `(row % y):(column % x)` |
| GridRendering.RenderRowsFails | src/components/abstract-grid.ts:402-411 | the outer loop throws iff the rows are not empty and either the rows leave `0..count-1` or the columns do not fit |
| GridRendering.RenderRowsCells | src/components/abstract-grid.ts:402-463 | the outer loop appends the block of rows times columns, row by row, with pooled keys |
| GridRendering.BlockShape | src/components/abstract-grid.ts:402-407 | the block lists its cells in strictly increasing row-then-column order, each inside the rectangle |
| GridRendering.CellKeysDistinct | src/components/abstract-grid.ts:406-408 | the cells of a block no larger than the pool have pairwise distinct keys |
| GridRendering.SizePool | src/components/abstract-grid.ts:332-351 | starts from 3 by 3; each side never shrinks, and on success exceeds the row and column spans it renders |
| GridRendering.SaveState | src/components/abstract-grid.ts:261-278 | saves the first visible row and column and the ranges of this render |
| GridRendering.RenderSized | src/components/abstract-grid.ts:489-514 | after sizing, `render` keeps the pool it was given and both tables readable; what it emits is `SizedKeysDistinct` |
| GridRendering.Render | src/components/abstract-grid.ts:488-517 | `render` leaves the pool ready and both tables readable; what it emits is `RenderKeysDistinct` and `RenderCompletes` |
| GridRendering.RowsKeysDistinct | src/components/abstract-grid.ts:385-466 | `renderGridCells` for a pool covering both spans renders the block with distinct keys |
| GridRendering.SizedKeysDistinct | src/components/abstract-grid.ts:489-514 | after sizing, a render that completes saves its ranges and renders that block with distinct keys |
| GridRendering.RenderKeysDistinct | src/components/abstract-grid.ts:488-517 | the pool never shrinks; a render that completes saves its ranges and renders exactly their cells, row by row, under pairwise distinct keys |
| GridRendering.RenderCompletes | src/components/abstract-grid.ts:488-517 | with managers counting what the props count, a render completes iff there is at least one row and one column |
| GridRendering.RowPassAsWritten | src/components/abstract-grid.ts:488-517 | the row side of `render` as written, from four separate `find`s: the new `poolSize.y` is at least the old one, and the rendered rows lie within `0..rowCount-1` |
| GridRendering.RowPoolAsWritten | src/components/abstract-grid.ts:341-344 | `y` is at least the old `y`, from two `find`s read for the end and then the start |
| GridRendering.RenderedRowsAsWritten | src/components/abstract-grid.ts:261-264 | `saveCurrentScrollState` finds and reads the first row; `renderGridCells` (line 386) finds again; the rows it renders lie within `0..rowCount-1` |
| GridRendering.ScenarioPool | src/components/abstract-grid.ts:341-344 | in the scenario `computePoolSize` keeps `poolSize.y` at 3 |
| GridRendering.ScenarioRendered | src/components/abstract-grid.ts:385-386 | in the scenario `renderGridCells` renders rows 0..3 |
| GridRendering.RowPoolTooSmallAsWritten | src/components/abstract-grid.ts:332-408 | as written, a 3-row pool renders rows 0..3, and rows 0 and 3 share a key |
| AbstractGrids.AbstractGrid.constructor | src/components/abstract-grid.ts:151-216 | both managers fresh, configured from the props; offsets 0, trigger NONE, directions FORWARD, nothing pending |
| AbstractGrids.AbstractGrid.ComputeScrollPosition | src/components/abstract-grid.ts:293-314 | per axis: a new value ≥ 0 that differs is stored, sets the trigger (default REQUESTED), and makes the direction FORWARD iff it is below the old value; otherwise the axis is unchanged |
| AbstractGrids.AbstractGrid.OnScroll | src/components/abstract-grid.ts:279-291 | nothing changes while scroll events are ignored; otherwise both offsets are clamped to 0, `_scrollToCell` is cleared and the position is computed as OBSERVED |
| AbstractGrids.AbstractGrid.ForceRenderInNextFrame | src/components/abstract-grid.ts:316-330 | the slot holds the callback of the latest call, replacing a pending one; exactly one tick is scheduled, and none is added while a frame is pending |
| AbstractGrids.AbstractGrid.Tick | src/components/abstract-grid.ts:323-329 | the tick empties the slot, forces one update and runs the latest callback once; `ClearScrollToCell` clears the scroll to a cell |
| AbstractGrids.AbstractGrid.OnItemMeasure | src/components/abstract-grid.ts:247-260 | remembers the saved first visible cell, unsets the row and column, and hands a new clearing closure to `forceRenderInNextFrame` |
| AbstractGrids.AbstractGrid.ScrollTo | src/components/abstract-grid.ts:353-362 | `_ignoreScrollEvents` is restored; one request is issued with `preventEvent` in force |
| AbstractGrids.AbstractGrid.RowCountWatcher | src/components/abstract-grid.ts:470-477 | the same count changes nothing; another count is configured (0 ignored) and one update forced |
| AbstractGrids.AbstractGrid.ColumnCountWatcher | src/components/abstract-grid.ts:478-485 | the same for columns |
| AbstractGrids.AbstractGrid.SetRowCount | src/components/abstract-grid.ts:470-477 | the prop takes the new value, and the watcher runs only when it changed; a manager that counted the old prop counts the new one unless it is 0 |
| AbstractGrids.AbstractGrid.SetColumnCount | src/components/abstract-grid.ts:478-485 | the same for columns |
| AbstractGrids.AbstractGrid.ComputePoolSize | src/components/abstract-grid.ts:332-351 | the pool, tables and ranges follow `SizePool` |
| AbstractGrids.AbstractGrid.SaveCurrentScrollState | src/components/abstract-grid.ts:261-278 | the state follows `SaveState`, and a saved state replaces the old one |
| AbstractGrids.AbstractGrid.RenderRowCells | src/components/abstract-grid.ts:405-446 | the inner loop follows `RenderColumns` |
| AbstractGrids.AbstractGrid.RenderRow | src/components/abstract-grid.ts:402-446 | one row: its `get` and then its cells, as `RowCells` |
| AbstractGrids.AbstractGrid.RenderGridCells | src/components/abstract-grid.ts:385-466 | the nested loops follow `RenderRows` from no cells |
| AbstractGrids.AbstractGrid.RenderSizedFrame | src/components/abstract-grid.ts:490-514 | the rest of `render` follows `RenderSized` |
| AbstractGrids.AbstractGrid.Render | src/components/abstract-grid.ts:488-517 | result, tables, pool and saved state follow `GridRendering.Render`, about which `RenderKeysDistinct` and `RenderCompletes` are proved |

## Left out

- **Vue glue.** Scoped slots, `$createElement`, `getFirstVnode`, `mergeVnode` and the `vnodeCache`/`instanceCache` instance reuse are not modelled. A render yields the data given to the slots: items with keys and positions, cells with keys and both cells' positions, and sizes.
- **The grid's `row` slot.** Grouping a row's cells into one vnode (abstract-grid.ts:448-462) is not modelled; the rendered cells are listed flat, in the same order.
- **`adjustOffset`.** It is not part of this model; the compressed offsets are left out.
- **`createCompressedPositionManager`.** It is not part of this model. Both components use the plain position manager in its place.
- **`hasMax`, `rowHeight`, `columnWidth`.** These are not part of this model either. The size getters are fixed functions from index to an optional size.
- **`scrollToCell` and `computeUpdatedOffset`.** `computeUpdatedOffset` is not part of this model, so `scrollToCell` (abstract-grid.ts:364-383) is left out.
- **Live getters in `savedScrollState`.** The source stores the live `current.visible` and `current.rendered` getters. The model stores the ranges this render used.
- **`_rangeCache`.** The cache is modelled as an explicit `Option` field that `render` busts.
- **Asynchrony.** `$nextTick` becomes an explicit `Tick` step and a count of scheduled callbacks. `$forceUpdate` becomes a counter.
- **The DOM and browser.** The DOM, `ResizeObserver`, `$el.scrollTo` and the measured element sizes are left out. `scrollTo` records the request it would issue.
- **Number semantics.** Fractional pixels and `maxScrollSize` are left out. Sizes and offsets are unbounded integers.
- **`sizeGetter` changes.** `sizeGetter` is a fixed function during a call. Measurement that changes it between calls is modelled as `configure`, or as `unset` with `UnsetRestoresExact`.
- **Thrown errors.** An exception thrown by `get` becomes `Err` and ends the render. The state updated before the throw is kept, as in the source.
- PositionManagers.PositionManager.Unset: for a negative index the new state is the corrected `UnsetTable`, whose cursors stop at -1. The source sets them to `min(index - 1, lastMeasuredIndex)`, below -1, which `UnsetTableAsWritten` models and the first row of Findings shows. For an index ≥ 0 both agree.
- ScalingPositionManagers.ScalingPositionManager.Unset: delegates to that `Unset`, so for a negative index it too gives the corrected state, not the source's cursors below -1.
- GridRendering.SizePool: finds each axis once and grows the pool from that range. `computePoolSize` reads `.end` and `.start` of the rendered rows (and columns) through two separate `find`s; that is `RowPoolAsWritten`.
- AbstractGrids.AbstractGrid.ComputePoolSize: the same as `SizePool`, one `find` per axis, and it returns the ranges it found.
- GridRendering.SaveState: saves the ranges found by `SizePool`. `saveCurrentScrollState` runs a new `find` per axis; that is `RenderedRowsAsWritten`.
- AbstractGrids.AbstractGrid.SaveCurrentScrollState: takes the ranges of `ComputePoolSize` as a parameter instead of running a new `find`.
- AbstractGrids.AbstractGrid.RenderGridCells: takes the rendered ranges as parameters. `renderGridCells` runs its own `find` per axis (abstract-grid.ts:386-390).
- AbstractGrids.AbstractGrid.RenderSizedFrame: saves and renders from the ranges `ComputePoolSize` found, not from new `find`s.
- GridRendering.Render and AbstractGrids.AbstractGrid.Render find each axis once per render. The source finds the rows four times, which can disagree; that behaviour is modelled by `RowPassAsWritten` and shown under Findings.
- PositionProperties.FindCoversViewport: proved only for tables satisfying `Exact`. After `configure` of a new estimate or getter, stale entries can make a walk's sum differ from the prefix sums.
- PositionProperties.SearchHolds: proved only for tables satisfying `Exact`, which is how the source's "offsets are non-decreasing" is stated here.
- AbstractGrids.AbstractGrid.OnItemMeasure: requires a saved scroll state. The source reads `savedScrollState.row` unguarded, and measurement only happens after a render has saved one.

## Findings

| source | as written | input that shows it | evidently intended | confidence | as-written member | corrected member |
|---|---|---|---|---|---|---|
| src/helpers.ts:140-149 | `unset(index)` sets both cursors to `min(index - 1, lastMeasuredIndex)`, which goes below -1 for a negative index | fresh manager, 1000 cells of estimate 30: `unset(-5)`, then `get(0)` returns offset 150 instead of 0 | cursors never below -1, so cell 0 still starts at 0 | not executed; `unset` is public, though the components only pass indices ≥ 0 | PositionScenarios.UnsetNegativeAsWritten | PositionScenarios.UnsetNegativeCorrected |
| src/components/abstract-grid.ts:332-408 | `computePoolSize` reads `current.rendered.row` twice, and `renderGridCells` once more, each a new `find` that may measure more rows; the pool can end up smaller than the rows rendered | 4 rows, every row measured at 2 pixels, estimate 1, container height 4, scrollTop 3, no overscan, fresh row manager: `poolSize.y` stays 3 but rows 0..3 are rendered, so rows 0 and 3 get the same key | the pool is sized for the rows it renders, so keys are distinct within one render | not executed | GridRendering.RowPoolTooSmallAsWritten | GridRendering.RenderKeysDistinct |
