/**
 * The state a grid component of src/components/abstract-grid.ts keeps between renders and
 * the methods that update it: the scroll state machine, the single-slot render coalescing,
 * the ignore flag around `scrollTo`, the count watchers and the keep-alive pool. Rendering
 * is proved to compute what grid_render.dfy describes, with each axis found once per render.
 */
module AbstractGrids {
  import opened Wrappers
  import opened Constants
  import opened HelperTypes
  import opened OverScan
  import opened PositionTables
  import opened PositionManagers
  import opened GridRendering

  /**
   * The callbacks the grid hands to `forceRenderInNextFrame`: each call of `onItemMeasure`
   * creates a new closure that drops a pending scroll to a cell; `made` numbers it.
   */
  datatype FrameCallback = ClearScrollToCell(made: nat)

  /** A call of `$el.scrollTo`, with the value `_ignoreScrollEvents` had while it ran. */
  datatype ScrollRequest = ScrollRequest(top: int, left: int, smooth: bool, ignoring: bool)

  class AbstractGrid {
    /** The row and column position managers built in `created`. */
    const rows: PositionManager
    const columns: PositionManager
    var props: GridProps
    var scrollTop: int
    var scrollLeft: int
    var scrollTrigger: ScrollTrigger
    var scrollDirectionVertical: ScrollDirection
    var scrollDirectionHorizontal: ScrollDirection
    var poolSize: Option<Pool>
    /** `_scrollToCell`. */
    var scrollToCell: Option<(int, int)>
    var savedScrollState: Option<ScrollState>
    /** `_ignoreScrollEvents`. */
    var ignoreScrollEvents: bool
    /** `_hasPendingRender`: the callback the next frame runs, if one is pending. */
    var pendingRender: Option<FrameCallback>
    /** The closures `onItemMeasure` has created so far. */
    var closuresMade: nat
    /** Callbacks handed to `$nextTick`, not yet run. */
    var scheduledTicks: nat
    /** Calls of `$forceUpdate`. */
    var forcedUpdates: nat
    /** The callbacks the frames ran, oldest first. */
    var ranCallbacks: seq<FrameCallback>
    /** The calls of `$el.scrollTo`, oldest first. */
    var scrollRequests: seq<ScrollRequest>

    /**
     * Both managers keep their tables contiguous, a pool once set is positive, and a
     * callback is scheduled exactly while one is pending.
     */
    ghost predicate Valid()
      reads this, rows, columns
    {
      && rows.Valid() && columns.Valid() && rows != columns
      && (poolSize.Some? ==> PoolReady(poolSize.value))
      && scheduledTicks == if pendingRender.Some? then 1 else 0
    }

    /** What the row manager is configured with. */
    function RowAxis(): Axis
      reads this, rows
    {
      Axis(rows.count, rows.sizeGetter, rows.estimatedCellSize)
    }

    /** What the column manager is configured with. */
    function ColumnAxis(): Axis
      reads this, columns
    {
      Axis(columns.count, columns.sizeGetter, columns.estimatedCellSize)
    }

    /** The scroll data a render reads. */
    function CurrentView(): View
      reads this
    {
      View(scrollTop, scrollLeft, scrollDirectionVertical, scrollDirectionHorizontal)
    }

    /**
     * `data` and `created`: both offsets 0, no trigger, both directions forward, one manager
     * per axis from the counts and the estimated sizes; nothing pending or saved yet.
     */
    constructor (props: GridProps, rowGetter: SizeGetter, columnGetter: SizeGetter)
      ensures fresh(rows) && fresh(columns) && Valid()
      ensures rows.Snapshot() == EmptyTable && columns.Snapshot() == EmptyTable
      ensures RowAxis() == Axis(props.rowCount, rowGetter, props.estimatedItemHeight)
      ensures ColumnAxis() == Axis(props.columnCount, columnGetter, props.estimatedItemWidth)
      ensures this.props == props && scrollTop == 0 && scrollLeft == 0 && scrollTrigger == NoTrigger
      ensures scrollDirectionVertical == Forward && scrollDirectionHorizontal == Forward
      ensures poolSize == None && scrollToCell == None && savedScrollState == None && !ignoreScrollEvents
      ensures pendingRender == None && closuresMade == 0 && scheduledTicks == 0 && forcedUpdates == 0
      ensures ranCallbacks == [] && scrollRequests == []
    {
      rows := new PositionManager(props.rowCount, props.estimatedItemHeight, rowGetter);
      columns := new PositionManager(props.columnCount, props.estimatedItemWidth, columnGetter);
      this.props := props;
      scrollTop, scrollLeft := 0, 0;
      scrollTrigger := NoTrigger;
      scrollDirectionVertical, scrollDirectionHorizontal := Forward, Forward;
      poolSize := None;
      scrollToCell := None;
      savedScrollState := None;
      ignoreScrollEvents := false;
      pendingRender := None;
      closuresMade := 0;
      scheduledTicks, forcedUpdates := 0, 0;
      ranCallbacks, scrollRequests := [], [];
    }

    /**
     * `computeScrollPosition({top, left}, trigger)`, the trigger defaulting to REQUESTED. Each
     * axis, the horizontal one first, moves only to a value that is not negative and differs
     * from the stored one; it then records the trigger and turns forward exactly when the
     * value decreased.
     */
    method ComputeScrollPosition(top: int, left: int, trigger: Option<ScrollTrigger>)
      modifies this`scrollTop, this`scrollLeft, this`scrollTrigger, this`scrollDirectionVertical, this`scrollDirectionHorizontal
      ensures var moveLeft := left >= 0 && left != old(scrollLeft);
        && scrollLeft == (if moveLeft then left else old(scrollLeft))
        && (moveLeft ==> (scrollDirectionHorizontal == Forward <==> left < old(scrollLeft)))
        && (!moveLeft ==> scrollDirectionHorizontal == old(scrollDirectionHorizontal))
      ensures var moveTop := top >= 0 && top != old(scrollTop);
        && scrollTop == (if moveTop then top else old(scrollTop))
        && (moveTop ==> (scrollDirectionVertical == Forward <==> top < old(scrollTop)))
        && (!moveTop ==> scrollDirectionVertical == old(scrollDirectionVertical))
      ensures scrollTrigger == if (left >= 0 && left != old(scrollLeft)) || (top >= 0 && top != old(scrollTop)) then trigger.GetOr(Requested) else old(scrollTrigger)
    {
      var cause := trigger.GetOr(Requested);
      if left >= 0 && left != scrollLeft {
        scrollTrigger := cause;
        scrollDirectionHorizontal := if left < scrollLeft then Forward else Reverse;
        scrollLeft := left;
      }
      if top >= 0 && top != scrollTop {
        scrollTrigger := cause;
        scrollDirectionVertical := if top < scrollTop then Forward else Reverse;
        scrollTop := top;
      }
    }

    /**
     * `onScroll`: ignored entirely while `_ignoreScrollEvents` is set; otherwise both element
     * offsets are clamped to 0 from below, a pending scroll to a cell is cancelled and the
     * position is computed as OBSERVED.
     */
    method OnScroll(elementTop: int, elementLeft: int)
      modifies this`scrollTop, this`scrollLeft, this`scrollTrigger, this`scrollDirectionVertical, this`scrollDirectionHorizontal, this`scrollToCell
      ensures old(ignoreScrollEvents) ==> && scrollTop == old(scrollTop) && scrollLeft == old(scrollLeft) && scrollTrigger == old(scrollTrigger)
                                          && scrollDirectionVertical == old(scrollDirectionVertical) && scrollDirectionHorizontal == old(scrollDirectionHorizontal)
                                          && scrollToCell == old(scrollToCell)
      ensures !old(ignoreScrollEvents) ==>
        && scrollToCell == None
        && scrollTop == Max(0, elementTop) && scrollLeft == Max(0, elementLeft)
        && (Max(0, elementTop) != old(scrollTop) ==> (scrollDirectionVertical == Forward <==> Max(0, elementTop) < old(scrollTop)))
        && (Max(0, elementTop) == old(scrollTop) ==> scrollDirectionVertical == old(scrollDirectionVertical))
        && (Max(0, elementLeft) != old(scrollLeft) ==> (scrollDirectionHorizontal == Forward <==> Max(0, elementLeft) < old(scrollLeft)))
        && (Max(0, elementLeft) == old(scrollLeft) ==> scrollDirectionHorizontal == old(scrollDirectionHorizontal))
        && scrollTrigger == if Max(0, elementTop) != old(scrollTop) || Max(0, elementLeft) != old(scrollLeft) then Observed else old(scrollTrigger)
    {
      if ignoreScrollEvents {
        return;
      }
      var left := Max(0, elementLeft);
      var top := Max(0, elementTop);
      scrollToCell := None;
      ComputeScrollPosition(top, left, Some(Observed));
    }

    /**
     * `forceRenderInNextFrame(fn)`: while a frame is pending its callback is replaced and
     * nothing is scheduled; otherwise `fn` is stored and one callback is handed to `$nextTick`.
     */
    method ForceRenderInNextFrame(fn: FrameCallback)
      requires Valid()
      modifies this`pendingRender, this`scheduledTicks
      ensures Valid() && pendingRender == Some(fn) && scheduledTicks == 1
      ensures old(pendingRender).Some? ==> scheduledTicks == old(scheduledTicks)
    {
      if pendingRender.Some? {
        pendingRender := Some(fn);
        return;
      }
      pendingRender := Some(fn);
      scheduledTicks := scheduledTicks + 1;
    }

    /**
     * The `$nextTick` callback: take the latest callback, clear the slot, `$forceUpdate`,
     * then run the callback, once. Nothing is left scheduled.
     */
    method Tick()
      requires Valid() && scheduledTicks > 0
      modifies this`pendingRender, this`scheduledTicks, this`forcedUpdates, this`ranCallbacks, this`scrollToCell
      ensures Valid() && pendingRender == None && scheduledTicks == 0
      ensures forcedUpdates == old(forcedUpdates) + 1
      ensures ranCallbacks == old(ranCallbacks) + [old(pendingRender).value]
      ensures old(pendingRender).value.ClearScrollToCell? ==> scrollToCell == None
    {
      var done := pendingRender.value;
      pendingRender := None;
      scheduledTicks := scheduledTicks - 1;
      forcedUpdates := forcedUpdates + 1;
      ranCallbacks := ranCallbacks + [done];
      match done
      case ClearScrollToCell(_) =>
        if scrollToCell.Some? {
          scrollToCell := None;
        }
    }

    /**
     * `onItemMeasure(row, column)`: remember the saved first visible cell as the cell to
     * scroll to, forget the measured row and column in their managers and ask for a frame
     * that drops the scroll to the cell again.
     */
    method OnItemMeasure(row: int, column: int)
      requires Valid() && savedScrollState.Some?
      modifies this`scrollToCell, this`closuresMade, this`pendingRender, this`scheduledTicks
      modifies rows`store, rows`lastMeasuredIndex, rows`lastDeferredIndex, columns`store, columns`lastMeasuredIndex, columns`lastDeferredIndex
      ensures Valid()
      ensures scrollToCell == Some((savedScrollState.value.row, savedScrollState.value.column))
      ensures rows.Snapshot() == UnsetTable(old(rows.Snapshot()), row)
      ensures columns.Snapshot() == UnsetTable(old(columns.Snapshot()), column)
      ensures closuresMade == old(closuresMade) + 1
      ensures pendingRender == Some(ClearScrollToCell(old(closuresMade))) && scheduledTicks == 1
    {
      scrollToCell := Some((savedScrollState.value.row, savedScrollState.value.column));
      rows.Unset(Some(row));
      columns.Unset(Some(column));
      var fn := ClearScrollToCell(closuresMade);
      closuresMade := closuresMade + 1;
      ForceRenderInNextFrame(fn);
    }

    /**
     * `scrollTo({top, left}, preventEvent, smooth)` (the defaults are `false` and `true`): the
     * element is scrolled with `_ignoreScrollEvents` set to `preventEvent`, and the flag is
     * then put back as it was.
     */
    method ScrollTo(top: int, left: int, preventEvent: bool, smooth: bool)
      modifies this`ignoreScrollEvents, this`scrollRequests
      ensures ignoreScrollEvents == old(ignoreScrollEvents)
      ensures scrollRequests == old(scrollRequests) + [ScrollRequest(top, left, smooth, preventEvent)]
    {
      var previous := ignoreScrollEvents;
      ignoreScrollEvents := preventEvent;
      scrollRequests := scrollRequests + [ScrollRequest(top, left, smooth, ignoreScrollEvents)];
      ignoreScrollEvents := previous;
    }

    /**
     * The `rowCount` watcher: only a count that differs from the manager's length is passed
     * to `configure` (which ignores 0), and only then is an update forced.
     */
    method RowCountWatcher(newCount: int)
      requires Valid()
      modifies rows`count, rows`estimatedCellSize, rows`sizeGetter, this`forcedUpdates
      ensures Valid() && rows.Snapshot() == old(rows.Snapshot())
      ensures rows.estimatedCellSize == old(rows.estimatedCellSize) && rows.sizeGetter == old(rows.sizeGetter)
      ensures old(rows.count) == newCount ==> rows.count == newCount && forcedUpdates == old(forcedUpdates)
      ensures old(rows.count) != newCount ==>
        && rows.count == (if newCount != 0 then newCount else old(rows.count))
        && forcedUpdates == old(forcedUpdates) + 1
    {
      if rows.Length() != newCount {
        rows.Configure(Some(newCount), None, None);
        forcedUpdates := forcedUpdates + 1;
      }
    }

    /** The `columnCount` watcher, the same on the column manager. */
    method ColumnCountWatcher(newCount: int)
      requires Valid()
      modifies columns`count, columns`estimatedCellSize, columns`sizeGetter, this`forcedUpdates
      ensures Valid() && columns.Snapshot() == old(columns.Snapshot())
      ensures columns.estimatedCellSize == old(columns.estimatedCellSize) && columns.sizeGetter == old(columns.sizeGetter)
      ensures old(columns.count) == newCount ==> columns.count == newCount && forcedUpdates == old(forcedUpdates)
      ensures old(columns.count) != newCount ==>
        && columns.count == (if newCount != 0 then newCount else old(columns.count))
        && forcedUpdates == old(forcedUpdates) + 1
    {
      if columns.Length() != newCount {
        columns.Configure(Some(newCount), None, None);
        forcedUpdates := forcedUpdates + 1;
      }
    }

    /**
     * A new `rowCount` prop. Vue runs the `rowCount` watcher only when the value changed, and
     * the watcher sees the prop already updated.
     */
    method SetRowCount(newCount: int)
      requires Valid()
      modifies this`props, rows`count, rows`estimatedCellSize, rows`sizeGetter, this`forcedUpdates
      ensures Valid() && rows.Snapshot() == old(rows.Snapshot())
      ensures rows.estimatedCellSize == old(rows.estimatedCellSize) && rows.sizeGetter == old(rows.sizeGetter)
      ensures props == old(props).(rowCount := newCount)
      ensures old(props.rowCount) == newCount || old(rows.count) == newCount ==>
        rows.count == old(rows.count) && forcedUpdates == old(forcedUpdates)
      ensures old(props.rowCount) != newCount && old(rows.count) != newCount ==>
        && rows.count == (if newCount != 0 then newCount else old(rows.count))
        && forcedUpdates == old(forcedUpdates) + 1
      ensures old(rows.count) == old(props.rowCount) && newCount != 0 ==> rows.count == props.rowCount
    {
      var previous := props.rowCount;
      props := props.(rowCount := newCount);
      if previous != newCount {
        RowCountWatcher(newCount);
      }
    }

    /** A new `columnCount` prop, the same on the column side. */
    method SetColumnCount(newCount: int)
      requires Valid()
      modifies this`props, columns`count, columns`estimatedCellSize, columns`sizeGetter, this`forcedUpdates
      ensures Valid() && columns.Snapshot() == old(columns.Snapshot())
      ensures columns.estimatedCellSize == old(columns.estimatedCellSize) && columns.sizeGetter == old(columns.sizeGetter)
      ensures props == old(props).(columnCount := newCount)
      ensures old(props.columnCount) == newCount || old(columns.count) == newCount ==>
        columns.count == old(columns.count) && forcedUpdates == old(forcedUpdates)
      ensures old(props.columnCount) != newCount && old(columns.count) != newCount ==>
        && columns.count == (if newCount != 0 then newCount else old(columns.count))
        && forcedUpdates == old(forcedUpdates) + 1
      ensures old(columns.count) == old(props.columnCount) && newCount != 0 ==> columns.count == props.columnCount
    {
      var previous := props.columnCount;
      props := props.(columnCount := newCount);
      if previous != newCount {
        ColumnCountWatcher(newCount);
      }
    }

    /**
     * `computePoolSize`, finding each axis once: start from 3 by 3 when unset, grow `y` for
     * the rendered rows, then `x` for the rendered columns. The ranges found are returned so
     * that the rest of the render uses the same ones.
     */
    method ComputePoolSize() returns (r: Result<Sizing, Error>)
      requires Valid()
      modifies this`poolSize, rows`store, rows`lastMeasuredIndex, rows`lastDeferredIndex, columns`store, columns`lastMeasuredIndex, columns`lastDeferredIndex
      ensures Valid() && poolSize.Some?
      ensures (r, rows.Snapshot(), columns.Snapshot(), poolSize.value)
           == SizePool(old(rows.Snapshot()), old(columns.Snapshot()), RowAxis(), ColumnAxis(), props, CurrentView(), old(poolSize))
    {
      if poolSize.None? {
        poolSize := Some(InitialPool);
      }
      var before := poolSize.value;
      var visibleRows := rows.Find(scrollTop, props.containerHeight);
      if visibleRows.Err? {
        return Err(visibleRows.error);
      }
      var renderedRows := OverScanRange(visibleRows.value, scrollDirectionVertical, props.overscanCountVertical, props.rowCount);
      poolSize := Some(Pool(before.x, GrowAxis(before.y, renderedRows)));
      var visibleColumns := columns.Find(scrollLeft, props.containerWidth);
      if visibleColumns.Err? {
        return Err(visibleColumns.error);
      }
      var renderedColumns := OverScanRange(visibleColumns.value, scrollDirectionHorizontal, props.overscanCountHorizontal, props.columnCount);
      poolSize := Some(Pool(GrowAxis(poolSize.value.x, renderedColumns), poolSize.value.y));
      r := Ok(Sizing(visibleRows.value, visibleColumns.value, renderedRows, renderedColumns));
    }

    /** `saveCurrentScrollState` for the ranges `sizing`: `get` of the first visible row, then column. */
    method SaveCurrentScrollState(sizing: Sizing) returns (r: Result<ScrollState, Error>)
      requires Valid()
      modifies this`savedScrollState, rows`store, rows`lastMeasuredIndex, rows`lastDeferredIndex, columns`store, columns`lastMeasuredIndex, columns`lastDeferredIndex
      ensures Valid()
      ensures (r, rows.Snapshot(), columns.Snapshot()) == SaveState(old(rows.Snapshot()), old(columns.Snapshot()), RowAxis(), ColumnAxis(), sizing)
      ensures savedScrollState == if r.Ok? then Some(r.value) else old(savedScrollState)
    {
      var top := rows.Get(sizing.visibleRows.start);
      if top.Err? {
        return Err(top.error);
      }
      var left := columns.Get(sizing.visibleColumns.start);
      if left.Err? {
        return Err(left.error);
      }
      var state := ScrollState(sizing.visibleRows.start, sizing.visibleColumns.start, top.value.offset, left.value.offset,
                               left.value.size, top.value.size, sizing.visibleRows, sizing.visibleColumns, sizing.renderedRows, sizing.renderedColumns);
      savedScrollState := Some(state);
      r := Ok(state);
    }

    /**
     * The inner loop of `renderGridCells`: the cells of `row` across `columnRange`, each
     * column read with `get`, appended to `children`.
     */
    method RenderRowCells(row: nat, rowCell: Position, columnRange: IndexRange, children: seq<Cell>) returns (r: Result<seq<Cell>, Error>)
      requires Valid() && poolSize.Some?
      modifies columns`store, columns`lastMeasuredIndex, columns`lastDeferredIndex
      ensures Valid()
      ensures (r, columns.Snapshot()) == RenderColumns(old(columns.Snapshot()), ColumnAxis(), row, rowCell, columnRange.start, columnRange.end, poolSize.value, children)
    {
      var pool := poolSize.value;
      ghost var final := RenderColumns(columns.Snapshot(), ColumnAxis(), row, rowCell, columnRange.start, columnRange.end, pool, children);
      var cells := children;
      var column := columnRange.start;
      while column <= columnRange.end
        invariant Valid()
        invariant RenderColumns(columns.Snapshot(), ColumnAxis(), row, rowCell, column, columnRange.end, pool, cells) == final
        decreases columnRange.end - column + 1
      {
        ghost var before := columns.Snapshot();
        var cell := columns.Get(column);
        if cell.Err? {
          RenderColumnsThrows(before, ColumnAxis(), row, rowCell, column, columnRange.end, pool, cells, (cell, columns.Snapshot()));
          return Err(cell.error);
        }
        RenderColumnsStep(before, ColumnAxis(), row, rowCell, column, columnRange.end, pool, cells, (cell, columns.Snapshot()));
        cells := cells + [Cell(row, column, KeyOf(row, column, pool), rowCell, cell.value)];
        column := column + 1;
      }
      return Ok(cells);
    }

    /** One turn of the outer loop of `renderGridCells`: `get(row)`, then the cells of the row. */
    method RenderRow(row: int, columnRange: IndexRange, children: seq<Cell>) returns (r: Result<seq<Cell>, Error>)
      requires Valid() && poolSize.Some?
      modifies rows`store, rows`lastMeasuredIndex, rows`lastDeferredIndex, columns`store, columns`lastMeasuredIndex, columns`lastDeferredIndex
      ensures Valid()
      ensures (r, rows.Snapshot(), columns.Snapshot()) == RowCells(old(rows.Snapshot()), old(columns.Snapshot()), RowAxis(), ColumnAxis(), row, columnRange, poolSize.value, children)
    {
      var cell := rows.Get(row);
      if cell.Err? {
        return Err(cell.error);
      }
      r := RenderRowCells(row, cell.value, columnRange, children);
    }

    /**
     * `renderGridCells` over `rowRange` and `columnRange`: for each row, `get` on the row
     * manager and then the cells of that row, all rows' cells one after the other.
     */
    method RenderGridCells(rowRange: IndexRange, columnRange: IndexRange) returns (r: Result<seq<Cell>, Error>)
      requires Valid() && poolSize.Some?
      modifies rows`store, rows`lastMeasuredIndex, rows`lastDeferredIndex, columns`store, columns`lastMeasuredIndex, columns`lastDeferredIndex
      ensures Valid()
      ensures (r, rows.Snapshot(), columns.Snapshot())
           == RenderRows(old(rows.Snapshot()), old(columns.Snapshot()), RowAxis(), ColumnAxis(), rowRange.start, rowRange.end, columnRange, poolSize.value, [])
    {
      var pool := poolSize.value;
      ghost var final := RenderRows(rows.Snapshot(), columns.Snapshot(), RowAxis(), ColumnAxis(), rowRange.start, rowRange.end, columnRange, pool, []);
      var children: seq<Cell> := [];
      var row := rowRange.start;
      while row <= rowRange.end
        invariant Valid()
        invariant RenderRows(rows.Snapshot(), columns.Snapshot(), RowAxis(), ColumnAxis(), row, rowRange.end, columnRange, pool, children) == final
        decreases rowRange.end - row + 1
      {
        ghost var rowsBefore, columnsBefore := rows.Snapshot(), columns.Snapshot();
        RenderRowsByRow(rowsBefore, columnsBefore, RowAxis(), ColumnAxis(), row, rowRange.end, columnRange, pool, children);
        var line := RenderRow(row, columnRange, children);
        if line.Err? {
          return Err(line.error);
        }
        children := line.value;
        row := row + 1;
      }
      return Ok(children);
    }

    /**
     * `render`: size the pool, save the scroll state, read both sizes for the contents slot
     * and render the cells, all for the ranges found once at the start.
     */
    method Render() returns (r: Result<Frame, Error>)
      requires Valid()
      modifies this`poolSize, this`savedScrollState
      modifies rows`store, rows`lastMeasuredIndex, rows`lastDeferredIndex, columns`store, columns`lastMeasuredIndex, columns`lastDeferredIndex
      ensures Valid() && poolSize.Some?
      ensures var g := GridRendering.Render(old(rows.Snapshot()), old(columns.Snapshot()), RowAxis(), ColumnAxis(), props, CurrentView(), old(poolSize), old(savedScrollState));
        && r == g.frame && rows.Snapshot() == g.rowTable && columns.Snapshot() == g.columnTable
        && poolSize == Some(g.pool) && savedScrollState == g.saved
    {
      ghost var rowTable, columnTable, rowAxis, columnAxis := rows.Snapshot(), columns.Snapshot(), RowAxis(), ColumnAxis();
      ghost var view, before, saved := CurrentView(), poolSize, savedScrollState;
      GridRendering.RenderBySize(rowTable, columnTable, rowAxis, columnAxis, props, view, before, saved);
      var sized := ComputePoolSize();
      assert RowAxis() == rowAxis && ColumnAxis() == columnAxis && CurrentView() == view;
      if sized.Err? {
        return Err(sized.error);
      }
      r := RenderSizedFrame(sized.value);
      assert RowAxis() == rowAxis && ColumnAxis() == columnAxis && CurrentView() == view;
    }

    /** The rest of `render` once the pool is sized for `sizing`. */
    method RenderSizedFrame(sizing: Sizing) returns (r: Result<Frame, Error>)
      requires Valid() && poolSize.Some?
      modifies this`savedScrollState
      modifies rows`store, rows`lastMeasuredIndex, rows`lastDeferredIndex, columns`store, columns`lastMeasuredIndex, columns`lastDeferredIndex
      ensures Valid()
      ensures var g := RenderSized(old(rows.Snapshot()), old(columns.Snapshot()), RowAxis(), ColumnAxis(), sizing, poolSize.value, old(savedScrollState));
        && r == g.frame && rows.Snapshot() == g.rowTable && columns.Snapshot() == g.columnTable && savedScrollState == g.saved
    {
      var state := SaveCurrentScrollState(sizing);
      if state.Err? {
        return Err(state.error);
      }
      var width := columns.Size();
      var height := rows.Size();
      var cells := RenderGridCells(sizing.renderedRows, sizing.renderedColumns);
      if cells.Err? {
        return Err(cells.error);
      }
      r := Ok(Frame(width, height, cells.value));
    }
  }
}
