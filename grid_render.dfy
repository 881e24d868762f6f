/**
 * What one render of src/components/abstract-grid.ts produces, as functions of the row and
 * column position tables: the keep-alive pool of `computePoolSize`, the scroll state of
 * `saveCurrentScrollState`, the sizes given to the contents slot and the cells of
 * `renderGridCells`. The component in abstract_grid.dfy is proved to compute these.
 */
module GridRendering {
  import opened Wrappers
  import opened Constants
  import opened HelperTypes
  import opened OverScan
  import opened PositionTables
  import ListRendering

  /** The props the grid reads. */
  datatype GridProps = GridProps(
    rowCount: int,
    columnCount: int,
    containerWidth: int,
    containerHeight: int,
    estimatedItemWidth: nat,
    estimatedItemHeight: nat,
    overscanCountVertical: int,
    overscanCountHorizontal: int)

  /** What one position manager is configured with: `count`, `sizeGetter`, `estimatedCellSize`. */
  datatype Axis = Axis(count: int, getter: SizeGetter, est: nat)

  /** The scroll data a render reads: both offsets and both directions. */
  datatype View = View(scrollTop: int, scrollLeft: int, vertical: ScrollDirection, horizontal: ScrollDirection)

  /** `poolSize`: `x` keep-alive slots across, `y` down. */
  datatype Pool = Pool(x: int, y: int)

  /** The key `(row % y):(column % x)` of a cell. */
  datatype CellKey = CellKey(row: int, column: int)

  /** One rendered cell with the row and column cells `get` returned for it. */
  datatype Cell = Cell(row: int, column: int, key: CellKey, rowCell: Position, columnCell: Position)

  /** `savedScrollState`: the first visible cell, where it is, and the ranges of the render. */
  datatype ScrollState = ScrollState(
    row: int,
    column: int,
    offsetTop: nat,
    offsetLeft: nat,
    width: nat,
    height: nat,
    visibleRows: IndexRange,
    visibleColumns: IndexRange,
    renderedRows: IndexRange,
    renderedColumns: IndexRange)

  /** The `width` and `height` given to the contents slot, and the cells inside it. */
  datatype Frame = Frame(width: int, height: int, cells: seq<Cell>)

  /** Everything a render leaves behind. */
  datatype GridRender = GridRender(frame: Result<Frame, Error>, rowTable: Table, columnTable: Table, pool: Pool, saved: Option<ScrollState>)

  /** The pool `computePoolSize` starts from when none is set. */
  const InitialPool := Pool(3, 3)

  /** A pool the component can hold: both sides are positive. */
  predicate PoolReady(pool: Pool) {
    0 < pool.x && 0 < pool.y
  }

  /** One side of `computePoolSize`: never smaller than before, and longer than the rendered range. */
  function GrowAxis(size: int, range: IndexRange): (r: int)
    ensures r >= size && r > range.end - range.start + 1
    ensures r == size || r == range.end - range.start + 2
  {
    Max(size, range.end - range.start + 2)
  }

  function KeyOf(row: nat, column: nat, pool: Pool): (k: CellKey)
    requires PoolReady(pool)
    ensures 0 <= k.row < pool.y && 0 <= k.column < pool.x
  {
    CellKey(row % pool.y, column % pool.x)
  }

  /**
   * The inner loop of `renderGridCells` for `row`, from `column` to `end`, after the cells
   * `acc`: each column is read with `get` on the column manager (an out-of-range index throws).
   */
  function RenderColumns(t: Table, axis: Axis, row: nat, rowCell: Position, column: int, end: int, pool: Pool, acc: seq<Cell>): (r: (Result<seq<Cell>, Error>, Table))
    requires Readable(t) && PoolReady(pool)
    decreases if column <= end then end - column + 1 else 0, 1
    ensures Readable(r.1)
    ensures r.0.Ok? ==> |r.0.value| == |acc| + (if column <= end then end - column + 1 else 0)
  {
    if column > end then
      (Ok(acc), t)
    else
      var cell := Lookup(t, axis.count, axis.getter, axis.est, column);
      if cell.0.Err? then (Err(cell.0.error), cell.1)
      else EmitCell(cell.1, axis, row, rowCell, column, end, pool, acc, cell.0.value)
  }

  /** One turn of the inner loop once `get(column)` has returned `cell`. */
  function EmitCell(t: Table, axis: Axis, row: nat, rowCell: Position, column: int, end: int, pool: Pool, acc: seq<Cell>, cell: Position): (r: (Result<seq<Cell>, Error>, Table))
    requires Readable(t) && PoolReady(pool) && 0 <= column <= end
    decreases end - column + 1, 0
    ensures Readable(r.1)
  {
    RenderColumns(t, axis, row, rowCell, column + 1, end, pool, acc + [Cell(row, column, KeyOf(row, column, pool), rowCell, cell)])
  }

  /**
   * The outer loop of `renderGridCells` from `row` to `end`: `get(row)` on the row manager,
   * then the inner loop over `columns`; the cells of all rows are pushed one after the other.
   */
  function RenderRows(rowTable: Table, columnTable: Table, rows: Axis, columns: Axis, row: int, end: int, columnRange: IndexRange, pool: Pool, acc: seq<Cell>): (r: (Result<seq<Cell>, Error>, Table, Table))
    requires Readable(rowTable) && Readable(columnTable) && PoolReady(pool)
    decreases if row <= end then end - row + 1 else 0, 1
    ensures Readable(r.1) && Readable(r.2)
  {
    if row > end then
      (Ok(acc), rowTable, columnTable)
    else
      var cell := Lookup(rowTable, rows.count, rows.getter, rows.est, row);
      if cell.0.Err? then (Err(cell.0.error), cell.1, columnTable)
      else EmitRow(cell.1, columnTable, rows, columns, row, end, columnRange, pool, acc, cell.0.value)
  }

  /** One turn of the outer loop once `get(row)` has returned `rowCell`. */
  function EmitRow(rowTable: Table, columnTable: Table, rows: Axis, columns: Axis, row: int, end: int, columnRange: IndexRange, pool: Pool, acc: seq<Cell>, rowCell: Position): (r: (Result<seq<Cell>, Error>, Table, Table))
    requires Readable(rowTable) && Readable(columnTable) && PoolReady(pool) && 0 <= row <= end
    decreases end - row + 1, 0
    ensures Readable(r.1) && Readable(r.2)
  {
    var line := RenderColumns(columnTable, columns, row, rowCell, columnRange.start, columnRange.end, pool, acc);
    if line.0.Err? then (Err(line.0.error), rowTable, line.1)
    else RenderRows(rowTable, line.1, rows, columns, row + 1, end, columnRange, pool, line.0.value)
  }

  /** The row and column of each cell, in order. */
  function Pairs(cells: seq<Cell>): (s: seq<(int, int)>)
    ensures |s| == |cells|
    ensures forall k :: 0 <= k < |cells| ==> s[k] == (cells[k].row, cells[k].column)
  {
    seq(|cells|, k requires 0 <= k < |cells| => (cells[k].row, cells[k].column))
  }

  /** Row `row` across the columns `a..b`. */
  function Line(row: int, a: int, b: int): (s: seq<(int, int)>)
    ensures |s| == if a <= b then b - a + 1 else 0
    ensures forall k :: 0 <= k < |s| ==> s[k] == (row, a + k)
  {
    seq(if a <= b then b - a + 1 else 0, k => (row, a + k))
  }

  /** The rows `a..b` across `columns`, row by row. */
  function Block(a: int, b: int, columns: IndexRange): seq<(int, int)>
    decreases if a <= b then b - a + 1 else 0
  {
    if a > b then [] else Line(a, columns.start, columns.end) + Block(a + 1, b, columns)
  }

  /** Each cell carries the key `KeyOf` gives its row and column. */
  ghost predicate Keyed(cells: seq<Cell>, pool: Pool) {
    forall k :: 0 <= k < |cells| ==>
      && 0 <= cells[k].row && 0 <= cells[k].column && PoolReady(pool)
      && cells[k].key == KeyOf(cells[k].row, cells[k].column, pool)
  }

  /** The inner loop throws exactly when the columns are not empty and leave `0..count - 1`. */
  lemma {:induction false} RenderColumnsFails(t: Table, axis: Axis, row: nat, rowCell: Position, column: int, end: int, pool: Pool, acc: seq<Cell>)
    requires Readable(t) && PoolReady(pool)
    decreases if column <= end then end - column + 1 else 0
    ensures RenderColumns(t, axis, row, rowCell, column, end, pool, acc).0.Err? <==> column <= end && (column < 0 || axis.count <= end)
  {
    if column <= end {
      var cell := Lookup(t, axis.count, axis.getter, axis.est, column);
      if cell.0.Ok? {
        var acc' := acc + [Cell(row, column, KeyOf(row, column, pool), rowCell, cell.0.value)];
        RenderColumnsFails(cell.1, axis, row, rowCell, column + 1, end, pool, acc');
      }
    }
  }

  /** Otherwise the inner loop appends one keyed cell per column of `row`, in order. */
  lemma {:induction false} RenderColumnsCells(t: Table, axis: Axis, row: nat, rowCell: Position, column: int, end: int, pool: Pool, acc: seq<Cell>)
    requires Readable(t) && PoolReady(pool)
    decreases if column <= end then end - column + 1 else 0
    ensures var r := RenderColumns(t, axis, row, rowCell, column, end, pool, acc);
      r.0.Ok? ==> && Pairs(r.0.value) == Pairs(acc) + Line(row, column, end)
                  && (Keyed(acc, pool) ==> Keyed(r.0.value, pool))
  {
    if column <= end {
      var cell := Lookup(t, axis.count, axis.getter, axis.est, column);
      if cell.0.Ok? {
        var acc' := acc + [Cell(row, column, KeyOf(row, column, pool), rowCell, cell.0.value)];
        RenderColumnsStep(t, axis, row, rowCell, column, end, pool, acc, cell);
        RenderColumnsCells(cell.1, axis, row, rowCell, column + 1, end, pool, acc');
        assert Pairs(acc') == Pairs(acc) + [(row, column)];
        assert Line(row, column, end) == [(row, column)] + Line(row, column + 1, end);
      }
    }
  }

  /** A column `get` that throws ends the row, and the render, with its error. */
  lemma RenderColumnsThrows(t: Table, axis: Axis, row: nat, rowCell: Position, column: int, end: int, pool: Pool, acc: seq<Cell>, cell: (Result<Position, Error>, Table))
    requires Readable(t) && PoolReady(pool) && column <= end
    requires cell == Lookup(t, axis.count, axis.getter, axis.est, column) && cell.0.Err?
    ensures RenderColumns(t, axis, row, rowCell, column, end, pool, acc) == (Err(cell.0.error), cell.1)
  {
  }

  /** A column that was read leaves the rest of the row to the next turn. */
  lemma RenderColumnsStep(t: Table, axis: Axis, row: nat, rowCell: Position, column: int, end: int, pool: Pool, acc: seq<Cell>, cell: (Result<Position, Error>, Table))
    requires Readable(t) && PoolReady(pool) && column <= end
    requires cell == Lookup(t, axis.count, axis.getter, axis.est, column) && cell.0.Ok?
    ensures Readable(cell.1) && 0 <= column
    ensures RenderColumns(t, axis, row, rowCell, column, end, pool, acc)
         == RenderColumns(cell.1, axis, row, rowCell, column + 1, end, pool, acc + [Cell(row, column, KeyOf(row, column, pool), rowCell, cell.0.value)])
  {
  }

  /**
   * `renderGridCells` over rows `row..end` throws exactly when the rows are not empty and
   * either they or the columns leave their manager.
   */
  lemma {:induction false} RenderRowsFails(rowTable: Table, columnTable: Table, rows: Axis, columns: Axis, row: int, end: int, columnRange: IndexRange, pool: Pool, acc: seq<Cell>)
    requires Readable(rowTable) && Readable(columnTable) && PoolReady(pool)
    decreases if row <= end then end - row + 1 else 0
    ensures RenderRows(rowTable, columnTable, rows, columns, row, end, columnRange, pool, acc).0.Err?
      <==> row <= end && (row < 0 || rows.count <= end || !ListRendering.Fits(columnRange.start, columnRange.end, columns.count))
  {
    if row <= end {
      var cell := Lookup(rowTable, rows.count, rows.getter, rows.est, row);
      if cell.0.Ok? {
        var line := RenderColumns(columnTable, columns, row, cell.0.value, columnRange.start, columnRange.end, pool, acc);
        RenderColumnsFails(columnTable, columns, row, cell.0.value, columnRange.start, columnRange.end, pool, acc);
        if line.0.Ok? {
          RenderRowsStep(rowTable, columnTable, rows, columns, row, end, columnRange, pool, acc, cell, line);
          RenderRowsFails(cell.1, line.1, rows, columns, row + 1, end, columnRange, pool, line.0.value);
        }
      }
    }
  }

  /** Otherwise it appends the keyed cells of every row across every column, row by row. */
  lemma {:induction false} RenderRowsCells(rowTable: Table, columnTable: Table, rows: Axis, columns: Axis, row: int, end: int, columnRange: IndexRange, pool: Pool, acc: seq<Cell>)
    requires Readable(rowTable) && Readable(columnTable) && PoolReady(pool)
    decreases if row <= end then end - row + 1 else 0
    ensures var r := RenderRows(rowTable, columnTable, rows, columns, row, end, columnRange, pool, acc);
      r.0.Ok? ==> && Pairs(r.0.value) == Pairs(acc) + Block(row, end, columnRange)
                  && (Keyed(acc, pool) ==> Keyed(r.0.value, pool))
  {
    if row <= end {
      var cell := Lookup(rowTable, rows.count, rows.getter, rows.est, row);
      if cell.0.Ok? {
        var line := RenderColumns(columnTable, columns, row, cell.0.value, columnRange.start, columnRange.end, pool, acc);
        RenderColumnsCells(columnTable, columns, row, cell.0.value, columnRange.start, columnRange.end, pool, acc);
        if line.0.Ok? {
          RenderRowsStep(rowTable, columnTable, rows, columns, row, end, columnRange, pool, acc, cell, line);
          RenderRowsCells(cell.1, line.1, rows, columns, row + 1, end, columnRange, pool, line.0.value);
          BlockStep(row, end, columnRange);
        }
      }
    }
  }

  /** A row whose cells were all read leaves the rest of the rows to the next turn. */
  lemma RenderRowsStep(rowTable: Table, columnTable: Table, rows: Axis, columns: Axis, row: int, end: int, columnRange: IndexRange, pool: Pool, acc: seq<Cell>,
                       cell: (Result<Position, Error>, Table), line: (Result<seq<Cell>, Error>, Table))
    requires Readable(rowTable) && Readable(columnTable) && PoolReady(pool) && row <= end
    requires cell == Lookup(rowTable, rows.count, rows.getter, rows.est, row) && cell.0.Ok?
    requires line == RenderColumns(columnTable, columns, row, cell.0.value, columnRange.start, columnRange.end, pool, acc) && line.0.Ok?
    ensures Readable(cell.1) && Readable(line.1)
    ensures RenderRows(rowTable, columnTable, rows, columns, row, end, columnRange, pool, acc)
         == RenderRows(cell.1, line.1, rows, columns, row + 1, end, columnRange, pool, line.0.value)
  {
  }

  /** One row of `renderGridCells`: `get(row)` on the row manager, then that row's cells. */
  function RowCells(rowTable: Table, columnTable: Table, rows: Axis, columns: Axis, row: int, columnRange: IndexRange, pool: Pool, acc: seq<Cell>): (r: (Result<seq<Cell>, Error>, Table, Table))
    requires Readable(rowTable) && Readable(columnTable) && PoolReady(pool)
    ensures Readable(r.1) && Readable(r.2)
    ensures r.0.Ok? ==> |r.0.value| == |acc| + (if columnRange.start <= columnRange.end then columnRange.end - columnRange.start + 1 else 0)
  {
    var cell := Lookup(rowTable, rows.count, rows.getter, rows.est, row);
    if cell.0.Err? then (Err(cell.0.error), cell.1, columnTable) else
    var line := RenderColumns(columnTable, columns, row, cell.0.value, columnRange.start, columnRange.end, pool, acc);
    (line.0, cell.1, line.1)
  }

  /** The outer loop is one row after another, stopping at the first that throws. */
  lemma RenderRowsByRow(rowTable: Table, columnTable: Table, rows: Axis, columns: Axis, row: int, end: int, columnRange: IndexRange, pool: Pool, acc: seq<Cell>)
    requires Readable(rowTable) && Readable(columnTable) && PoolReady(pool) && row <= end
    ensures var step := RowCells(rowTable, columnTable, rows, columns, row, columnRange, pool, acc);
      RenderRows(rowTable, columnTable, rows, columns, row, end, columnRange, pool, acc)
        == if step.0.Err? then step else RenderRows(step.1, step.2, rows, columns, row + 1, end, columnRange, pool, step.0.value)
  {
  }

  /** A row `get` that throws ends the render with its error. */
  lemma RenderRowsThrows(rowTable: Table, columnTable: Table, rows: Axis, columns: Axis, row: int, end: int, columnRange: IndexRange, pool: Pool, acc: seq<Cell>,
                         cell: (Result<Position, Error>, Table))
    requires Readable(rowTable) && Readable(columnTable) && PoolReady(pool) && row <= end
    requires cell == Lookup(rowTable, rows.count, rows.getter, rows.est, row) && cell.0.Err?
    ensures RenderRows(rowTable, columnTable, rows, columns, row, end, columnRange, pool, acc) == (Err(cell.0.error), cell.1, columnTable)
  {
  }

  /** So does a row whose inner loop throws. */
  lemma RenderRowsLineThrows(rowTable: Table, columnTable: Table, rows: Axis, columns: Axis, row: int, end: int, columnRange: IndexRange, pool: Pool, acc: seq<Cell>,
                             cell: (Result<Position, Error>, Table), line: (Result<seq<Cell>, Error>, Table))
    requires Readable(rowTable) && Readable(columnTable) && PoolReady(pool) && row <= end
    requires cell == Lookup(rowTable, rows.count, rows.getter, rows.est, row) && cell.0.Ok?
    requires line == RenderColumns(columnTable, columns, row, cell.0.value, columnRange.start, columnRange.end, pool, acc) && line.0.Err?
    ensures RenderRows(rowTable, columnTable, rows, columns, row, end, columnRange, pool, acc) == (Err(line.0.error), cell.1, line.1)
  {
  }

  lemma BlockStep(a: int, b: int, columns: IndexRange)
    requires a <= b
    ensures Block(a, b, columns) == Line(a, columns.start, columns.end) + Block(a + 1, b, columns)
  {
  }

  /** `(r, c)` comes before `(r', c')` row by row. */
  predicate Before(p: (int, int), q: (int, int)) {
    p.0 < q.0 || (p.0 == q.0 && p.1 < q.1)
  }

  ghost predicate Ordered(s: seq<(int, int)>) {
    forall i, j :: 0 <= i < j < |s| ==> Before(s[i], s[j])
  }

  /** Every pair lies in rows `a..b` and in `columns`. */
  ghost predicate Inside(s: seq<(int, int)>, a: int, b: int, columns: IndexRange) {
    forall k :: 0 <= k < |s| ==> a <= s[k].0 <= b && columns.start <= s[k].1 <= columns.end
  }

  /** The block lists each cell of its rectangle once, row by row. */
  lemma {:induction false} BlockShape(a: int, b: int, columns: IndexRange)
    decreases if a <= b then b - a + 1 else 0
    ensures Ordered(Block(a, b, columns)) && Inside(Block(a, b, columns), a, b, columns)
  {
    if a <= b {
      var line := Line(a, columns.start, columns.end);
      var rest := Block(a + 1, b, columns);
      BlockShape(a + 1, b, columns);
      assert Block(a, b, columns) == line + rest;
      forall i, j | 0 <= i < j < |line + rest|
        ensures Before((line + rest)[i], (line + rest)[j])
      {
        if j < |line| {
        } else if i >= |line| {
          assert (line + rest)[i] == rest[i - |line|] && (line + rest)[j] == rest[j - |line|];
        } else {
          assert (line + rest)[j] == rest[j - |line|];
        }
      }
      forall k | 0 <= k < |line + rest|
        ensures a <= (line + rest)[k].0 <= b && columns.start <= (line + rest)[k].1 <= columns.end
      {
        if k >= |line| {
          assert (line + rest)[k] == rest[k - |line|];
        }
      }
    }
  }

  /**
   * Keyed cells listing a block of at most `y` rows and `x` columns have pairwise distinct
   * keys: two cells in different rows differ in `row % y`, in the same row in `column % x`.
   */
  lemma CellKeysDistinct(cells: seq<Cell>, pool: Pool, rows: IndexRange, columns: IndexRange)
    requires Keyed(cells, pool) && Pairs(cells) == Block(rows.start, rows.end, columns)
    requires rows.end - rows.start + 1 <= pool.y && columns.end - columns.start + 1 <= pool.x
    ensures forall i, j :: 0 <= i < j < |cells| ==> cells[i].key != cells[j].key
  {
    BlockShape(rows.start, rows.end, columns);
    var s := Pairs(cells);
    forall i, j | 0 <= i < j < |cells|
      ensures cells[i].key != cells[j].key
    {
      assert Before(s[i], s[j]);
      assert rows.start <= s[i].0 <= rows.end && rows.start <= s[j].0 <= rows.end;
      assert columns.start <= s[i].1 <= columns.end && columns.start <= s[j].1 <= columns.end;
      if cells[i].row < cells[j].row {
        ListRendering.PooledSlotsDiffer(cells[i].row, cells[j].row, pool.y);
      } else {
        ListRendering.PooledSlotsDiffer(cells[i].column, cells[j].column, pool.x);
      }
    }
  }
  /** The ranges one render works with: what each axis shows and what it renders. */
  datatype Sizing = Sizing(visibleRows: IndexRange, visibleColumns: IndexRange, renderedRows: IndexRange, renderedColumns: IndexRange)

  /**
   * `computePoolSize` with each axis found once: the pool starts at 3 by 3 when unset, the
   * row range then sets `y` and the column range `x`. The ranges are returned for the rest of
   * the render. Neither side shrinks, and each is longer than the range it was grown for.
   */
  function SizePool(rowTable: Table, columnTable: Table, rows: Axis, columns: Axis, props: GridProps, view: View, pool: Option<Pool>): (r: (Result<Sizing, Error>, Table, Table, Pool))
    requires Readable(rowTable) && Readable(columnTable)
    requires pool.Some? ==> PoolReady(pool.value)
    ensures Readable(r.1) && Readable(r.2) && PoolReady(r.3)
    ensures var before := pool.GetOr(InitialPool); r.3.x >= before.x && r.3.y >= before.y
    ensures r.0.Ok? ==>
      && r.0.value.renderedRows.end - r.0.value.renderedRows.start + 1 < r.3.y
      && r.0.value.renderedColumns.end - r.0.value.renderedColumns.start + 1 < r.3.x
  {
    var before := pool.GetOr(InitialPool);
    var visibleRows := FindRange(rowTable, rows.count, rows.getter, rows.est, view.scrollTop, props.containerHeight);
    if visibleRows.0.Err? then (Err(visibleRows.0.error), visibleRows.1, columnTable, before) else
    var renderedRows := OverScanRange(visibleRows.0.value, view.vertical, props.overscanCountVertical, props.rowCount);
    var y := GrowAxis(before.y, renderedRows);
    var visibleColumns := FindRange(columnTable, columns.count, columns.getter, columns.est, view.scrollLeft, props.containerWidth);
    if visibleColumns.0.Err? then (Err(visibleColumns.0.error), visibleRows.1, visibleColumns.1, Pool(before.x, y)) else
    var renderedColumns := OverScanRange(visibleColumns.0.value, view.horizontal, props.overscanCountHorizontal, props.columnCount);
    (Ok(Sizing(visibleRows.0.value, visibleColumns.0.value, renderedRows, renderedColumns)), visibleRows.1, visibleColumns.1, Pool(GrowAxis(before.x, renderedColumns), y))
  }

  /** `saveCurrentScrollState`: the first visible row and column and the cells `get` returns for them. */
  function SaveState(rowTable: Table, columnTable: Table, rows: Axis, columns: Axis, sizing: Sizing): (r: (Result<ScrollState, Error>, Table, Table))
    requires Readable(rowTable) && Readable(columnTable)
    ensures Readable(r.1) && Readable(r.2)
    ensures r.0.Ok? ==> && r.0.value.row == sizing.visibleRows.start && r.0.value.column == sizing.visibleColumns.start
                        && r.0.value.visibleRows == sizing.visibleRows && r.0.value.renderedRows == sizing.renderedRows
                        && r.0.value.visibleColumns == sizing.visibleColumns && r.0.value.renderedColumns == sizing.renderedColumns
  {
    var top := Lookup(rowTable, rows.count, rows.getter, rows.est, sizing.visibleRows.start);
    if top.0.Err? then (Err(top.0.error), top.1, columnTable) else
    var left := Lookup(columnTable, columns.count, columns.getter, columns.est, sizing.visibleColumns.start);
    if left.0.Err? then (Err(left.0.error), top.1, left.1) else
    (Ok(ScrollState(sizing.visibleRows.start, sizing.visibleColumns.start, top.0.value.offset, left.0.value.offset,
                    left.0.value.size, top.0.value.size, sizing.visibleRows, sizing.visibleColumns, sizing.renderedRows, sizing.renderedColumns)),
     top.1, left.1)
  }

  /**
   * `render` with each axis found once: `computePoolSize`, then the rest of the render for
   * the ranges it found. A `get` that throws ends the render with what was updated so far.
   */
  function Render(rowTable: Table, columnTable: Table, rows: Axis, columns: Axis, props: GridProps, view: View, pool: Option<Pool>, saved: Option<ScrollState>): (r: GridRender)
    requires Readable(rowTable) && Readable(columnTable)
    requires pool.Some? ==> PoolReady(pool.value)
    ensures Readable(r.rowTable) && Readable(r.columnTable) && PoolReady(r.pool)
  {
    var sized := SizePool(rowTable, columnTable, rows, columns, props, view, pool);
    if sized.0.Err? then GridRender(Err(sized.0.error), sized.1, sized.2, sized.3, saved)
    else RenderSized(sized.1, sized.2, rows, columns, sized.0.value, sized.3, saved)
  }

  /** `render` is `computePoolSize` followed, when that finds both ranges, by the rest of the render. */
  lemma RenderBySize(rowTable: Table, columnTable: Table, rows: Axis, columns: Axis, props: GridProps, view: View, pool: Option<Pool>, saved: Option<ScrollState>)
    requires Readable(rowTable) && Readable(columnTable)
    requires pool.Some? ==> PoolReady(pool.value)
    ensures var s := SizePool(rowTable, columnTable, rows, columns, props, view, pool);
      Render(rowTable, columnTable, rows, columns, props, view, pool, saved)
        == if s.0.Err? then GridRender(Err(s.0.error), s.1, s.2, s.3, saved) else RenderSized(s.1, s.2, rows, columns, s.0.value, s.3, saved)
  {
  }

  /** The rest of `render`: `saveCurrentScrollState`, the sizes for the contents slot, then `renderGridCells`. */
  function RenderSized(rowTable: Table, columnTable: Table, rows: Axis, columns: Axis, sizing: Sizing, pool: Pool, saved: Option<ScrollState>): (r: GridRender)
    requires Readable(rowTable) && Readable(columnTable) && PoolReady(pool)
    ensures Readable(r.rowTable) && Readable(r.columnTable) && r.pool == pool
  {
    var state := SaveState(rowTable, columnTable, rows, columns, sizing);
    if state.0.Err? then GridRender(Err(state.0.error), state.1, state.2, pool, saved) else
    var width := TotalSize(state.2, columns.count, columns.est);
    var height := TotalSize(state.1, rows.count, rows.est);
    var cells := RenderRows(state.1, state.2, rows, columns, sizing.renderedRows.start, sizing.renderedRows.end, sizing.renderedColumns, pool, []);
    GridRender(if cells.0.Err? then Err(cells.0.error) else Ok(Frame(width, height, cells.0.value)), cells.1, cells.2, pool, Some(state.0.value))
  }

  /**
   * A render that completes saves the ranges it rendered and renders exactly the cells of the
   * overscanned rows across the overscanned columns, row by row, under pairwise distinct keys;
   * the pool never shrinks.
   */
  lemma RenderKeysDistinct(rowTable: Table, columnTable: Table, rows: Axis, columns: Axis, props: GridProps, view: View, pool: Option<Pool>, saved: Option<ScrollState>)
    requires Readable(rowTable) && Readable(columnTable)
    requires pool.Some? ==> PoolReady(pool.value)
    ensures var r := Render(rowTable, columnTable, rows, columns, props, view, pool, saved);
      && r.pool.x >= pool.GetOr(InitialPool).x && r.pool.y >= pool.GetOr(InitialPool).y
      && (r.frame.Ok? ==>
        && r.saved.Some?
        && var s := r.saved.value;
        && Pairs(r.frame.value.cells) == Block(s.renderedRows.start, s.renderedRows.end, s.renderedColumns)
        && Keyed(r.frame.value.cells, r.pool)
        && forall i, j :: 0 <= i < j < |r.frame.value.cells| ==> r.frame.value.cells[i].key != r.frame.value.cells[j].key)
  {
    var sized := SizePool(rowTable, columnTable, rows, columns, props, view, pool);
    if sized.0.Ok? {
      SizedKeysDistinct(sized.1, sized.2, rows, columns, sized.0.value, sized.3, saved);
    }
  }

  /** The rest of `render`, for a pool larger than both rendered ranges, gives distinct keys. */
  lemma SizedKeysDistinct(rowTable: Table, columnTable: Table, rows: Axis, columns: Axis, sizing: Sizing, pool: Pool, saved: Option<ScrollState>)
    requires Readable(rowTable) && Readable(columnTable) && PoolReady(pool)
    requires sizing.renderedRows.end - sizing.renderedRows.start + 1 < pool.y
    requires sizing.renderedColumns.end - sizing.renderedColumns.start + 1 < pool.x
    ensures var r := RenderSized(rowTable, columnTable, rows, columns, sizing, pool, saved);
      r.frame.Ok? ==>
        && r.saved.Some?
        && var s := r.saved.value;
        && Pairs(r.frame.value.cells) == Block(s.renderedRows.start, s.renderedRows.end, s.renderedColumns)
        && Keyed(r.frame.value.cells, pool)
        && forall i, j :: 0 <= i < j < |r.frame.value.cells| ==> r.frame.value.cells[i].key != r.frame.value.cells[j].key
  {
    var r := RenderSized(rowTable, columnTable, rows, columns, sizing, pool, saved);
    if r.frame.Ok? {
      var state := SaveState(rowTable, columnTable, rows, columns, sizing);
      var cells := RenderRows(state.1, state.2, rows, columns, sizing.renderedRows.start, sizing.renderedRows.end, sizing.renderedColumns, pool, []);
      assert r.frame.value.cells == cells.0.value && r.saved == Some(state.0.value);
      RowsKeysDistinct(state.1, state.2, rows, columns, sizing.renderedRows, sizing.renderedColumns, pool);
    }
  }

  /** `renderGridCells` from no cells, for a pool covering both ranges, yields distinct keys. */
  lemma RowsKeysDistinct(rowTable: Table, columnTable: Table, rows: Axis, columns: Axis, rowRange: IndexRange, columnRange: IndexRange, pool: Pool)
    requires Readable(rowTable) && Readable(columnTable) && PoolReady(pool)
    requires rowRange.end - rowRange.start + 1 <= pool.y && columnRange.end - columnRange.start + 1 <= pool.x
    ensures var c := RenderRows(rowTable, columnTable, rows, columns, rowRange.start, rowRange.end, columnRange, pool, []);
      c.0.Ok? ==>
        && Pairs(c.0.value) == Block(rowRange.start, rowRange.end, columnRange)
        && Keyed(c.0.value, pool)
        && forall i, j :: 0 <= i < j < |c.0.value| ==> c.0.value[i].key != c.0.value[j].key
  {
    var c := RenderRows(rowTable, columnTable, rows, columns, rowRange.start, rowRange.end, columnRange, pool, []);
    RenderRowsCells(rowTable, columnTable, rows, columns, rowRange.start, rowRange.end, columnRange, pool, []);
    if c.0.Ok? {
      CellKeysDistinct(c.0.value, pool, rowRange, columnRange);
    }
  }

  /**
   * The row manager's side of `render` as written. `computePoolSize` reads `rendered.row.end`
   * and then `rendered.row.start`, each a new `find`, and sets `poolSize.y` from the two;
   * `saveCurrentScrollState` finds again and reads the first visible row; `renderGridCells`
   * finds once more and renders the rows of that last range. Every `find` may compute new
   * cells, so the four ranges need not agree. The result is the new `poolSize.y` and the rows
   * rendered.
   */
  function RowPassAsWritten(t: Table, rows: Axis, props: GridProps, view: View, y: int): (r: (Result<(int, IndexRange), Error>, Table))
    requires Readable(t)
    ensures Readable(r.1)
    ensures r.0.Ok? ==> r.0.value.0 >= y && 0 <= r.0.value.1.start && r.0.value.1.end <= props.rowCount - 1
  {
    var pool := RowPoolAsWritten(t, rows, props, view, y);
    if pool.0.Err? then (Err(pool.0.error), pool.1) else
    var rendered := RenderedRowsAsWritten(pool.1, rows, props, view);
    if rendered.0.Err? then (Err(rendered.0.error), rendered.1) else
    (Ok((pool.0.value, rendered.0.value)), rendered.1)
  }

  /** `computePoolSize` as written on the row side: `Math.max(y, end - start + 2)` from two `find`s. */
  function RowPoolAsWritten(t: Table, rows: Axis, props: GridProps, view: View, y: int): (r: (Result<int, Error>, Table))
    requires Readable(t)
    ensures Readable(r.1)
    ensures r.0.Ok? ==> r.0.value >= y
  {
    var forEnd := FindRange(t, rows.count, rows.getter, rows.est, view.scrollTop, props.containerHeight);
    if forEnd.0.Err? then (Err(forEnd.0.error), forEnd.1) else
    var end := OverScanRange(forEnd.0.value, view.vertical, props.overscanCountVertical, props.rowCount).end;
    var forStart := FindRange(forEnd.1, rows.count, rows.getter, rows.est, view.scrollTop, props.containerHeight);
    if forStart.0.Err? then (Err(forStart.0.error), forStart.1) else
    var start := OverScanRange(forStart.0.value, view.vertical, props.overscanCountVertical, props.rowCount).start;
    (Ok(Max(y, end - start + 2)), forStart.1)
  }

  /** The row side of `saveCurrentScrollState` and `renderGridCells` as written: two more `find`s. */
  function RenderedRowsAsWritten(t: Table, rows: Axis, props: GridProps, view: View): (r: (Result<IndexRange, Error>, Table))
    requires Readable(t)
    ensures Readable(r.1)
    ensures r.0.Ok? ==> 0 <= r.0.value.start && r.0.value.end <= props.rowCount - 1
  {
    var forSave := FindRange(t, rows.count, rows.getter, rows.est, view.scrollTop, props.containerHeight);
    if forSave.0.Err? then (Err(forSave.0.error), forSave.1) else
    var top := Lookup(forSave.1, rows.count, rows.getter, rows.est, forSave.0.value.start);
    if top.0.Err? then (Err(top.0.error), top.1) else
    var forCells := FindRange(top.1, rows.count, rows.getter, rows.est, view.scrollTop, props.containerHeight);
    if forCells.0.Err? then (Err(forCells.0.error), forCells.1) else
    (Ok(OverScanRange(forCells.0.value, view.vertical, props.overscanCountVertical, props.rowCount)), forCells.1)
  }

  /**
   * With both managers counting what the props count, a render completes exactly when there
   * is at least one row and one column; with none, `get` of the first visible cell throws.
   */
  lemma RenderCompletes(rowTable: Table, columnTable: Table, rows: Axis, columns: Axis, props: GridProps, view: View, pool: Option<Pool>, saved: Option<ScrollState>)
    requires Readable(rowTable) && Readable(columnTable)
    requires pool.Some? ==> PoolReady(pool.value)
    requires rows.count == props.rowCount && columns.count == props.columnCount
    ensures Render(rowTable, columnTable, rows, columns, props, view, pool, saved).frame.Ok? <==> 0 < props.rowCount && 0 < props.columnCount
  {
    var sized := SizePool(rowTable, columnTable, rows, columns, props, view, pool);
    if sized.0.Ok? {
      var sizing := sized.0.value;
      var state := SaveState(sized.1, sized.2, rows, columns, sizing);
      if state.0.Ok? {
        RenderRowsFails(state.1, state.2, rows, columns, sizing.renderedRows.start, sizing.renderedRows.end, sizing.renderedColumns, sized.3, []);
      }
    }
  }

  /** A row getter that measures every row at 2 pixels. */
  function TwoPixelRows(): SizeGetter {
    j => Some(2)
  }

  /** The tables of the scenario below: rows 0..n measured, each 2 pixels after the last. */
  function TwoPixelTable(n: nat): (t: Table)
    ensures Readable(t) && t.lastMeasuredIndex == n && t.lastDeferredIndex == -1
    ensures forall j :: 0 <= j <= n ==> j in t.store && t.store[j] == Position(2 * j, 2)
  {
    var before := if n == 0 then map[] else TwoPixelTable(n - 1).store;
    Table(before[n := Position(2 * n, 2)], n, -1)
  }

  /** The first `find` estimates 4 pixels in all, starts at row 0 and measures rows 0 and 1. */
  lemma FirstFind()
    ensures FindRange(EmptyTable, 4, TwoPixelRows(), 1, 3, 4) == (Ok(IndexRange(0, 1)), TwoPixelTable(1))
  {
    var g := TwoPixelRows();
    assert TotalSize(EmptyTable, 4, 1) == 4;
    var l0 := Lookup(EmptyTable, 4, g, 1, 0);
    assert l0 == (Ok(Position(0, 2)), TwoPixelTable(0));
    var l1 := Lookup(l0.1, 4, g, 1, 1);
    assert l1 == (Ok(Position(2, 2)), TwoPixelTable(1));
  }

  /** The second estimates 6, starts at row 1 and measures row 2. */
  lemma SecondFind()
    ensures FindRange(TwoPixelTable(1), 4, TwoPixelRows(), 1, 3, 4) == (Ok(IndexRange(1, 2)), TwoPixelTable(2))
  {
    var g := TwoPixelRows();
    var t := TwoPixelTable(1);
    assert TotalSize(t, 4, 1) == 6;
    assert Lookup(t, 4, g, 1, 1) == (Ok(Position(2, 2)), t);
    assert NearestCell(t, 4, g, 1, 2) == (1, t);
    var l2 := Lookup(t, 4, g, 1, 2);
    assert l2 == (Ok(Position(4, 2)), TwoPixelTable(2));
    assert Walk(t, 4, g, 1, 1, 4, 6) == (2, TwoPixelTable(2));
  }

  /** The third estimates 7, starts at row 1 and measures row 3. */
  lemma ThirdFind()
    ensures FindRange(TwoPixelTable(2), 4, TwoPixelRows(), 1, 3, 4) == (Ok(IndexRange(1, 3)), TwoPixelTable(3))
  {
    var g := TwoPixelRows();
    var t := TwoPixelTable(2);
    assert TotalSize(t, 4, 1) == 7;
    assert Lookup(t, 4, g, 1, 1) == (Ok(Position(2, 2)), t);
    assert Lookup(t, 4, g, 1, 2) == (Ok(Position(4, 2)), t);
    assert Search(t, 4, g, 1, 2, 3, 3) == (1, t);
    assert NearestCell(t, 4, g, 1, 3) == (1, t);
    var l3 := Lookup(t, 4, g, 1, 3);
    assert l3 == (Ok(Position(6, 2)), TwoPixelTable(3));
    assert Walk(t, 4, g, 1, 2, 6, 7) == (3, TwoPixelTable(3));
    assert Walk(t, 4, g, 1, 1, 4, 7) == (3, TwoPixelTable(3));
  }

  /** The fourth measures nothing new and sees rows 1..3 again. */
  lemma FourthFind()
    ensures FindRange(TwoPixelTable(3), 4, TwoPixelRows(), 1, 3, 4) == (Ok(IndexRange(1, 3)), TwoPixelTable(3))
  {
    var g := TwoPixelRows();
    var t := TwoPixelTable(3);
    assert TotalSize(t, 4, 1) == 8;
    assert Lookup(t, 4, g, 1, 1) == (Ok(Position(2, 2)), t);
    assert Lookup(t, 4, g, 1, 2) == (Ok(Position(4, 2)), t);
    assert Lookup(t, 4, g, 1, 3) == (Ok(Position(6, 2)), t);
    assert Search(t, 4, g, 1, 2, 3, 3) == (1, t);
    assert NearestCell(t, 4, g, 1, 3) == (1, t);
    assert Walk(t, 4, g, 1, 2, 6, 7) == (3, t);
    assert Walk(t, 4, g, 1, 1, 4, 7) == (3, t);
  }

  /**
   * Four rows measured at 2 pixels each but estimated at 1, a 4 pixel viewport scrolled to 3,
   * no overscan and a fresh row manager. The first `find` still estimates the total at 4 and
   * sees rows 0..1, the second sees 1..2, so `poolSize.y` stays 3; by the last `find` rows
   * 0..3 are rendered, and rows 0 and 3 receive the same key in every column.
   */
  lemma RowPoolTooSmallAsWritten()
    ensures var props := GridProps(4, 1, 1, 4, 1, 1, 0, 0);
      var r := RowPassAsWritten(EmptyTable, Axis(4, TwoPixelRows(), 1), props, View(3, 0, Forward, Forward), 3);
      && r.0 == Ok((3, IndexRange(0, 3)))
      && KeyOf(0, 0, Pool(1, 3)) == KeyOf(3, 0, Pool(1, 3))
  {
    var props := GridProps(4, 1, 1, 4, 1, 1, 0, 0);
    var rows := Axis(4, TwoPixelRows(), 1);
    var view := View(3, 0, Forward, Forward);
    ScenarioPool();
    ScenarioRendered();
    assert RowPassAsWritten(EmptyTable, rows, props, view, 3) == (Ok((3, IndexRange(0, 3))), TwoPixelTable(3));
  }

  /** In that scenario `computePoolSize` sees rows 0..1 and then 0..2 and keeps `poolSize.y` at 3. */
  lemma ScenarioPool()
    ensures RowPoolAsWritten(EmptyTable, Axis(4, TwoPixelRows(), 1), GridProps(4, 1, 1, 4, 1, 1, 0, 0), View(3, 0, Forward, Forward), 3)
         == (Ok(3), TwoPixelTable(2))
  {
    var rows := Axis(4, TwoPixelRows(), 1);
    var forEnd := FindRange(EmptyTable, rows.count, rows.getter, rows.est, 3, 4);
    FirstFind();
    assert forEnd == (Ok(IndexRange(0, 1)), TwoPixelTable(1));
    var forStart := FindRange(forEnd.1, rows.count, rows.getter, rows.est, 3, 4);
    SecondFind();
    assert forStart == (Ok(IndexRange(1, 2)), TwoPixelTable(2));
    assert OverScanRange(IndexRange(0, 1), Forward, 0, 4) == IndexRange(0, 1);
    assert OverScanRange(IndexRange(1, 2), Forward, 0, 4) == IndexRange(0, 2);
  }

  /** ... and `renderGridCells` then renders rows 0..3. */
  lemma ScenarioRendered()
    ensures RenderedRowsAsWritten(TwoPixelTable(2), Axis(4, TwoPixelRows(), 1), GridProps(4, 1, 1, 4, 1, 1, 0, 0), View(3, 0, Forward, Forward))
         == (Ok(IndexRange(0, 3)), TwoPixelTable(3))
  {
    ThirdFind();
    FourthFind();
    assert Lookup(TwoPixelTable(3), 4, TwoPixelRows(), 1, 1) == (Ok(Position(2, 2)), TwoPixelTable(3));
    assert OverScanRange(IndexRange(1, 3), Forward, 0, 4) == IndexRange(0, 3);
  }
}
