/**
 * The state of `createPositionManager` in src/helpers.ts as a value: the cell store and
 * the two cursors, with the manager's algorithms as functions on it (`Lookup` for `get`,
 * `Search` for `binarySearch`, `Walk` for the loop of `find`, `FindRange` for `find`).
 * The class in position_manager.dfy runs these algorithms in place and is proved equal
 * to them.
 */
module PositionTables {
  import opened Wrappers
  import opened HelperTypes

  /** The `sizeGetter` option: a measured size, or None (`null`) for a cell not measured yet. */
  type SizeGetter = int -> Option<nat>

  /** `get` throws for an index outside `0..count - 1`. */
  datatype Error = IndexOutOfRange(index: int, count: int)

  /** The cell store with `lastMeasuredIndex` and `lastDeferredIndex`. */
  datatype Table = Table(store: map<int, Position>, lastMeasuredIndex: int, lastDeferredIndex: int)

  /** A fresh manager: nothing stored, both cursors at -1. */
  const EmptyTable := Table(map[], -1, -1)

  /** The highest index the store is known to hold. */
  function Top(t: Table): int {
    Max(t.lastMeasuredIndex, t.lastDeferredIndex)
  }

  /** Every cell up to the higher cursor is stored. */
  ghost predicate Readable(t: Table) {
    forall j :: 0 <= j <= Top(t) ==> j in t.store
  }

  /** Cell `j` starts where cell `j - 1` ends. */
  ghost predicate Follows(s: map<int, Position>, j: int) {
    j in s && j - 1 in s && s[j].offset == End(s[j - 1])
  }

  /**
   * The cells `0..Top` are stored back to back from offset 0, and neither cursor is below -1.
   * `get` and `unset` keep this.
   */
  ghost predicate Contiguous(t: Table) {
    && -1 <= t.lastMeasuredIndex && -1 <= t.lastDeferredIndex
    && Readable(t)
    && (0 <= Top(t) ==> t.store[0].offset == 0)
    && (forall j :: 0 < j <= Top(t) ==> Follows(t.store, j))
  }

  /** The size `get` gives cell `j`: the measured size, or the estimate. */
  function CellSize(getter: SizeGetter, est: nat, j: int): nat {
    getter(j).GetOr(est)
  }

  /** The sum of `CellSize` over the cells `0..j - 1`. */
  function CellOffset(getter: SizeGetter, est: nat, j: nat): nat {
    if j == 0 then 0 else CellOffset(getter, est, j - 1) + CellSize(getter, est, j - 1)
  }

  /** Where cell `j` belongs when every stored cell agrees with the current getter and estimate. */
  function Canonical(getter: SizeGetter, est: nat, j: nat): Position {
    Position(CellOffset(getter, est, j), CellSize(getter, est, j))
  }

  /**
   * The table agrees with `getter` and `est`: every stored cell up to `Top` has the size
   * `get` would compute now, and no cell after `lastMeasuredIndex` has a measured size.
   * `get`, `find` and `unset` keep this; `configure` of the estimate or the getter can break it.
   */
  ghost predicate Exact(t: Table, getter: SizeGetter, est: nat) {
    && Contiguous(t)
    && (forall j :: 0 <= j <= Top(t) ==> SizeAgrees(t.store, getter, est, j))
    && (forall j :: t.lastMeasuredIndex < j <= Top(t) ==> Unmeasured(getter, j))
  }

  /** Cell `j` is stored with the size the getter (or the estimate) gives it. */
  ghost predicate SizeAgrees(s: map<int, Position>, getter: SizeGetter, est: nat, j: int) {
    j in s && s[j].size == CellSize(getter, est, j)
  }

  /** The getter has no size for cell `j`. */
  predicate Unmeasured(getter: SizeGetter, j: int) {
    getter(j).None?
  }

  /** The getter `lastMeasuredCell`: `{0, 0}` before any measurement. */
  function LastMeasuredCell(t: Table): Position
    requires 0 <= t.lastMeasuredIndex ==> t.lastMeasuredIndex in t.store
  {
    if t.lastMeasuredIndex < 0 then Position(0, 0) else t.store[t.lastMeasuredIndex]
  }

  /** Where the last measured cell ends: `lastMeasuredCell.offset + lastMeasuredCell.size`. */
  function MeasuredEnd(t: Table): nat
    requires 0 <= t.lastMeasuredIndex ==> t.lastMeasuredIndex in t.store
  {
    if t.lastMeasuredIndex < 0 then 0 else End(t.store[t.lastMeasuredIndex])
  }

  /** The getter `size`: the end of the last measured cell plus an estimate for every later cell. */
  function TotalSize(t: Table, count: int, est: nat): int
    requires Readable(t)
  {
    MeasuredEnd(t) + (count - t.lastMeasuredIndex - 1) * est
  }

  /** One turn of the `for` loop of `get`: store cell `i` at `offset` and move one cursor onto it. */
  function ScanStep(t: Table, i: int, offset: nat, getter: SizeGetter, est: nat): (r: (Table, nat))
    ensures r.0.store == t.store[i := Position(offset, CellSize(getter, est, i))]
    ensures r.1 == offset + CellSize(getter, est, i)
  {
    match getter(i)
    case None => (Table(t.store[i := Position(offset, est)], t.lastMeasuredIndex, i), offset + est)
    case Some(size) => (Table(t.store[i := Position(offset, size)], i, t.lastDeferredIndex), offset + size)
  }

  /** The `for` loop of `get`: stores the cells `i..index` back to back from `offset`. */
  function Scan(t: Table, i: int, index: int, offset: nat, getter: SizeGetter, est: nat): (r: Table)
    decreases index + 1 - i
    ensures i <= index ==> index in r.store
  {
    if i > index then t
    else
      var (t1, o1) := ScanStep(t, i, offset, getter, est);
      Scan(t1, i + 1, index, o1, getter, est)
  }

  /** A scan that has stored cell `i` goes on from the cell after it. */
  lemma ScanContinues(t: Table, t': Table, i: int, index: int, offset: nat, offset': nat, getter: SizeGetter, est: nat)
    requires i <= index && (t', offset') == ScanStep(t, i, offset, getter, est)
    ensures Scan(t, i, index, offset, getter, est) == Scan(t', i + 1, index, offset', getter, est)
  {
  }

  /** Every scanned cell gets the measured size or the estimate, the cells back to back from `offset`. */
  lemma {:induction false} ScanWrites(t: Table, i: int, index: int, offset: nat, getter: SizeGetter, est: nat)
    decreases index + 1 - i
    ensures var r := Scan(t, i, index, offset, getter, est);
      && (forall j :: i <= j <= index ==> j in r.store && r.store[j].size == CellSize(getter, est, j))
      && (i <= index ==> r.store[i].offset == offset)
      && (forall j :: i < j <= index ==> Follows(r.store, j))
  {
    if i <= index {
      var (t1, o1) := ScanStep(t, i, offset, getter, est);
      ScanWrites(t1, i + 1, index, o1, getter, est);
      ScanFrame(t1, i + 1, index, o1, getter, est);
    }
  }

  /** Cells outside `i..index` are untouched by the scan. */
  lemma {:induction false} ScanFrame(t: Table, i: int, index: int, offset: nat, getter: SizeGetter, est: nat)
    decreases index + 1 - i
    ensures var r := Scan(t, i, index, offset, getter, est);
      forall j :: (j < i || index < j) ==> (j in r.store <==> j in t.store) && (j in t.store ==> r.store[j] == t.store[j])
  {
    if i <= index {
      var (t1, o1) := ScanStep(t, i, offset, getter, est);
      ScanFrame(t1, i + 1, index, o1, getter, est);
    }
  }

  /** No scanned cell after the final `lastMeasuredIndex` has a measured size. */
  lemma {:induction false} ScanUnmeasuredTail(t: Table, i: int, index: int, offset: nat, getter: SizeGetter, est: nat)
    decreases index + 1 - i
    ensures var r := Scan(t, i, index, offset, getter, est);
      forall j :: i <= j <= index && r.lastMeasuredIndex < j ==> Unmeasured(getter, j)
  {
    if i <= index {
      var (t1, o1) := ScanStep(t, i, offset, getter, est);
      ScanUnmeasuredTail(t1, i + 1, index, o1, getter, est);
      ScanCursors(t1, i + 1, index, o1, getter, est);
    }
  }

  /** Each cursor ends on the last scanned cell of its kind, or stays where it was. */
  lemma {:induction false} ScanCursors(t: Table, i: int, index: int, offset: nat, getter: SizeGetter, est: nat)
    decreases index + 1 - i
    ensures var r := Scan(t, i, index, offset, getter, est);
      && (r.lastMeasuredIndex == t.lastMeasuredIndex
          || (i <= r.lastMeasuredIndex <= index && getter(r.lastMeasuredIndex).Some?))
      && (r.lastDeferredIndex == t.lastDeferredIndex
          || (i <= r.lastDeferredIndex <= index && getter(r.lastDeferredIndex).None?))
      && (i <= index && getter(index).Some? ==> r.lastMeasuredIndex == index)
      && (i <= index && getter(index).None? ==> r.lastDeferredIndex == index)
  {
    if i <= index {
      var (t1, o1) := ScanStep(t, i, offset, getter, est);
      ScanCursors(t1, i + 1, index, o1, getter, est);
    }
  }

  /**
   * `get(index)`: an error outside `0..count - 1`; the stored cell when `index` is at most
   * `lastMeasuredIndex` or below `lastDeferredIndex`; otherwise every cell after
   * `lastMeasuredIndex` up to `index` is (re)computed first.
   */
  function Lookup(t: Table, count: int, getter: SizeGetter, est: nat, index: int): (r: (Result<Position, Error>, Table))
    requires Readable(t)
    ensures r.0.Err? <==> index < 0 || count <= index
    ensures r.0.Err? ==> r.1 == t
    ensures Readable(r.1) && (Contiguous(t) ==> Contiguous(r.1))
    ensures r.0.Ok? ==> Top(r.1) == Max(Top(t), index) && r.0.value == r.1.store[index]
  {
    if index < 0 || index >= count then
      (Err(IndexOutOfRange(index, count)), t)
    else if index <= t.lastMeasuredIndex || index < t.lastDeferredIndex then
      (Ok(t.store[index]), t)
    else
      var t' := Scan(t, t.lastMeasuredIndex + 1, index, MeasuredEnd(t), getter, est);
      ScanPlaced(t, t', index, getter, est);
      (Ok(t'.store[index]), t')
  }

  /** The rescan of `get` keeps the cells back to back. */
  lemma ScanPlaced(t: Table, t': Table, index: int, getter: SizeGetter, est: nat)
    requires Readable(t) && t.lastMeasuredIndex < index && t.lastDeferredIndex <= index
    requires t' == Scan(t, t.lastMeasuredIndex + 1, index, MeasuredEnd(t), getter, est)
    ensures Readable(t') && Top(t') == index
    ensures Contiguous(t) ==> Contiguous(t')
  {
    var i := t.lastMeasuredIndex + 1;
    var offset := MeasuredEnd(t);
    ScanWrites(t, i, index, offset, getter, est);
    ScanFrame(t, i, index, offset, getter, est);
    ScanCursors(t, i, index, offset, getter, est);
    forall j | 0 <= j <= index
      ensures j in t'.store
    {
      if j < i {
        assert j in t.store;
      }
    }
    if Contiguous(t) {
      assert t'.store[0].offset == 0 by {
        if 0 < i {
          assert 0 in t.store;
        }
      }
      forall j | 0 < j <= index
        ensures Follows(t'.store, j)
      {
        if j < i {
          assert Follows(t.store, j);
        } else if j == i {
          assert j - 1 in t.store;
        }
      }
    }
  }

  /**
   * `unset` as written: both cursors go to `min(index - 1, lastMeasuredIndex)`, which is
   * below -1 when `index` is negative.
   */
  function UnsetTableAsWritten(t: Table, index: int): (r: Table)
    ensures r.store == t.store - {index}
    ensures r.lastMeasuredIndex == r.lastDeferredIndex == Min(index - 1, t.lastMeasuredIndex)
    ensures index < 0 ==> r.lastMeasuredIndex < -1
  {
    var cursor := Min(index - 1, t.lastMeasuredIndex);
    Table(t.store - {index}, cursor, cursor)
  }

  /**
   * `unset(index)`: forget cell `index` and rewind both cursors to just before it (never
   * below -1), so every later `get` at or after `index` recomputes. For `index >= 0` this is
   * exactly the source's update.
   */
  function UnsetTable(t: Table, index: int): (r: Table)
    ensures r.store == t.store - {index}
    ensures r.lastMeasuredIndex == r.lastDeferredIndex <= Max(-1, t.lastMeasuredIndex)
    ensures r.lastMeasuredIndex < Max(0, index)
    ensures Contiguous(t) ==> Contiguous(r)
    ensures 0 <= index && -1 <= t.lastMeasuredIndex ==> r == UnsetTableAsWritten(t, index)
  {
    var cursor := Max(-1, Min(index - 1, t.lastMeasuredIndex));
    var r := Table(t.store - {index}, cursor, cursor);
    assert Contiguous(t) ==> Contiguous(r) by {
      if Contiguous(t) {
        forall j | 0 < j <= Top(r)
          ensures Follows(r.store, j)
        {
          assert Follows(t.store, j);
        }
      }
    }
    r
  }

  /**
   * The loop of `binarySearch(low, high, target)`: while the range is not empty, probe its
   * middle cell with `get`; when the range is empty, answer `low - 1` (or 0).
   */
  function Search(t: Table, count: int, getter: SizeGetter, est: nat, low: int, high: int, target: int): (r: (int, Table))
    requires Readable(t) && 0 <= low && high < count
    decreases high - low + 1, 1
    ensures Readable(r.1) && (Contiguous(t) ==> Contiguous(r.1))
    ensures high < low ==> r.0 == Max(0, low - 1) && r.1 == t
    ensures low <= high ==> Max(0, low - 1) <= r.0 <= high
  {
    if low > high then
      (if low > 0 then low - 1 else 0, t)
    else
      var mid := low + (high - low) / 2;
      var probe := Lookup(t, count, getter, est, mid);
      Probe(probe.1, count, getter, est, low, high, target, mid, probe.0.value)
  }

  /**
   * One probe of `binarySearch`: `cell` is what `get(mid)` returned and `t` the table after it.
   * An exact offset match answers `mid`; otherwise the search goes on in the half that can
   * hold `target`.
   */
  function Probe(t: Table, count: int, getter: SizeGetter, est: nat, low: int, high: int, target: int, mid: int, cell: Position): (r: (int, Table))
    requires Readable(t) && 0 <= low <= mid <= high < count
    decreases high - low + 1, 0
    ensures Readable(r.1) && (Contiguous(t) ==> Contiguous(r.1))
    ensures Max(0, low - 1) <= r.0 <= high
  {
    if cell.offset == target then (mid, t)
    else if cell.offset < target then Search(t, count, getter, est, mid + 1, high, target)
    else Search(t, count, getter, est, low, mid - 1, target)
  }


  /** A non-empty `binarySearch` is a probe of its middle cell. */
  lemma SearchProbes(t: Table, count: int, getter: SizeGetter, est: nat, low: int, high: int, target: int)
    requires Readable(t) && 0 <= low <= high < count
    ensures var mid := low + (high - low) / 2;
      var probe := Lookup(t, count, getter, est, mid);
      Search(t, count, getter, est, low, high, target) == Probe(probe.1, count, getter, est, low, high, target, mid, probe.0.value)
  {
  }

  /** A probe that misses `target` leaves the search of the half that can still hold it. */
  lemma ProbeNarrows(t: Table, count: int, getter: SizeGetter, est: nat, low: int, high: int, target: int, mid: int, cell: Position, low': int, high': int)
    requires Readable(t) && 0 <= low <= mid <= high < count
    requires cell.offset < target ==> low' == mid + 1 && high' == high
    requires cell.offset > target ==> low' == low && high' == mid - 1
    requires cell.offset != target
    ensures Probe(t, count, getter, est, low, high, target, mid, cell) == Search(t, count, getter, est, low', high', target)
  {
  }

  /** `nearestCell(offset)`: a binary search over all cells for `max(0, offset)`. */
  function NearestCell(t: Table, count: int, getter: SizeGetter, est: nat, offset: int): (r: (int, Table))
    requires Readable(t)
    ensures Readable(r.1) && (Contiguous(t) ==> Contiguous(r.1))
    ensures 0 <= r.0 && (0 < count ==> r.0 < count)
  {
    Search(t, count, getter, est, 0, count - 1, Max(0, offset))
  }

  /**
   * The `while` loop of `find`: extend `end` one cell at a time, adding each cell's size to
   * `offset`, until `offset` reaches `maxOffset` or `end` is the last cell.
   */
  function Walk(t: Table, count: int, getter: SizeGetter, est: nat, end: int, offset: int, maxOffset: int): (r: (int, Table))
    requires Readable(t) && 0 <= end
    decreases count - end, 1
    ensures Readable(r.1) && (Contiguous(t) ==> Contiguous(r.1))
    ensures end <= r.0 && (end < count ==> r.0 < count)
  {
    if offset < maxOffset && end < count - 1 then
      var next := Lookup(t, count, getter, est, end + 1);
      Advance(next.1, count, getter, est, end + 1, offset, maxOffset, next.0.value)
    else
      (end, t)
  }


  /** One turn of that loop: `cell` is what `get(end)` returned for the new `end`, `t` the table after it. */
  function Advance(t: Table, count: int, getter: SizeGetter, est: nat, end: int, offset: int, maxOffset: int, cell: Position): (r: (int, Table))
    requires Readable(t) && 0 <= end < count
    decreases count - end + 1, 0
    ensures Readable(r.1) && (Contiguous(t) ==> Contiguous(r.1))
    ensures end <= r.0 < count
  {
    Walk(t, count, getter, est, end, offset + cell.size, maxOffset)
  }

  /** A turn of the `find` loop reads the next cell and advances past it. */
  lemma WalkReads(t: Table, count: int, getter: SizeGetter, est: nat, end: int, offset: int, maxOffset: int)
    requires Readable(t) && 0 <= end && offset < maxOffset && end < count - 1
    ensures var next := Lookup(t, count, getter, est, end + 1);
      Walk(t, count, getter, est, end, offset, maxOffset) == Advance(next.1, count, getter, est, end + 1, offset, maxOffset, next.0.value)
  {
  }

  /** Advancing past `cell` goes on walking from the offset where it ends. */
  lemma AdvanceWalks(t: Table, count: int, getter: SizeGetter, est: nat, end: int, offset: int, maxOffset: int, cell: Position, offset': int)
    requires Readable(t) && 0 <= end < count && offset' == offset + cell.size
    ensures Advance(t, count, getter, est, end, offset, maxOffset, cell) == Walk(t, count, getter, est, end, offset', maxOffset)
  {
  }

  /** The offset `find` starts from: the requested offset, clamped to `0..size - viewport`. */
  function ClampedOffset(size: int, viewport: int, offset: int): (r: int)
    ensures r <= size - viewport
    ensures r == size - viewport || r == Max(0, offset)
  {
    Min(size - viewport, Max(0, offset))
  }

  /** The first cell of `find`: cell 0 for a clamped offset of 0, otherwise `nearestCell`. */
  function FindStart(t: Table, count: int, getter: SizeGetter, est: nat, clamped: int): (r: (int, Table))
    requires Readable(t)
    ensures Readable(r.1) && (Contiguous(t) ==> Contiguous(r.1))
    ensures 0 <= r.0 && (0 < count ==> r.0 < count)
  {
    if clamped == 0 then (0, t) else NearestCell(t, count, getter, est, clamped)
  }

  /** The rest of `find`: `get(start)`, then the loop up to `maxOffset`. */
  function FindFrom(t: Table, count: int, getter: SizeGetter, est: nat, start: int, maxOffset: int): (r: (Result<IndexRange, Error>, Table))
    requires Readable(t) && 0 <= start
    ensures Readable(r.1) && (Contiguous(t) ==> Contiguous(r.1))
    ensures r.0.Ok? <==> start < count
    ensures r.0.Ok? ==> r.0.value.start == start <= r.0.value.end < count
  {
    var (cell, t') := Lookup(t, count, getter, est, start);
    match cell
    case Err(e) => (Err(e), t')
    case Ok(p) =>
      var (end, t'') := Walk(t', count, getter, est, start, End(p), maxOffset);
      (Ok(IndexRange(start, end)), t'')
  }

  /**
   * `find(offset, viewport)`: `{0, 0}` when the total size is 0; otherwise the cells from the
   * one holding the clamped offset to the first one reaching past the viewport, computing
   * cells with `get` on the way (an error when there are no cells to get).
   */
  function FindRange(t: Table, count: int, getter: SizeGetter, est: nat, offset: int, viewport: int): (r: (Result<IndexRange, Error>, Table))
    requires Readable(t)
    ensures Readable(r.1) && (Contiguous(t) ==> Contiguous(r.1))
    ensures TotalSize(t, count, est) == 0 ==> r == (Ok(IndexRange(0, 0)), t)
    ensures TotalSize(t, count, est) != 0 ==> (r.0.Ok? <==> 0 < count)
    ensures TotalSize(t, count, est) != 0 && r.0.Ok? ==> 0 <= r.0.value.start <= r.0.value.end < count
  {
    var size := TotalSize(t, count, est);
    if size == 0 then
      (Ok(IndexRange(0, 0)), t)
    else
      var clamped := ClampedOffset(size, viewport, offset);
      var first := FindStart(t, count, getter, est, clamped);
      FindFrom(first.1, count, getter, est, first.0, clamped + viewport)
  }

  /** A non-empty `find` is the cover that starts at the cell holding the clamped offset. */
  lemma FindRangeFromStart(t: Table, count: int, getter: SizeGetter, est: nat, offset: int, viewport: int, first: (int, Table))
    requires Readable(t) && TotalSize(t, count, est) != 0
    requires first == FindStart(t, count, getter, est, ClampedOffset(TotalSize(t, count, est), viewport, offset))
    ensures FindRange(t, count, getter, est, offset, viewport) == FindFrom(first.1, count, getter, est, first.0, ClampedOffset(TotalSize(t, count, est), viewport, offset) + viewport)
  {
  }
}
