/**
 * `createPositionManager` of src/helpers.ts as an object: the store and the cursors are
 * fields that `get`, `unset` and `find` update in place. Each method is proved to do what
 * the matching function of position_table.dfy does to a `Table`.
 */
module PositionManagers {
  import opened Wrappers
  import opened HelperTypes
  import opened PositionTables
  import opened PositionProperties

  class PositionManager {
    var store: map<int, Position>
    var lastMeasuredIndex: int
    var lastDeferredIndex: int
    var count: int
    var estimatedCellSize: nat
    var sizeGetter: SizeGetter

    /** The store and the cursors as a value. */
    function Snapshot(): Table
      reads this
    {
      Table(store, lastMeasuredIndex, lastDeferredIndex)
    }

    /** The cells up to the higher cursor lie back to back from 0; every method keeps this. */
    ghost predicate Valid()
      reads this
    {
      Contiguous(Snapshot())
    }

    /** Every stored cell up to the higher cursor sits where the current getter puts it. */
    ghost predicate Agrees()
      reads this
    {
      Exact(Snapshot(), sizeGetter, estimatedCellSize)
    }

    constructor (count: int, estimatedCellSize: nat, sizeGetter: SizeGetter)
      ensures Valid() && Agrees() && Snapshot() == EmptyTable
      ensures this.count == count && this.estimatedCellSize == estimatedCellSize && this.sizeGetter == sizeGetter
    {
      store := map[];
      lastMeasuredIndex := -1;
      lastDeferredIndex := -1;
      this.count := count;
      this.estimatedCellSize := estimatedCellSize;
      this.sizeGetter := sizeGetter;
      new;
      EmptyTableExact(sizeGetter, estimatedCellSize);
    }

    /** The getter `length`. */
    function Length(): (n: int)
      reads this
      ensures n == count
    {
      count
    }

    /** The getter `lastMeasuredCell`: the cell at `lastMeasuredIndex`, `{0, 0}` before any. */
    function LastMeasuredCell(): (p: Position)
      reads this
      requires Valid()
      ensures lastMeasuredIndex < 0 ==> p == Position(0, 0)
      ensures 0 <= lastMeasuredIndex ==> p == store[lastMeasuredIndex]
      ensures Agrees() && 0 <= lastMeasuredIndex ==> p == Canonical(sizeGetter, estimatedCellSize, lastMeasuredIndex)
    {
      LastMeasuredCellExact(Snapshot(), sizeGetter, estimatedCellSize);
      PositionTables.LastMeasuredCell(Snapshot())
    }

    /**
     * The getter `size`. When the store agrees with the getter, it is the true extent of the
     * cells up to the last measured one plus an estimate for each later cell.
     */
    function Size(): (s: int)
      reads this
      requires Valid()
      ensures Agrees() ==> s == CellOffset(sizeGetter, estimatedCellSize, lastMeasuredIndex + 1) + (count - lastMeasuredIndex - 1) * estimatedCellSize
    {
      TotalSizeExact(Snapshot(), count, sizeGetter, estimatedCellSize);
      TotalSize(Snapshot(), count, estimatedCellSize)
    }

    /**
     * `configure`: each option replaces its field only when given and truthy (a count or an
     * estimate of 0 is ignored); the store and the cursors are untouched.
     */
    method Configure(newCount: Option<int>, newEstimatedCellSize: Option<nat>, newSizeGetter: Option<SizeGetter>)
      requires Valid()
      modifies this`count, this`estimatedCellSize, this`sizeGetter
      ensures Valid() && Snapshot() == old(Snapshot())
      ensures count == if newCount.Some? && newCount.value != 0 then newCount.value else old(count)
      ensures estimatedCellSize == if newEstimatedCellSize.Some? && newEstimatedCellSize.value != 0 then newEstimatedCellSize.value else old(estimatedCellSize)
      ensures sizeGetter == if newSizeGetter.Some? then newSizeGetter.value else old(sizeGetter)
      ensures old(Agrees()) && newEstimatedCellSize.None? && newSizeGetter.None? ==> Agrees()
    {
      if newCount.Some? && newCount.value != 0 {
        count := newCount.value;
      }
      if newEstimatedCellSize.Some? && newEstimatedCellSize.value != 0 {
        estimatedCellSize := newEstimatedCellSize.value;
      }
      if newSizeGetter.Some? {
        sizeGetter := newSizeGetter.value;
      }
    }

    /**
     * `unset(index)`: a non-number index is ignored; otherwise cell `index` is forgotten and
     * both cursors rewind to just before it. The source lets them fall below -1 for a negative
     * index; this method uses the corrected `UnsetTable`, which stops them at -1.
     */
    method Unset(index: Option<int>)
      requires Valid()
      modifies this`store, this`lastMeasuredIndex, this`lastDeferredIndex
      ensures Valid()
      ensures index.None? ==> Snapshot() == old(Snapshot())
      ensures index.Some? ==> Snapshot() == UnsetTable(old(Snapshot()), index.value)
      ensures index.Some? && index.value >= 0 ==> Snapshot() == UnsetTableAsWritten(old(Snapshot()), index.value)
    {
      if index.Some? {
        var t := UnsetTable(Snapshot(), index.value);
        store := t.store;
        lastMeasuredIndex := t.lastMeasuredIndex;
        lastDeferredIndex := t.lastDeferredIndex;
      }
    }

    /**
     * `get(index)`: an error outside `0..count - 1`; otherwise the stored cell when it is
     * current, after rescanning from `lastMeasuredIndex` when it is not.
     */
    method Get(index: int) returns (r: Result<Position, Error>)
      requires Valid()
      modifies this`store, this`lastMeasuredIndex, this`lastDeferredIndex
      ensures Valid()
      ensures (r, Snapshot()) == Lookup(old(Snapshot()), count, sizeGetter, estimatedCellSize, index)
    {
      if index < 0 || index >= count {
        return Err(IndexOutOfRange(index, count));
      }
      if index <= lastMeasuredIndex || index < lastDeferredIndex {
        return Ok(store[index]);
      }
      ghost var t0 := Snapshot();
      ScanPlaced(t0, Scan(t0, t0.lastMeasuredIndex + 1, index, MeasuredEnd(t0), sizeGetter, estimatedCellSize), index, sizeGetter, estimatedCellSize);
      Rescan(index);
      r := Ok(store[index]);
    }

    /**
     * The `for` loop of `get`: from the end of the last measured cell, store each cell after
     * `lastMeasuredIndex` up to `index` with its measured size (moving `lastMeasuredIndex`) or
     * the estimate (moving `lastDeferredIndex`).
     */
    method Rescan(index: int)
      requires Valid() && lastMeasuredIndex < index
      modifies this`store, this`lastMeasuredIndex, this`lastDeferredIndex
      ensures Snapshot() == Scan(old(Snapshot()), old(lastMeasuredIndex) + 1, index, MeasuredEnd(old(Snapshot())), sizeGetter, estimatedCellSize)
    {
      ghost var final := Scan(Snapshot(), lastMeasuredIndex + 1, index, MeasuredEnd(Snapshot()), sizeGetter, estimatedCellSize);
      var lastMeasured := LastMeasuredCell();
      var offset: nat := lastMeasured.offset + lastMeasured.size;
      var i := lastMeasuredIndex + 1;
      while i <= index
        invariant Scan(Snapshot(), i, index, offset, sizeGetter, estimatedCellSize) == final
        decreases index + 1 - i
      {
        ghost var before, start := Snapshot(), offset;
        var size := sizeGetter(i);
        match size {
          case None =>
            store := store[i := Position(offset, estimatedCellSize)];
            offset := offset + estimatedCellSize;
            lastDeferredIndex := i;
          case Some(s) =>
            store := store[i := Position(offset, s)];
            offset := offset + s;
            lastMeasuredIndex := i;
        }
        ScanContinues(before, Snapshot(), i, index, start, offset, sizeGetter, estimatedCellSize);
        i := i + 1;
      }
    }

    /**
     * `binarySearch(low, high, target)`: probe the middle cell with `get` until an offset
     * matches `target` or the range is empty, then answer `low - 1` (or 0).
     */
    method BinarySearch(low: int, high: int, target: int) returns (r: int)
      requires Valid() && 0 <= low && high < count
      modifies this`store, this`lastMeasuredIndex, this`lastDeferredIndex
      ensures Valid()
      ensures (r, Snapshot()) == Search(old(Snapshot()), count, sizeGetter, estimatedCellSize, low, high, target)
    {
      ghost var final := Search(Snapshot(), count, sizeGetter, estimatedCellSize, low, high, target);
      var lo, hi := low, high;
      while lo <= hi
        invariant Valid() && 0 <= lo && hi < count
        invariant Search(Snapshot(), count, sizeGetter, estimatedCellSize, lo, hi, target) == final
        decreases hi - lo + 1
      {
        var mid, cell := ProbeMiddle(lo, hi, target);
        if cell.offset == target {
          return mid;
        }
        ghost var probed := (lo, hi);
        if cell.offset < target {
          lo := mid + 1;
        } else {
          hi := mid - 1;
        }
        ProbeNarrows(Snapshot(), count, sizeGetter, estimatedCellSize, probed.0, probed.1, target, mid, cell, lo, hi);
      }
      if lo > 0 {
        return lo - 1;
      }
      return 0;
    }

    /** The probe of one round of the `binarySearch` loop: `get` the middle cell of `[lo, hi]`. */
    method ProbeMiddle(lo: int, hi: int, target: int) returns (mid: int, cell: Position)
      requires Valid() && 0 <= lo <= hi < count
      modifies this`store, this`lastMeasuredIndex, this`lastDeferredIndex
      ensures Valid() && lo <= mid <= hi
      ensures Search(old(Snapshot()), count, sizeGetter, estimatedCellSize, lo, hi, target) == Probe(Snapshot(), count, sizeGetter, estimatedCellSize, lo, hi, target, mid, cell)
    {
      mid := lo + (hi - lo) / 2;
      SearchProbes(Snapshot(), count, sizeGetter, estimatedCellSize, lo, hi, target);
      var r := Get(mid);
      cell := r.value;
    }

    /** `nearestCell(offset)`: the binary search over every cell for `max(0, offset)`. */
    method NearestCell(offset: int) returns (r: int)
      requires Valid()
      modifies this`store, this`lastMeasuredIndex, this`lastDeferredIndex
      ensures Valid()
      ensures (r, Snapshot()) == PositionTables.NearestCell(old(Snapshot()), count, sizeGetter, estimatedCellSize, offset)
    {
      r := BinarySearch(0, count - 1, Max(0, offset));
    }

    /**
     * `find(offset, viewport)`: `{0, 0}` for an empty extent; otherwise clamp `offset`, take
     * the cell holding it and extend `end` until the viewport is covered or no cell is left.
     * The `get` of the first cell fails when there are no cells.
     */
    method Find(offset: int, viewport: int) returns (r: Result<IndexRange, Error>)
      requires Valid()
      modifies this`store, this`lastMeasuredIndex, this`lastDeferredIndex
      ensures Valid()
      ensures (r, Snapshot()) == FindRange(old(Snapshot()), count, sizeGetter, estimatedCellSize, offset, viewport)
    {
      ghost var t0 := Snapshot();
      var size := TotalSize(Snapshot(), count, estimatedCellSize);
      if size == 0 {
        return Ok(IndexRange(0, 0));
      }
      var clamped := Min(size - viewport, Max(0, offset));
      var start := StartCell(clamped);
      FindRangeFromStart(t0, count, sizeGetter, estimatedCellSize, offset, viewport, (start, Snapshot()));
      r := CoverFrom(start, clamped + viewport);
    }

    /** The first cell of `find`: 0 for a clamped offset of 0, the nearest cell otherwise. */
    method StartCell(clamped: int) returns (start: int)
      requires Valid()
      modifies this`store, this`lastMeasuredIndex, this`lastDeferredIndex
      ensures Valid()
      ensures (start, Snapshot()) == FindStart(old(Snapshot()), count, sizeGetter, estimatedCellSize, clamped)
    {
      start := 0;
      if clamped != 0 {
        start := NearestCell(clamped);
      }
    }

    /** The rest of `find`: `get(start)`, then the loop that extends `end` to `maxOffset`. */
    method CoverFrom(start: int, maxOffset: int) returns (r: Result<IndexRange, Error>)
      requires Valid() && 0 <= start
      modifies this`store, this`lastMeasuredIndex, this`lastDeferredIndex
      ensures Valid()
      ensures (r, Snapshot()) == FindFrom(old(Snapshot()), count, sizeGetter, estimatedCellSize, start, maxOffset)
    {
      var cell := Get(start);
      if cell.Err? {
        return Err(cell.error);
      }
      var end := ExtendEnd(start, cell.value.offset + cell.value.size, maxOffset);
      r := Ok(IndexRange(start, end));
    }

    /**
     * The `while` loop of `find`: while `offset` is short of `maxOffset` and cells are left,
     * take the next cell with `get` and add its size to `offset`.
     */
    method ExtendEnd(start: int, offset: int, maxOffset: int) returns (end: int)
      requires Valid() && 0 <= start
      modifies this`store, this`lastMeasuredIndex, this`lastDeferredIndex
      ensures Valid()
      ensures (end, Snapshot()) == Walk(old(Snapshot()), count, sizeGetter, estimatedCellSize, start, offset, maxOffset)
    {
      ghost var final := Walk(Snapshot(), count, sizeGetter, estimatedCellSize, start, offset, maxOffset);
      var current := offset;
      end := start;
      while current < maxOffset && end < count - 1
        invariant Valid() && start <= end
        invariant Walk(Snapshot(), count, sizeGetter, estimatedCellSize, end, current, maxOffset) == final
        decreases count - end
      {
        WalkReads(Snapshot(), count, sizeGetter, estimatedCellSize, end, current, maxOffset);
        ghost var previous := current;
        end := end + 1;
        var next := Get(end);
        current := current + next.value.size;
        AdvanceWalks(Snapshot(), count, sizeGetter, estimatedCellSize, end, previous, maxOffset, next.value, current);
      }
    }
  }
}
