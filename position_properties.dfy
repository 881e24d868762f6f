/**
 * What `get`, `unset` and `find` of src/helpers.ts guarantee, proved on the model in
 * position_table.dfy.
 */
module PositionProperties {
  import opened Wrappers
  import opened HelperTypes
  import opened PositionTables

  /** A getter that has measured nothing. */
  function NoSizes(): SizeGetter {
    (i: int) => None
  }

  /** An exact table stores every cell up to `Top` where the current getter puts it. */
  lemma {:induction false} ExactEntry(t: Table, getter: SizeGetter, est: nat, j: nat)
    requires Exact(t, getter, est) && j <= Top(t)
    ensures t.store[j] == Canonical(getter, est, j)
    decreases j
  {
    assert SizeAgrees(t.store, getter, est, j);
    if j > 0 {
      ExactEntry(t, getter, est, j - 1);
      assert Follows(t.store, j);
    }
  }

  /** A fresh manager agrees with every getter. */
  lemma EmptyTableExact(getter: SizeGetter, est: nat)
    ensures Exact(EmptyTable, getter, est)
  {
  }

  /** Under `Exact`, the scan of `get` starts where the canonical cell after the last measured one does. */
  lemma {:induction false} MeasuredEndExact(t: Table, getter: SizeGetter, est: nat)
    requires Exact(t, getter, est)
    ensures MeasuredEnd(t) == CellOffset(getter, est, t.lastMeasuredIndex + 1)
  {
    if 0 <= t.lastMeasuredIndex {
      ExactEntry(t, getter, est, t.lastMeasuredIndex);
    }
  }

  /**
   * `get` on a table that agrees with the getter returns the canonical position (the sum of
   * the sizes before the cell, estimates standing in for unmeasured cells), keeps the table
   * in agreement and rewrites no cell it already held.
   */
  lemma {:induction false} LookupExact(t: Table, count: int, getter: SizeGetter, est: nat, index: int)
    requires Exact(t, getter, est)
    ensures var after := Lookup(t, count, getter, est, index);
      && Exact(after.1, getter, est)
      && (after.0.Ok? ==> after.0.value == Canonical(getter, est, index))
      && (forall j :: 0 <= j <= Top(t) ==> j in after.1.store && after.1.store[j] == t.store[j])
  {
    var r := Lookup(t, count, getter, est, index).0;
    var t' := Lookup(t, count, getter, est, index).1;
    if r.Ok? {
      if t' != t {
        var i := t.lastMeasuredIndex + 1;
        var offset := MeasuredEnd(t);
        ScanWrites(t, i, index, offset, getter, est);
        ScanFrame(t, i, index, offset, getter, est);
        ScanCursors(t, i, index, offset, getter, est);
        ScanUnmeasuredTail(t, i, index, offset, getter, est);
        forall j | 0 <= j <= Top(t') ensures SizeAgrees(t'.store, getter, est, j) {
          if j < i {
            assert SizeAgrees(t.store, getter, est, j);
          }
        }
      }
      assert Exact(t', getter, est);
      ExactEntry(t', getter, est, index);
      forall j | 0 <= j <= Top(t) ensures j in t'.store && t'.store[j] == t.store[j] {
        ExactEntry(t, getter, est, j);
        ExactEntry(t', getter, est, j);
      }
    }
  }

  /** What the search and the walk of `find` need of one `get`. */
  lemma LookupCanonical(t: Table, count: int, getter: SizeGetter, est: nat, index: int)
    requires Exact(t, getter, est) && 0 <= index < count
    ensures var after := Lookup(t, count, getter, est, index);
      after.0 == Ok(Canonical(getter, est, index)) && Exact(after.1, getter, est)
  {
    LookupExact(t, count, getter, est, index);
  }

  /**
   * A rescan over cells that the getter has not measured and that already hold the estimate
   * back to back rewrites them unchanged and only moves `lastDeferredIndex`.
   */
  lemma {:induction false} RescanUnmeasured(t: Table, i: int, index: int, offset: nat, getter: SizeGetter, est: nat)
    requires forall j :: i <= j <= index ==> j in t.store && Unmeasured(getter, j) && t.store[j].size == est
    requires i <= index ==> t.store[i].offset == offset
    requires forall j :: i < j <= index ==> Follows(t.store, j)
    decreases index + 1 - i
    ensures Scan(t, i, index, offset, getter, est)
         == Table(t.store, t.lastMeasuredIndex, if i <= index then index else t.lastDeferredIndex)
  {
    if i <= index {
      assert Unmeasured(getter, i);
      var step := ScanStep(t, i, offset, getter, est);
      assert step.0.store == t.store;
      if i < index {
        assert Follows(t.store, i + 1);
      }
      RescanUnmeasured(step.0, i + 1, index, step.1, getter, est);
    }
  }

  /** Repeating `get(index)` returns the same position and leaves the table as the first call did. */
  lemma {:induction false} LookupIdempotent(t: Table, count: int, getter: SizeGetter, est: nat, index: int)
    requires Contiguous(t)
    ensures var after := Lookup(t, count, getter, est, index);
      Lookup(after.1, count, getter, est, index) == after
  {
    var r := Lookup(t, count, getter, est, index).0;
    var t' := Lookup(t, count, getter, est, index).1;
    if r.Ok? && t' != t && index > t'.lastMeasuredIndex {
      var i := t.lastMeasuredIndex + 1;
      var offset := MeasuredEnd(t);
      ScanWrites(t, i, index, offset, getter, est);
      ScanCursors(t, i, index, offset, getter, est);
      ScanUnmeasuredTail(t, i, index, offset, getter, est);
      var m := t'.lastMeasuredIndex;
      assert t'.lastDeferredIndex == index;
      forall j | m + 1 <= j <= index
        ensures j in t'.store && Unmeasured(getter, j) && t'.store[j].size == est
      {
      }
      assert t'.store[m + 1].offset == MeasuredEnd(t') by {
        if 0 <= m {
          assert Follows(t'.store, m + 1);
        }
      }
      RescanUnmeasured(t', m + 1, index, MeasuredEnd(t'), getter, est);
    }
  }

  /**
   * `unset(index)` is what an item measure does after the measure cache changed: when the
   * new getter agrees with the old one on every cell before `index`, the rewound table
   * agrees with the new getter.
   */
  lemma UnsetRestoresExact(t: Table, getter: SizeGetter, getter': SizeGetter, est: nat, index: int)
    requires Exact(t, getter, est)
    requires forall k :: 0 <= k < index ==> getter'(k) == getter(k)
    ensures Exact(UnsetTable(t, index), getter', est)
  {
    var r := UnsetTable(t, index);
    forall j | 0 <= j <= Top(r) ensures SizeAgrees(r.store, getter', est, j) {
      assert SizeAgrees(t.store, getter, est, j);
      assert getter'(j) == getter(j);
    }
  }

  /** After `unset(index)`, `get` of any cell from `index` on takes its size from the getter again. */
  lemma {:induction false} UnsetRecomputes(t: Table, count: int, getter: SizeGetter, est: nat, index: int, j: int)
    requires Contiguous(t) && Max(0, index) <= j < count
    ensures var r := Lookup(UnsetTable(t, index), count, getter, est, j).0;
      r.Ok? && r.value.size == CellSize(getter, est, j)
  {
    var u := UnsetTable(t, index);
    ScanWrites(u, u.lastMeasuredIndex + 1, j, MeasuredEnd(u), getter, est);
  }

  /** Under `Exact`, `size` is the sum of the measured prefix plus the estimate for every later cell. */
  lemma {:induction false} TotalSizeExact(t: Table, count: int, getter: SizeGetter, est: nat)
    requires Readable(t)
    ensures Exact(t, getter, est) ==>
      TotalSize(t, count, est) == CellOffset(getter, est, t.lastMeasuredIndex + 1) + (count - t.lastMeasuredIndex - 1) * est
  {
    if Exact(t, getter, est) {
      MeasuredEndExact(t, getter, est);
    }
  }

  /** On an agreeing table the getter `lastMeasuredCell` is the canonical cell. */
  lemma {:induction false} LastMeasuredCellExact(t: Table, getter: SizeGetter, est: nat)
    requires Readable(t)
    ensures Exact(t, getter, est) && 0 <= t.lastMeasuredIndex ==> LastMeasuredCell(t) == Canonical(getter, est, t.lastMeasuredIndex)
  {
    if Exact(t, getter, est) && 0 <= t.lastMeasuredIndex {
      ExactEntry(t, getter, est, t.lastMeasuredIndex);
    }
  }

  /**
   * Cell `cell` is where binary search settles for `target`: it starts at or before `target`,
   * and it starts exactly there, is the last cell, or the next cell starts after `target`.
   */
  ghost predicate Holds(getter: SizeGetter, est: nat, count: int, cell: int, target: int) {
    && 0 <= cell < count
    && CellOffset(getter, est, cell) <= target
    && (CellOffset(getter, est, cell) == target || cell == count - 1 || target < CellOffset(getter, est, cell + 1))
  }

  /** `binarySearch` run on the canonical positions instead of the table. */
  ghost function CanonicalSearch(getter: SizeGetter, est: nat, low: nat, high: int, target: int): int
    decreases high - low + 1, 1
  {
    if low > high then
      (if low > 0 then low - 1 else 0)
    else
      CanonicalProbe(getter, est, low, high, target, low + (high - low) / 2)
  }

  /** One probe of the canonical search, at cell `mid` of `low..high`. */
  ghost function CanonicalProbe(getter: SizeGetter, est: nat, low: nat, high: int, target: int, mid: nat): int
    requires low <= mid <= high
    decreases high - low + 1, 0
  {
    var current := CellOffset(getter, est, mid);
    if current == target then mid
    else if current < target then CanonicalSearch(getter, est, mid + 1, high, target)
    else CanonicalSearch(getter, est, low, mid - 1, target)
  }

  /** On a table that agrees with the getter, `binarySearch` answers what the canonical search does. */
  lemma {:induction false} SearchCanonical(t: Table, count: int, getter: SizeGetter, est: nat, low: nat, high: int, target: int)
    requires Exact(t, getter, est) && high < count
    decreases high - low + 1, 1
    ensures var after := Search(t, count, getter, est, low, high, target);
      after.0 == CanonicalSearch(getter, est, low, high, target) && Exact(after.1, getter, est)
  {
    if low <= high {
      var mid := low + (high - low) / 2;
      var probe := Lookup(t, count, getter, est, mid);
      LookupCanonical(t, count, getter, est, mid);
      ProbeCanonical(probe.1, count, getter, est, low, high, target, mid, probe.0.value);
    }
  }

  /** A probe at the middle cell with its canonical position continues as the canonical search. */
  lemma {:induction false} ProbeCanonical(t: Table, count: int, getter: SizeGetter, est: nat, low: nat, high: int, target: int, mid: nat, cell: Position)
    requires Exact(t, getter, est) && low <= mid <= high < count
    requires cell == Canonical(getter, est, mid)
    decreases high - low + 1, 0
    ensures var after := Probe(t, count, getter, est, low, high, target, mid, cell);
      after.0 == CanonicalProbe(getter, est, low, high, target, mid) && Exact(after.1, getter, est)
  {
    if cell.offset < target {
      SearchCanonical(t, count, getter, est, mid + 1, high, target);
    } else if cell.offset > target {
      SearchCanonical(t, count, getter, est, low, mid - 1, target);
    }
  }

  /**
   * The canonical search over `low..high`, when everything before `low` starts before `target`
   * and everything after `high` starts after it, settles on the cell that holds `target`.
   */
  lemma {:induction false} CanonicalSearchHolds(getter: SizeGetter, est: nat, count: int, low: nat, high: int, target: int)
    requires low <= high + 1 && high < count && 0 <= target
    requires low == 0 || CellOffset(getter, est, low - 1) < target
    requires high == count - 1 || target < CellOffset(getter, est, high + 1)
    decreases high - low + 1
    ensures 0 < count ==> Holds(getter, est, count, CanonicalSearch(getter, est, low, high, target), target)
  {
    if low <= high {
      var mid := low + (high - low) / 2;
      var current := CellOffset(getter, est, mid);
      if current < target {
        CanonicalSearchHolds(getter, est, count, mid + 1, high, target);
      } else if current > target {
        CanonicalSearchHolds(getter, est, count, low, mid - 1, target);
      }
    }
  }

  /**
   * `binarySearch` over `low..high`, when everything before `low` starts before `target` and
   * everything after `high` starts after it, settles on the cell that holds `target`.
   */
  lemma SearchHolds(t: Table, count: int, getter: SizeGetter, est: nat, low: nat, high: int, target: int)
    requires Exact(t, getter, est) && low <= high + 1 && high < count && 0 <= target
    requires low == 0 || CellOffset(getter, est, low - 1) < target
    requires high == count - 1 || target < CellOffset(getter, est, high + 1)
    ensures var after := Search(t, count, getter, est, low, high, target);
      Exact(after.1, getter, est) && (0 < count ==> Holds(getter, est, count, after.0, target))
  {
    SearchCanonical(t, count, getter, est, low, high, target);
    CanonicalSearchHolds(getter, est, count, low, high, target);
  }

  /** The loop of `find` run on the canonical sizes instead of the table. */
  ghost function CanonicalWalk(getter: SizeGetter, est: nat, count: int, end: nat, offset: int, maxOffset: int): nat
    decreases count - end
  {
    if offset < maxOffset && end < count - 1 then
      CanonicalWalk(getter, est, count, end + 1, offset + CellSize(getter, est, end + 1), maxOffset)
    else
      end
  }

  /** On a table that agrees with the getter, the loop of `find` stops where the canonical one does. */
  lemma {:induction false} WalkCanonical(t: Table, count: int, getter: SizeGetter, est: nat, end: nat, offset: int, maxOffset: int)
    requires Exact(t, getter, est)
    decreases count - end, 1
    ensures var after := Walk(t, count, getter, est, end, offset, maxOffset);
      after.0 == CanonicalWalk(getter, est, count, end, offset, maxOffset) && Exact(after.1, getter, est)
  {
    if offset < maxOffset && end < count - 1 {
      var next := Lookup(t, count, getter, est, end + 1);
      LookupCanonical(t, count, getter, est, end + 1);
      AdvanceCanonical(next.1, count, getter, est, end + 1, offset, maxOffset, next.0.value);
    }
  }

  /** A turn of the loop that reads the canonical size continues as the canonical loop. */
  lemma {:induction false} AdvanceCanonical(t: Table, count: int, getter: SizeGetter, est: nat, end: nat, offset: int, maxOffset: int, cell: Position)
    requires Exact(t, getter, est) && end < count && cell == Canonical(getter, est, end)
    decreases count - end + 1, 0
    ensures var after := Advance(t, count, getter, est, end, offset, maxOffset, cell);
      after.0 == CanonicalWalk(getter, est, count, end, offset + CellSize(getter, est, end), maxOffset)
      && Exact(after.1, getter, est)
  {
    WalkCanonical(t, count, getter, est, end, offset + cell.size, maxOffset);
  }

  /**
   * The canonical loop, started after cell `end` with `offset` at the end of that cell, stops
   * at the first cell reaching `maxOffset` (or the last cell) and no earlier.
   */
  lemma {:induction false} CanonicalWalkCovers(getter: SizeGetter, est: nat, count: int, end: nat, offset: int, maxOffset: int)
    requires end < count && offset == CellOffset(getter, est, end + 1)
    decreases count - end
    ensures var r := CanonicalWalk(getter, est, count, end, offset, maxOffset);
      && end <= r < count
      && (r == count - 1 || maxOffset <= CellOffset(getter, est, r + 1))
      && (forall k :: end < k <= r ==> CellOffset(getter, est, k) < maxOffset)
  {
    if offset < maxOffset && end < count - 1 {
      CanonicalWalkCovers(getter, est, count, end + 1, offset + CellSize(getter, est, end + 1), maxOffset);
    }
  }

  /**
   * The loop of `find`, started after cell `end`, stops at the first cell reaching `maxOffset`
   * (or the last cell) and no earlier.
   */
  lemma WalkCovers(t: Table, count: int, getter: SizeGetter, est: nat, end: nat, offset: int, maxOffset: int)
    requires Exact(t, getter, est) && end < count && offset == CellOffset(getter, est, end + 1)
    ensures var after := Walk(t, count, getter, est, end, offset, maxOffset);
      && Exact(after.1, getter, est) && end <= after.0 < count
      && (after.0 == count - 1 || maxOffset <= CellOffset(getter, est, after.0 + 1))
      && (forall k :: end < k <= after.0 ==> CellOffset(getter, est, k) < maxOffset)
  {
    WalkCanonical(t, count, getter, est, end, offset, maxOffset);
    CanonicalWalkCovers(getter, est, count, end, offset, maxOffset);
  }

  /** The first cell `find` picks holds the clamped offset. */
  lemma {:induction false} FindStartHolds(t: Table, count: int, getter: SizeGetter, est: nat, clamped: int)
    requires Exact(t, getter, est) && 0 < count
    ensures var (start, t') := FindStart(t, count, getter, est, clamped);
      Exact(t', getter, est) && Holds(getter, est, count, start, Max(0, clamped))
  {
    if clamped != 0 {
      SearchHolds(t, count, getter, est, 0, count - 1, Max(0, clamped));
    }
  }

  /** From its first cell, `find` stops at the first cell reaching `maxOffset`, or at the last cell. */
  lemma {:induction false} FindFromCovers(t: Table, count: int, getter: SizeGetter, est: nat, start: int, maxOffset: int)
    requires Exact(t, getter, est) && 0 <= start < count
    ensures var (r, t') := FindFrom(t, count, getter, est, start, maxOffset);
      && Exact(t', getter, est)
      && (r.value.end == count - 1 || maxOffset <= CellOffset(getter, est, r.value.end + 1))
      && (forall k :: start < k <= r.value.end ==> CellOffset(getter, est, k) < maxOffset)
  {
    var (cell, t1) := Lookup(t, count, getter, est, start);
    LookupExact(t, count, getter, est, start);
    WalkCovers(t1, count, getter, est, start, End(cell.value), maxOffset);
  }

  /**
   * `find(offset, viewport)` on a table that agrees with the getter: the first cell holds the
   * clamped offset, the last cell is the first to reach past the viewport (or the last cell),
   * and the table still agrees with the getter.
   */
  lemma {:induction false} FindCoversViewport(t: Table, count: int, getter: SizeGetter, est: nat, offset: int, viewport: int)
    requires Exact(t, getter, est)
    ensures var (r, t') := FindRange(t, count, getter, est, offset, viewport);
      var size := TotalSize(t, count, est);
      var clamped := ClampedOffset(size, viewport, offset);
      && Exact(t', getter, est)
      && (size != 0 && r.Ok? ==>
          && Holds(getter, est, count, r.value.start, Max(0, clamped))
          && (r.value.end == count - 1 || clamped + viewport <= CellOffset(getter, est, r.value.end + 1))
          && (forall k :: r.value.start < k <= r.value.end ==> CellOffset(getter, est, k) < clamped + viewport))
  {
    var size := TotalSize(t, count, est);
    if size != 0 && 0 < count {
      var clamped := ClampedOffset(size, viewport, offset);
      var (start, t1) := FindStart(t, count, getter, est, clamped);
      FindStartHolds(t, count, getter, est, clamped);
      FindFromCovers(t1, count, getter, est, start, clamped + viewport);
    }
  }
}
