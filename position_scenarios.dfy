/**
 * Worked examples of the position manager: a list of 1000 cells estimated at 30 pixels
 * with nothing measured yet, and what `unset` with a negative index does to it.
 */
module PositionScenarios {
  import opened Wrappers
  import opened HelperTypes
  import opened PositionTables
  import opened PositionProperties

  /** With nothing measured, cell `j` starts at `j` estimates. */
  lemma {:induction false} AllDeferredOffset(est: nat, j: nat)
    ensures CellOffset(NoSizes(), est, j) == j * est
    decreases j
  {
    if j > 0 {
      AllDeferredOffset(est, j - 1);
      assert j * est == (j - 1) * est + est;
    }
  }

  /** `get(500)` on a fresh manager of 1000 cells estimated at 30 answers `{offset: 15000, size: 30}`. */
  lemma FreshLookup()
    ensures Lookup(EmptyTable, 1000, NoSizes(), 30, 500).0 == Ok(Position(15000, 30))
  {
    EmptyTableExact(NoSizes(), 30);
    LookupCanonical(EmptyTable, 1000, NoSizes(), 30, 500);
    AllDeferredOffset(30, 500);
  }

  /**
   * `find(150, 300)` on that manager: cell 5 starts exactly at 150 and cell 14 is the first
   * to reach 450, so the range is `{start: 5, end: 14}`.
   */
  lemma FreshFind()
    ensures FindRange(EmptyTable, 1000, NoSizes(), 30, 150, 300).0 == Ok(IndexRange(5, 14))
  {
    var g := NoSizes();
    EmptyTableExact(g, 30);
    FindCoversViewport(EmptyTable, 1000, g, 30, 150, 300);
    var r := FindRange(EmptyTable, 1000, g, 30, 150, 300).0.value;
    assert TotalSize(EmptyTable, 1000, 30) == 30000;
    AllDeferredOffset(30, r.start);
    AllDeferredOffset(30, r.start + 1);
    AllDeferredOffset(30, r.end + 1);
    AllDeferredOffset(30, 15);
  }

  /** A first cell read from a table with sound cursors always starts at offset 0. */
  lemma FirstCellStartsAtZero(t: Table, count: int, getter: SizeGetter, est: nat)
    requires Contiguous(t) && 0 < count
    ensures var r := Lookup(t, count, getter, est, 0).0;
      r.Ok? && r.value.offset == 0
  {
    if !(0 <= t.lastMeasuredIndex || 0 < t.lastDeferredIndex) {
      ScanWrites(t, t.lastMeasuredIndex + 1, 0, MeasuredEnd(t), getter, est);
    }
  }

  /**
   * `unset(-5)` as written, on a fresh manager: the cursors drop to -6, so the next
   * `get(0)` scans from cell -5 and places cell 0 at 150 instead of 0.
   */
  lemma UnsetNegativeAsWritten()
    ensures Lookup(UnsetTableAsWritten(EmptyTable, -5), 1000, NoSizes(), 30, 0).0 == Ok(Position(150, 30))
  {
    var t := UnsetTableAsWritten(EmptyTable, -5);
    assert t == Table(map[], -6, -6);
    var r := Scan(t, -5, 0, 0, NoSizes(), 30);
    ScanWrites(t, -5, 0, 0, NoSizes(), 30);
    assert Follows(r.store, -4) && Follows(r.store, -3) && Follows(r.store, -2);
    assert Follows(r.store, -1) && Follows(r.store, 0);
  }

  /** The corrected `unset(-5)` leaves the fresh manager as it was, and cell 0 at offset 0. */
  lemma UnsetNegativeCorrected()
    ensures UnsetTable(EmptyTable, -5) == EmptyTable
    ensures Lookup(UnsetTable(EmptyTable, -5), 1000, NoSizes(), 30, 0).0 == Ok(Position(0, 30))
  {
    assert EmptyTable.store - {-5} == map[];
    EmptyTableExact(NoSizes(), 30);
    LookupCanonical(EmptyTable, 1000, NoSizes(), 30, 0);
  }
}
