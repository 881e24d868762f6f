/**
 * `createScalingPositionManager` of src/helpers.ts: a position manager that never scales. It
 * copies the methods of the manager it creates and redefines the three getters so that they
 * read the live manager; every operation is therefore the wrapped manager's.
 */
module ScalingPositionManagers {
  import opened Wrappers
  import opened HelperTypes
  import opened PositionTables
  import opened PositionManagers

  class ScalingPositionManager {
    /** The manager built from the options other than `maxScrollSize`. */
    const manager: PositionManager

    /** The wrapped manager's invariant. */
    ghost predicate Valid()
      reads this, manager
    {
      manager.Valid()
    }

    /** `maxScrollSize` (1.5e9 when absent) is accepted and never read. */
    constructor (count: int, estimatedCellSize: nat, sizeGetter: SizeGetter, maxScrollSize: Option<int>)
      ensures fresh(manager) && Valid() && manager.Agrees() && manager.Snapshot() == EmptyTable
      ensures manager.count == count && manager.estimatedCellSize == estimatedCellSize && manager.sizeGetter == sizeGetter
    {
      manager := new PositionManager(count, estimatedCellSize, sizeGetter);
    }

    /** The getter `hasScaledOffsets`: offsets are never scaled. */
    function HasScaledOffsets(): (b: bool)
      ensures !b
    {
      false
    }

    /** The getter `length`, read from the live manager. */
    function Length(): (n: int)
      reads this, manager
      ensures n == manager.count
    {
      manager.Length()
    }

    /** The getter `size`, read from the live manager. */
    function Size(): (s: int)
      reads this, manager
      requires Valid()
      ensures s == TotalSize(manager.Snapshot(), manager.count, manager.estimatedCellSize)
    {
      manager.Size()
    }

    /** The getter `lastMeasuredCell`, read from the live manager. */
    function LastMeasuredCell(): (p: Position)
      reads this, manager
      requires Valid()
      ensures p == PositionTables.LastMeasuredCell(manager.Snapshot())
    {
      manager.LastMeasuredCell()
    }

    /** The copied `configure`. */
    method Configure(newCount: Option<int>, newEstimatedCellSize: Option<nat>, newSizeGetter: Option<SizeGetter>)
      requires Valid()
      modifies manager`count, manager`estimatedCellSize, manager`sizeGetter
      ensures Valid() && manager.Snapshot() == old(manager.Snapshot())
      ensures manager.count == if newCount.Some? && newCount.value != 0 then newCount.value else old(manager.count)
      ensures manager.estimatedCellSize == if newEstimatedCellSize.Some? && newEstimatedCellSize.value != 0 then newEstimatedCellSize.value else old(manager.estimatedCellSize)
      ensures manager.sizeGetter == if newSizeGetter.Some? then newSizeGetter.value else old(manager.sizeGetter)
    {
      manager.Configure(newCount, newEstimatedCellSize, newSizeGetter);
    }

    /** The copied `unset`: the wrapped manager's update, corrected for a negative index. */
    method Unset(index: Option<int>)
      requires Valid()
      modifies manager`store, manager`lastMeasuredIndex, manager`lastDeferredIndex
      ensures Valid()
      ensures index.None? ==> manager.Snapshot() == old(manager.Snapshot())
      ensures index.Some? ==> manager.Snapshot() == UnsetTable(old(manager.Snapshot()), index.value)
      ensures index.Some? && index.value >= 0 ==> manager.Snapshot() == UnsetTableAsWritten(old(manager.Snapshot()), index.value)
    {
      manager.Unset(index);
    }

    /** The copied `get`. */
    method Get(index: int) returns (r: Result<Position, Error>)
      requires Valid()
      modifies manager`store, manager`lastMeasuredIndex, manager`lastDeferredIndex
      ensures Valid()
      ensures (r, manager.Snapshot()) == Lookup(old(manager.Snapshot()), manager.count, manager.sizeGetter, manager.estimatedCellSize, index)
    {
      r := manager.Get(index);
    }

    /** The copied `find`. */
    method Find(offset: int, viewport: int) returns (r: Result<IndexRange, Error>)
      requires Valid()
      modifies manager`store, manager`lastMeasuredIndex, manager`lastDeferredIndex
      ensures Valid()
      ensures (r, manager.Snapshot()) == FindRange(old(manager.Snapshot()), manager.count, manager.sizeGetter, manager.estimatedCellSize, offset, viewport)
    {
      r := manager.Find(offset, viewport);
    }
  }
}
