/**
 * The state a list component of src/components/abstract-list.ts keeps between renders and
 * the methods that update it: the watchers, the pending-render flag, the range cache and
 * the keep-alive pool. Rendering is proved to compute what list_render.dfy describes.
 */
module AbstractLists {
  import opened Wrappers
  import opened Constants
  import opened HelperTypes
  import opened OverScan
  import opened PositionTables
  import opened PositionManagers
  import opened ListRendering

  /** What the `visible` getter returns from the cache `cache`, or by a `find` on a miss. */
  function VisibleRange(cache: Option<IndexRange>, t: Table, count: int, getter: SizeGetter, est: nat, props: ListProps): (r: (Result<IndexRange, Error>, Table))
    requires Readable(t)
    ensures cache.Some? ==> r == (Ok(cache.value), t)
  {
    if cache.Some? then (Ok(cache.value), t) else FindRange(t, count, getter, est, props.scrollOffset, props.viewportSize)
  }

  class AbstractList {
    /** The position manager built in `created` from `itemsCount` and `estimatedItemSize`. */
    const manager: PositionManager
    var props: ListProps
    var scrollDirection: ScrollDirection
    /** `keepAliveInstancePoolSize`; 0 until the first render sets it. */
    var keepAliveInstancePoolSize: nat
    var hasPendingRender: bool
    /** `_rangeCache.visible`. */
    var rangeCache: Option<IndexRange>
    /** Callbacks handed to `$nextTick`, not yet run. */
    var scheduledTicks: nat
    /** Calls of `$forceUpdate` made by those callbacks. */
    var forcedUpdates: nat

    ghost predicate Valid()
      reads this, manager
    {
      manager.Valid()
    }

    /** `data` and `created`: the direction starts forward, the caches empty, nothing pending. */
    constructor (props: ListProps, sizeGetter: SizeGetter)
      ensures fresh(manager) && Valid() && manager.Agrees() && manager.Snapshot() == EmptyTable
      ensures manager.count == props.itemsCount && manager.estimatedCellSize == props.estimatedItemSize && manager.sizeGetter == sizeGetter
      ensures this.props == props && scrollDirection == Forward && keepAliveInstancePoolSize == 0
      ensures !hasPendingRender && rangeCache == None && scheduledTicks == 0 && forcedUpdates == 0
    {
      manager := new PositionManager(props.itemsCount, props.estimatedItemSize, sizeGetter);
      this.props := props;
      scrollDirection := Forward;
      keepAliveInstancePoolSize := 0;
      hasPendingRender := false;
      rangeCache := None;
      scheduledTicks := 0;
      forcedUpdates := 0;
    }

    /**
     * `forceRenderInTick`: while a render is pending nothing happens; otherwise the flag is
     * raised and exactly one callback is handed to `$nextTick`.
     */
    method ForceRenderInTick()
      modifies this`hasPendingRender, this`scheduledTicks
      ensures hasPendingRender
      ensures scheduledTicks == old(scheduledTicks) + if old(hasPendingRender) then 0 else 1
    {
      if hasPendingRender {
        return;
      }
      hasPendingRender := true;
      scheduledTicks := scheduledTicks + 1;
    }

    /** The `$nextTick` callback: it calls `$forceUpdate`. */
    method Tick()
      requires scheduledTicks > 0
      modifies this`scheduledTicks, this`forcedUpdates
      ensures scheduledTicks == old(scheduledTicks) - 1 && forcedUpdates == old(forcedUpdates) + 1
    {
      scheduledTicks := scheduledTicks - 1;
      forcedUpdates := forcedUpdates + 1;
    }

    /** `onItemMeasure(index)`: forget the cell at `index` and ask for a render. */
    method OnItemMeasure(index: int)
      requires Valid()
      modifies this`hasPendingRender, this`scheduledTicks, manager`store, manager`lastMeasuredIndex, manager`lastDeferredIndex
      ensures Valid() && manager.Snapshot() == UnsetTable(old(manager.Snapshot()), index)
      ensures hasPendingRender
      ensures scheduledTicks == old(scheduledTicks) + if old(hasPendingRender) then 0 else 1
    {
      manager.Unset(Some(index));
      ForceRenderInTick();
    }

    /**
     * The `itemsCount` watcher: the manager is reconfigured and a render requested only when
     * its length differs from the new count. A new count of 0 is passed on but ignored by
     * `configure`, which only takes truthy counts.
     */
    method ItemsCountWatcher(newCount: int)
      requires Valid()
      modifies manager`count, manager`estimatedCellSize, manager`sizeGetter, this`hasPendingRender, this`scheduledTicks
      ensures Valid() && manager.Snapshot() == old(manager.Snapshot())
      ensures manager.estimatedCellSize == old(manager.estimatedCellSize) && manager.sizeGetter == old(manager.sizeGetter)
      ensures old(manager.count) == newCount ==> manager.count == newCount && hasPendingRender == old(hasPendingRender) && scheduledTicks == old(scheduledTicks)
      ensures old(manager.count) != newCount ==>
        && manager.count == (if newCount != 0 then newCount else old(manager.count))
        && hasPendingRender
        && scheduledTicks == old(scheduledTicks) + if old(hasPendingRender) then 0 else 1
    {
      if manager.Length() != newCount {
        manager.Configure(Some(newCount), None, None);
        ForceRenderInTick();
      }
    }

    /** The parent passes a new `itemsCount`; Vue runs the watcher when the value changed. */
    method SetItemsCount(newCount: int)
      requires Valid()
      modifies this`props, manager`count, manager`estimatedCellSize, manager`sizeGetter, this`hasPendingRender, this`scheduledTicks
      ensures Valid() && manager.Snapshot() == old(manager.Snapshot())
      ensures manager.estimatedCellSize == old(manager.estimatedCellSize) && manager.sizeGetter == old(manager.sizeGetter)
      ensures props == old(props).(itemsCount := newCount)
      ensures old(props.itemsCount) == newCount ==> manager.count == old(manager.count) && hasPendingRender == old(hasPendingRender) && scheduledTicks == old(scheduledTicks)
      ensures old(props.itemsCount) != newCount && old(manager.count) != newCount ==>
        && manager.count == (if newCount != 0 then newCount else old(manager.count))
        && hasPendingRender
        && scheduledTicks == old(scheduledTicks) + if old(hasPendingRender) then 0 else 1
      ensures old(manager.count) == newCount ==> manager.count == newCount && hasPendingRender == old(hasPendingRender) && scheduledTicks == old(scheduledTicks)
    {
      var previous := props.itemsCount;
      props := props.(itemsCount := newCount);
      if previous != newCount {
        ItemsCountWatcher(newCount);
      }
    }

    /** The `scrollOffset` watcher: forward exactly when the offset grew, a missing old offset counting as 0. */
    method ScrollOffsetWatcher(newOffset: int, oldOffset: Option<int>)
      modifies this`scrollDirection
      ensures scrollDirection == Forward <==> oldOffset.GetOr(0) < newOffset
    {
      scrollDirection := if oldOffset.GetOr(0) < newOffset then Forward else Reverse;
    }

    /** The parent passes a new `scrollOffset`; Vue runs the watcher with the old value when it changed. */
    method SetScrollOffset(newOffset: int)
      modifies this`props, this`scrollDirection
      ensures props == old(props).(scrollOffset := newOffset)
      ensures old(props.scrollOffset) != newOffset ==> (scrollDirection == Forward <==> old(props.scrollOffset) < newOffset)
      ensures old(props.scrollOffset) == newOffset ==> scrollDirection == old(scrollDirection)
    {
      var previous := props.scrollOffset;
      props := props.(scrollOffset := newOffset);
      if previous != newOffset {
        ScrollOffsetWatcher(newOffset, Some(previous));
      }
    }

    /** The `visible` getter: the cached range, or a `find` whose result is cached when it returns. */
    method Visible() returns (r: Result<IndexRange, Error>)
      requires Valid()
      modifies this`rangeCache, manager`store, manager`lastMeasuredIndex, manager`lastDeferredIndex
      ensures Valid()
      ensures (r, manager.Snapshot()) == VisibleRange(old(rangeCache), old(manager.Snapshot()), manager.count, manager.sizeGetter, manager.estimatedCellSize, props)
      ensures rangeCache == if old(rangeCache).Some? then old(rangeCache) else if r.Ok? then Some(r.value) else None
    {
      if rangeCache.Some? {
        return Ok(rangeCache.value);
      }
      r := manager.Find(props.scrollOffset, props.viewportSize);
      if r.Ok? {
        rangeCache := Some(r.value);
      }
    }

    /** The `rendered` getter: the visible range padded by `overScanRange`. */
    method Rendered() returns (r: Result<IndexRange, Error>)
      requires Valid()
      modifies this`rangeCache, manager`store, manager`lastMeasuredIndex, manager`lastDeferredIndex
      ensures Valid()
      ensures var v := VisibleRange(old(rangeCache), old(manager.Snapshot()), manager.count, manager.sizeGetter, manager.estimatedCellSize, props);
        && manager.Snapshot() == v.1
        && (v.0.Err? ==> r == Err(v.0.error))
        && (v.0.Ok? ==> r == Ok(OverScanRange(v.0.value, scrollDirection, props.overscanItemsCount, props.itemsCount)))
        && rangeCache == if old(rangeCache).Some? then old(rangeCache) else if v.0.Ok? then Some(v.0.value) else None
    {
      var visible := Visible();
      if visible.Err? {
        return Err(visible.error);
      }
      r := Ok(OverScanRange(visible.value, scrollDirection, props.overscanItemsCount, props.itemsCount));
    }

    /**
     * `renderItemsRange(start, end)`: one item per index of `start..end`, each at the cell
     * `get` returns, keyed by its index when fixed and by its pool slot otherwise.
     */
    method RenderItemsRange(start: int, end: int) returns (r: Result<seq<Item>, Error>)
      requires Valid() && 0 < keepAliveInstancePoolSize
      modifies manager`store, manager`lastMeasuredIndex, manager`lastDeferredIndex
      ensures Valid()
      ensures (r, manager.Snapshot()) == RenderRange(old(manager.Snapshot()), manager.count, manager.sizeGetter, manager.estimatedCellSize, start, end, LayoutOf(props, keepAliveInstancePoolSize), [])
    {
      var layout := LayoutOf(props, keepAliveInstancePoolSize);
      ghost var final := RenderRange(manager.Snapshot(), manager.count, manager.sizeGetter, manager.estimatedCellSize, start, end, layout, []);
      var children: seq<Item> := [];
      var index := start;
      while index <= end
        invariant manager.Valid()
        invariant RenderRange(manager.Snapshot(), manager.count, manager.sizeGetter, manager.estimatedCellSize, index, end, layout, children) == final
        decreases end - index + 1
      {
        ghost var before := manager.Snapshot();
        var cell := manager.Get(index);
        if cell.Err? {
          RenderRangeThrows(before, manager.count, manager.sizeGetter, manager.estimatedCellSize, index, end, layout, children);
          return Err(cell.error);
        }
        RenderRangeContinues(before, manager.Snapshot(), manager.count, manager.sizeGetter, manager.estimatedCellSize, index, end, layout, children, cell.value);
        children := children + [ItemAt(index, cell.value, layout)];
        index := index + 1;
      }
      return Ok(children);
    }

    /** `children.push(...renderItemsRange(a, b))`: the segment's items after `children`, unless `get` throws. */
    method PushRange(children: seq<Item>, a: int, b: int) returns (r: Result<seq<Item>, Error>)
      requires Valid() && 0 < keepAliveInstancePoolSize
      modifies manager`store, manager`lastMeasuredIndex, manager`lastDeferredIndex
      ensures Valid()
      ensures (r, manager.Snapshot()) == RenderRange(old(manager.Snapshot()), manager.count, manager.sizeGetter, manager.estimatedCellSize, a, b, LayoutOf(props, keepAliveInstancePoolSize), children)
    {
      RenderRangeAppends(manager.Snapshot(), manager.count, manager.sizeGetter, manager.estimatedCellSize, a, b, LayoutOf(props, keepAliveInstancePoolSize), children);
      var items := RenderItemsRange(a, b);
      if items.Err? {
        return Err(items.error);
      }
      r := Ok(children + items.value);
    }

    /**
     * `renderItems`: the fixed prefix, the rendered range without the fixed items, then the
     * fixed suffix. The rendered range comes from the getter, so from the cache when it is set.
     */
    method RenderItems() returns (r: Result<seq<Item>, Error>)
      requires Valid() && 0 < keepAliveInstancePoolSize
      modifies this`rangeCache, manager`store, manager`lastMeasuredIndex, manager`lastDeferredIndex
      ensures Valid()
      ensures var v := VisibleRange(old(rangeCache), old(manager.Snapshot()), manager.count, manager.sizeGetter, manager.estimatedCellSize, props);
        && (v.0.Err? ==> r == Err(v.0.error) && manager.Snapshot() == v.1)
        && (v.0.Ok? ==> (r, manager.Snapshot()) == ListRendering.RenderItems(v.1, manager.count, manager.sizeGetter, manager.estimatedCellSize,
              OverScanRange(v.0.value, scrollDirection, props.overscanItemsCount, props.itemsCount), props, LayoutOf(props, keepAliveInstancePoolSize)))
        && rangeCache == if old(rangeCache).Some? then old(rangeCache) else if v.0.Ok? then Some(v.0.value) else None
    {
      var rendered := Rendered();
      if rendered.Err? {
        return Err(rendered.error);
      }
      r := RenderSegmentsOf(rendered.value);
    }

    /** The body of `renderItems` once the rendered range is known. */
    method RenderSegmentsOf(rendered: IndexRange) returns (r: Result<seq<Item>, Error>)
      requires Valid() && 0 < keepAliveInstancePoolSize
      modifies manager`store, manager`lastMeasuredIndex, manager`lastDeferredIndex
      ensures Valid()
      ensures (r, manager.Snapshot()) == ListRendering.RenderItems(old(manager.Snapshot()), manager.count, manager.sizeGetter, manager.estimatedCellSize, rendered, props, LayoutOf(props, keepAliveInstancePoolSize))
    {
      var start, end := rendered.start, rendered.end;
      var prefix, suffix := props.prefixFixedItemsCount, props.suffixFixedItemsCount;
      ghost var layout := LayoutOf(props, keepAliveInstancePoolSize);
      ghost var rest := Segments(rendered, props);
      ghost var state: (Result<seq<Item>, Error>, Table) := (Ok([]), manager.Snapshot());
      ghost var final := RenderSegments(state, manager.count, manager.sizeGetter, manager.estimatedCellSize, rest, layout);
      var children: seq<Item> := [];
      var actualStart, actualEnd := start, end;
      if prefix != 0 {
        assert rest[0] == IndexRange(0, prefix - 1);
        var pushed := PushRange(children, 0, prefix - 1);
        RenderSegmentsStep(state, (pushed, manager.Snapshot()), manager.count, manager.sizeGetter, manager.estimatedCellSize, rest, layout);
        state, rest := (pushed, manager.Snapshot()), rest[1..];
        if pushed.Err? {
          RenderSegmentsHalts(state, manager.count, manager.sizeGetter, manager.estimatedCellSize, rest, layout);
          return Err(pushed.error);
        }
        children := pushed.value;
        actualStart := Max(prefix, start);
      }
      var suffixStart := props.itemsCount - suffix;
      if suffix != 0 {
        actualEnd := Min(end, suffixStart - 1);
      }
      assert rest == [IndexRange(actualStart, actualEnd)] + SuffixSegments(props);
      var pushed := PushRange(children, actualStart, actualEnd);
      RenderSegmentsStep(state, (pushed, manager.Snapshot()), manager.count, manager.sizeGetter, manager.estimatedCellSize, rest, layout);
      state, rest := (pushed, manager.Snapshot()), rest[1..];
      if pushed.Err? {
        RenderSegmentsHalts(state, manager.count, manager.sizeGetter, manager.estimatedCellSize, rest, layout);
        return Err(pushed.error);
      }
      children := pushed.value;
      if suffix != 0 {
        var last := PushRange(children, suffixStart, props.itemsCount - 1);
        RenderSegmentsStep(state, (last, manager.Snapshot()), manager.count, manager.sizeGetter, manager.estimatedCellSize, rest, layout);
        state, rest := (last, manager.Snapshot()), rest[1..];
        if last.Err? {
          RenderSegmentsHalts(state, manager.count, manager.sizeGetter, manager.estimatedCellSize, rest, layout);
          return Err(last.error);
        }
        children := last.value;
      }
      assert rest == [];
      r := Ok(children);
    }

    /**
     * `render`: clear the pending flag and the range cache, grow the pool to the padded
     * visible range, read `size` for the container and render the items into it.
     */
    method Render() returns (r: Result<Rendering, Error>)
      requires Valid()
      modifies this`hasPendingRender, this`rangeCache, this`keepAliveInstancePoolSize, manager`store, manager`lastMeasuredIndex, manager`lastDeferredIndex
      ensures Valid() && !hasPendingRender
      ensures (r, manager.Snapshot(), keepAliveInstancePoolSize) == ListRendering.Render(old(manager.Snapshot()), manager.count, manager.sizeGetter, manager.estimatedCellSize, props, scrollDirection, old(keepAliveInstancePoolSize))
    {
      hasPendingRender := false;
      rangeCache := None;
      var last := Rendered();
      if last.Err? {
        return Err(last.error);
      }
      var first := Rendered();
      keepAliveInstancePoolSize := PoolSize(keepAliveInstancePoolSize, IndexRange(first.value.start, last.value.end));
      var size := manager.Size();
      var children := RenderItems();
      if children.Err? {
        return Err(children.error);
      }
      r := Ok(Rendering(size, children.value));
    }
  }
}
