/**
 * What one render of src/components/abstract-list.ts produces, as functions of the position
 * table: the items of `renderItemsRange`, the three segments of `renderItems` (the fixed
 * prefix, the rendered range, the fixed suffix) and the keep-alive pool size of `render`.
 * The component in abstract_list.dfy is proved to compute these.
 */
module ListRendering {
  import opened Wrappers
  import opened Constants
  import opened HelperTypes
  import opened OverScan
  import opened PositionTables
  import opened PositionProperties

  /** The props the list reads; `isScrolling` and `direction` only reach the slots. */
  datatype ListProps = ListProps(
    scrollOffset: int,
    viewportSize: int,
    itemsCount: int,
    estimatedItemSize: nat,
    overscanItemsCount: int,
    prefixFixedItemsCount: int,
    suffixFixedItemsCount: int)

  /** The key of a rendered item: `index:<i>` for a fixed item, `key:<i mod pool>` for the others. */
  datatype ItemKey = IndexKey(index: int) | PoolKey(slot: int)

  /** What `renderItemsRange` renders for one index. */
  datatype Item = Item(index: int, key: ItemKey, position: Position, isFixedStart: bool, isFixedEnd: bool)

  /** The values `renderItemsRange` reads: `maxFixedPrefix`, `minFixedSuffix` and the pool size. */
  datatype Layout = Layout(maxFixedPrefix: int, minFixedSuffix: int, poolSize: nat)

  /** The list after a render: the `size` given to the container slot and the rendered items. */
  datatype Rendering = Rendering(size: int, children: seq<Item>)

  function LayoutOf(props: ListProps, poolSize: nat): Layout {
    Layout(props.prefixFixedItemsCount, props.itemsCount - props.suffixFixedItemsCount - 1, poolSize)
  }

  /** The item for `index` at `position`: fixed before `maxFixedPrefix` and after `minFixedSuffix`. */
  function ItemAt(index: int, position: Position, layout: Layout): Item
    requires 0 <= index && 0 < layout.poolSize
  {
    var isFixedStart := index < layout.maxFixedPrefix;
    var isFixedEnd := index > layout.minFixedSuffix;
    var key := if isFixedStart || isFixedEnd then IndexKey(index) else PoolKey(index % layout.poolSize);
    Item(index, key, position, isFixedStart, isFixedEnd)
  }

  /** The item is the one `ItemAt` builds for its index and position. */
  ghost predicate WellFormed(item: Item, layout: Layout) {
    0 <= item.index && 0 < layout.poolSize && item == ItemAt(item.index, item.position, layout)
  }

  ghost predicate AllWellFormed(items: seq<Item>, layout: Layout) {
    forall k :: 0 <= k < |items| ==> WellFormed(items[k], layout)
  }

  /** The indices `a..b`, in order. */
  function Range(a: int, b: int): (s: seq<int>)
    ensures |s| == if a <= b then b - a + 1 else 0
    ensures forall k :: 0 <= k < |s| ==> s[k] == a + k
  {
    seq(if a <= b then b - a + 1 else 0, k => a + k)
  }

  /** The indices of the items, in order. */
  function Indices(items: seq<Item>): (s: seq<int>)
    ensures |s| == |items|
    ensures forall k :: 0 <= k < |items| ==> s[k] == items[k].index
  {
    seq(|items|, k requires 0 <= k < |items| => items[k].index)
  }

  /**
   * The `for` loop of `renderItemsRange` from `index` to `end`, after the items `acc`: each
   * index is read with `get` (an out-of-range index throws) and rendered as `ItemAt`.
   */
  function RenderRange(t: Table, count: int, getter: SizeGetter, est: nat, index: int, end: int, layout: Layout, acc: seq<Item>): (r: (Result<seq<Item>, Error>, Table))
    requires Readable(t) && 0 < layout.poolSize
    decreases if index <= end then end - index + 1 else 0, 1
    ensures Readable(r.1)
  {
    if index > end then
      (Ok(acc), t)
    else
      var cell := Lookup(t, count, getter, est, index);
      if cell.0.Err? then (Err(cell.0.error), cell.1)
      else Emit(cell.1, count, getter, est, index, end, layout, acc, cell.0.value)
  }

  /** One turn of that loop once `get(index)` has returned `cell` and left the table `t`. */
  function Emit(t: Table, count: int, getter: SizeGetter, est: nat, index: int, end: int, layout: Layout, acc: seq<Item>, cell: Position): (r: (Result<seq<Item>, Error>, Table))
    requires Readable(t) && 0 <= index <= end && 0 < layout.poolSize
    decreases end - index + 1, 0
    ensures Readable(r.1)
  {
    RenderRange(t, count, getter, est, index + 1, end, layout, acc + [ItemAt(index, cell, layout)])
  }

  /** A turn of the loop whose `get(index)` returned `cell` and left the table `t'`. */
  lemma RenderRangeContinues(t: Table, t': Table, count: int, getter: SizeGetter, est: nat, index: int, end: int, layout: Layout, acc: seq<Item>, cell: Position)
    requires Readable(t) && 0 < layout.poolSize && index <= end
    requires (Ok(cell), t') == Lookup(t, count, getter, est, index)
    ensures RenderRange(t, count, getter, est, index, end, layout, acc) == RenderRange(t', count, getter, est, index + 1, end, layout, acc + [ItemAt(index, cell, layout)])
  {
  }

  /** A turn of the loop whose `get(index)` threw. */
  lemma RenderRangeThrows(t: Table, count: int, getter: SizeGetter, est: nat, index: int, end: int, layout: Layout, acc: seq<Item>)
    requires Readable(t) && 0 < layout.poolSize && index <= end
    requires Lookup(t, count, getter, est, index).0.Err?
    ensures var cell := Lookup(t, count, getter, est, index);
      RenderRange(t, count, getter, est, index, end, layout, acc) == (Err(cell.0.error), cell.1)
  {
  }

  /**
   * `renderItemsRange(index, end)` throws exactly when the range is not empty and leaves
   * `0..count - 1`; otherwise it appends one well-formed item per index of `index..end`, in order.
   */
  lemma {:induction false} RenderRangeItems(t: Table, count: int, getter: SizeGetter, est: nat, index: int, end: int, layout: Layout, acc: seq<Item>)
    requires Readable(t) && 0 < layout.poolSize
    decreases if index <= end then end - index + 1 else 0
    ensures var r := RenderRange(t, count, getter, est, index, end, layout, acc);
      && (r.0.Err? <==> index <= end && (index < 0 || count <= end))
      && (r.0.Ok? ==> && Indices(r.0.value) == Indices(acc) + Range(index, end)
                      && (AllWellFormed(acc, layout) ==> AllWellFormed(r.0.value, layout)))
  {
    if index <= end {
      var cell := Lookup(t, count, getter, est, index);
      if cell.0.Ok? {
        var acc' := acc + [ItemAt(index, cell.0.value, layout)];
        RenderRangeItems(cell.1, count, getter, est, index + 1, end, layout, acc');
        var r := RenderRange(cell.1, count, getter, est, index + 1, end, layout, acc');
        assert RenderRange(t, count, getter, est, index, end, layout, acc) == r;
        if r.0.Ok? {
          assert Indices(acc') == Indices(acc) + [index];
          assert Range(index, end) == [index] + Range(index + 1, end);
        }
      }
    }
  }

  /** The items rendered after `acc` do not depend on `acc`: the loop only appends to it. */
  lemma {:induction false} RenderRangeAppends(t: Table, count: int, getter: SizeGetter, est: nat, index: int, end: int, layout: Layout, acc: seq<Item>)
    requires Readable(t) && 0 < layout.poolSize
    decreases if index <= end then end - index + 1 else 0
    ensures var r := RenderRange(t, count, getter, est, index, end, layout, acc);
      var alone := RenderRange(t, count, getter, est, index, end, layout, []);
      && r.1 == alone.1
      && (r.0.Ok? <==> alone.0.Ok?)
      && (r.0.Ok? ==> r.0.value == acc + alone.0.value)
      && (r.0.Err? ==> r.0 == alone.0)
  {
    if index <= end {
      var cell := Lookup(t, count, getter, est, index);
      if cell.0.Ok? {
        var item := ItemAt(index, cell.0.value, layout);
        RenderRangeAppends(cell.1, count, getter, est, index + 1, end, layout, acc + [item]);
        RenderRangeAppends(cell.1, count, getter, est, index + 1, end, layout, [item]);
        assert [] + [item] == [item];
        var r := RenderRange(cell.1, count, getter, est, index + 1, end, layout, acc + [item]);
        var alone := RenderRange(cell.1, count, getter, est, index + 1, end, layout, []);
        if r.0.Ok? {
          assert r.0.value == acc + ([item] + alone.0.value);
        }
      }
    }
  }

  /** On a table that agrees with the getter, every item rendered sits at its canonical position. */
  lemma {:induction false} RenderRangeCanonical(t: Table, count: int, getter: SizeGetter, est: nat, index: int, end: int, layout: Layout, acc: seq<Item>)
    requires Exact(t, getter, est) && 0 < layout.poolSize
    requires forall k :: 0 <= k < |acc| ==> 0 <= acc[k].index && acc[k].position == Canonical(getter, est, acc[k].index)
    decreases if index <= end then end - index + 1 else 0
    ensures var r := RenderRange(t, count, getter, est, index, end, layout, acc);
      && Exact(r.1, getter, est)
      && (r.0.Ok? ==> forall k :: 0 <= k < |r.0.value| ==>
            0 <= r.0.value[k].index && r.0.value[k].position == Canonical(getter, est, r.0.value[k].index))
  {
    if index <= end && 0 <= index < count {
      LookupCanonical(t, count, getter, est, index);
      var cell := Lookup(t, count, getter, est, index);
      RenderRangeCanonical(cell.1, count, getter, est, index + 1, end, layout, acc + [ItemAt(index, cell.0.value, layout)]);
    }
  }

  /** `actualStart..actualEnd` of `renderItems`: the rendered range without the fixed items. */
  function MiddleRange(rendered: IndexRange, props: ListProps): IndexRange {
    var prefix := props.prefixFixedItemsCount;
    var suffix := props.suffixFixedItemsCount;
    var suffixStart := props.itemsCount - suffix;
    IndexRange(
      if prefix != 0 then Max(prefix, rendered.start) else rendered.start,
      if suffix != 0 then Min(rendered.end, suffixStart - 1) else rendered.end)
  }

  /** The fixed prefix `0..prefixFixedItemsCount - 1`, rendered only when the count is not 0. */
  function PrefixSegments(props: ListProps): seq<IndexRange> {
    if props.prefixFixedItemsCount != 0 then [IndexRange(0, props.prefixFixedItemsCount - 1)] else []
  }

  /** The fixed suffix, the last `suffixFixedItemsCount` indices, rendered only when the count is not 0. */
  function SuffixSegments(props: ListProps): seq<IndexRange> {
    var suffix := props.suffixFixedItemsCount;
    if suffix != 0 then [IndexRange(props.itemsCount - suffix, props.itemsCount - 1)] else []
  }

  /** The segments `renderItems` renders, in order: the fixed prefix, the middle range, the fixed suffix. */
  function Segments(rendered: IndexRange, props: ListProps): seq<IndexRange> {
    PrefixSegments(props) + [MiddleRange(rendered, props)] + SuffixSegments(props)
  }

  /** The indices of the segments, one after the other. */
  function Flatten(segments: seq<IndexRange>): seq<int> {
    if |segments| == 0 then [] else Range(segments[0].start, segments[0].end) + Flatten(segments[1..])
  }

  /** The segment `a..b` is empty or lies within `0..count - 1`, so `get` accepts each of its indices. */
  predicate Fits(a: int, b: int, count: int) {
    a > b || (0 <= a && b < count)
  }

  /** Every segment fits the position manager. */
  predicate AllFit(segments: seq<IndexRange>, count: int) {
    |segments| == 0 || (Fits(segments[0].start, segments[0].end, count) && AllFit(segments[1..], count))
  }

  /** The indices `renderItems` emits. */
  function Planned(rendered: IndexRange, props: ListProps): seq<int> {
    Flatten(Segments(rendered, props))
  }

  /** `children.push(...renderItemsRange(a, b))` after the render so far, unless it has thrown. */
  function Continue(sofar: (Result<seq<Item>, Error>, Table), count: int, getter: SizeGetter, est: nat, a: int, b: int, layout: Layout): (r: (Result<seq<Item>, Error>, Table))
    requires Readable(sofar.1) && 0 < layout.poolSize
    ensures Readable(r.1)
  {
    if sofar.0.Err? then sofar else RenderRange(sofar.1, count, getter, est, a, b, layout, sofar.0.value)
  }

  /** The segments rendered one after the other, after the render so far. */
  function RenderSegments(sofar: (Result<seq<Item>, Error>, Table), count: int, getter: SizeGetter, est: nat, segments: seq<IndexRange>, layout: Layout): (r: (Result<seq<Item>, Error>, Table))
    requires Readable(sofar.1) && 0 < layout.poolSize
    ensures Readable(r.1)
    decreases |segments|
  {
    if |segments| == 0 then sofar
    else RenderSegments(Continue(sofar, count, getter, est, segments[0].start, segments[0].end, layout), count, getter, est, segments[1..], layout)
  }

  /**
   * `renderItems`: the fixed prefix when `prefixFixedItemsCount` is set, the middle range, then
   * the fixed suffix when `suffixFixedItemsCount` is set; a throwing `get` ends the render.
   */
  function RenderItems(t: Table, count: int, getter: SizeGetter, est: nat, rendered: IndexRange, props: ListProps, layout: Layout): (r: (Result<seq<Item>, Error>, Table))
    requires Readable(t) && 0 < layout.poolSize
    ensures Readable(r.1)
  {
    RenderSegments((Ok([]), t), count, getter, est, Segments(rendered, props), layout)
  }

  /**
   * `renderItems` throws exactly when a segment it renders leaves `0..count - 1`; otherwise it
   * emits exactly the planned indices, in order, each as the item `ItemAt` builds for it.
   */
  lemma RenderItemsPlanned(t: Table, count: int, getter: SizeGetter, est: nat, rendered: IndexRange, props: ListProps, layout: Layout)
    requires Readable(t) && 0 < layout.poolSize
    ensures var r := RenderItems(t, count, getter, est, rendered, props, layout);
      && (r.0.Err? <==> !AllFit(Segments(rendered, props), count))
      && (r.0.Ok? ==> Indices(r.0.value) == Planned(rendered, props) && AllWellFormed(r.0.value, layout))
  {
    assert Indices([]) == [];
    RenderSegmentsItems((Ok([]), t), count, getter, est, Segments(rendered, props), layout);
  }

  /** Rendering segments throws exactly when the render so far has or a segment leaves the manager. */
  lemma {:induction false} RenderSegmentsItems(sofar: (Result<seq<Item>, Error>, Table), count: int, getter: SizeGetter, est: nat, segments: seq<IndexRange>, layout: Layout)
    requires Readable(sofar.1) && 0 < layout.poolSize
    requires sofar.0.Ok? ==> AllWellFormed(sofar.0.value, layout)
    decreases |segments|
    ensures var r := RenderSegments(sofar, count, getter, est, segments, layout);
      && (r.0.Err? <==> sofar.0.Err? || !AllFit(segments, count))
      && (r.0.Ok? ==> Indices(r.0.value) == Indices(sofar.0.value) + Flatten(segments) && AllWellFormed(r.0.value, layout))
  {
    if |segments| > 0 {
      var first := segments[0];
      var next := Continue(sofar, count, getter, est, first.start, first.end, layout);
      ContinueItems(sofar, count, getter, est, first.start, first.end, layout);
      RenderSegmentsItems(next, count, getter, est, segments[1..], layout);
      var r := RenderSegments(next, count, getter, est, segments[1..], layout);
      if r.0.Ok? {
        assert Indices(r.0.value) == Indices(sofar.0.value) + Range(first.start, first.end) + Flatten(segments[1..]);
      }
    }
  }

  /** Rendering the first segment of `segments` leaves `next`, and the rest follow from there. */
  lemma RenderSegmentsStep(sofar: (Result<seq<Item>, Error>, Table), next: (Result<seq<Item>, Error>, Table), count: int, getter: SizeGetter, est: nat, segments: seq<IndexRange>, layout: Layout)
    requires Readable(sofar.1) && 0 < layout.poolSize && |segments| > 0
    requires next == Continue(sofar, count, getter, est, segments[0].start, segments[0].end, layout)
    ensures RenderSegments(sofar, count, getter, est, segments, layout) == RenderSegments(next, count, getter, est, segments[1..], layout)
  {
  }

  /** A render that has thrown renders nothing more. */
  lemma {:induction false} RenderSegmentsHalts(sofar: (Result<seq<Item>, Error>, Table), count: int, getter: SizeGetter, est: nat, segments: seq<IndexRange>, layout: Layout)
    requires Readable(sofar.1) && 0 < layout.poolSize && sofar.0.Err?
    decreases |segments|
    ensures RenderSegments(sofar, count, getter, est, segments, layout) == sofar
  {
    if |segments| > 0 {
      RenderSegmentsHalts(sofar, count, getter, est, segments[1..], layout);
    }
  }

  /** One segment of `renderItems`: it throws exactly when the render so far has or the segment leaves the manager. */
  lemma ContinueItems(sofar: (Result<seq<Item>, Error>, Table), count: int, getter: SizeGetter, est: nat, a: int, b: int, layout: Layout)
    requires Readable(sofar.1) && 0 < layout.poolSize
    requires sofar.0.Ok? ==> AllWellFormed(sofar.0.value, layout)
    ensures var r := Continue(sofar, count, getter, est, a, b, layout);
      && (r.0.Err? <==> sofar.0.Err? || !Fits(a, b, count))
      && (r.0.Ok? ==> Indices(r.0.value) == Indices(sofar.0.value) + Range(a, b) && AllWellFormed(r.0.value, layout))
  {
    if sofar.0.Ok? {
      RenderRangeItems(sofar.1, count, getter, est, a, b, layout, sofar.0.value);
    }
  }

  /** The segments fit exactly when every index they hold is one `get` accepts. */
  lemma {:induction false} AllFitInBounds(segments: seq<IndexRange>, count: int)
    ensures AllFit(segments, count) <==> forall k :: 0 <= k < |Flatten(segments)| ==> 0 <= Flatten(segments)[k] < count
  {
    if |segments| > 0 {
      var head := Range(segments[0].start, segments[0].end);
      var rest := Flatten(segments[1..]);
      AllFitInBounds(segments[1..], count);
      assert Flatten(segments) == head + rest;
      if !Fits(segments[0].start, segments[0].end, count) {
        if segments[0].start < 0 {
          assert (head + rest)[0] == segments[0].start;
        } else {
          assert (head + rest)[|head| - 1] == segments[0].end;
        }
      } else if !AllFit(segments[1..], count) {
        var k :| 0 <= k < |rest| && !(0 <= rest[k] < count);
        assert (head + rest)[|head| + k] == rest[k];
      } else {
        assert forall i :: 0 <= i < |Flatten(segments[1..])| ==> 0 <= Flatten(segments[1..])[i] < count;
        forall k | 0 <= k < |head + rest|
          ensures 0 <= (head + rest)[k] < count
        {
          if k < |head| {
            assert (head + rest)[k] == head[k] == segments[0].start + k;
          } else {
            assert (head + rest)[k] == rest[k - |head|];
          }
        }
      }
    }
  }

  lemma {:induction false} FlattenConcat(a: seq<IndexRange>, b: seq<IndexRange>)
    ensures Flatten(a + b) == Flatten(a) + Flatten(b)
  {
    if |a| == 0 {
      assert a + b == b;
    } else {
      assert (a + b)[1..] == a[1..] + b;
      FlattenConcat(a[1..], b);
    }
  }

  lemma FlattenOne(segment: IndexRange)
    ensures Flatten([segment]) == Range(segment.start, segment.end)
  {
    assert [segment][1..] == [];
  }

  /** The pool size `render` computes: the previous one (2 when unset) or the rendered span, whichever is larger. */
  function PoolSize(previous: nat, rendered: IndexRange): (size: nat)
    ensures size >= (if previous == 0 then 2 else previous) && size >= rendered.end - rendered.start + 1
    ensures size == (if previous == 0 then 2 else previous) || size == rendered.end - rendered.start + 1
  {
    Max(if previous == 0 then 2 else previous, rendered.end - rendered.start + 1)
  }

  /** No two items carry the same key. */
  ghost predicate KeysDistinct(items: seq<Item>) {
    forall i, j :: 0 <= i < j < |items| ==> items[i].key != items[j].key
  }

  /** Each index of `s` comes after the ones before it. */
  ghost predicate Increasing(s: seq<int>) {
    forall i, j :: 0 <= i < j < |s| ==> s[i] < s[j]
  }

  lemma RangeIncreasing(a: int, b: int)
    ensures Increasing(Range(a, b))
    ensures forall k :: 0 <= k < |Range(a, b)| ==> a <= Range(a, b)[k] <= b
  {
  }

  lemma ConcatIncreasing(p: seq<int>, q: seq<int>)
    requires Increasing(p) && Increasing(q)
    requires forall i, j :: 0 <= i < |p| && 0 <= j < |q| ==> p[i] < q[j]
    ensures Increasing(p + q)
  {
    forall i, j | 0 <= i < j < |p + q|
      ensures (p + q)[i] < (p + q)[j]
    {
      if j < |p| {
      } else if i >= |p| {
        assert (p + q)[i] == q[i - |p|] && (p + q)[j] == q[j - |p|];
      } else {
        assert (p + q)[j] == q[j - |p|];
      }
    }
  }

  /**
   * The planned indices are increasing, and every one that is not fixed lies in the middle
   * range, when the fixed counts are not negative and do not overlap.
   */
  lemma PlannedShape(rendered: IndexRange, props: ListProps)
    requires 0 <= props.prefixFixedItemsCount && 0 <= props.suffixFixedItemsCount
    requires props.prefixFixedItemsCount + props.suffixFixedItemsCount <= props.itemsCount
    ensures Increasing(Planned(rendered, props))
    ensures var layout := LayoutOf(props, 1); var middle := MiddleRange(rendered, props);
      forall k :: 0 <= k < |Planned(rendered, props)| ==>
        var x := Planned(rendered, props)[k];
        x < layout.maxFixedPrefix || x > layout.minFixedSuffix || middle.start <= x <= middle.end
  {
    var prefix := props.prefixFixedItemsCount;
    var suffix := props.suffixFixedItemsCount;
    var middle := MiddleRange(rendered, props);
    var p := Flatten(PrefixSegments(props));
    var m := Range(middle.start, middle.end);
    var s := Flatten(SuffixSegments(props));
    PlannedParts(rendered, props);
    PrefixRun(props);
    SuffixRun(props);
    RangeIncreasing(middle.start, middle.end);
    ConcatThree(p, m, s, prefix - 1, middle.start, middle.end, props.itemsCount - suffix);
    ConcatThreeBounds(p, m, s, prefix - 1, middle.start, middle.end, props.itemsCount - suffix);
  }

  /** The plan is the prefix run, the middle range and the suffix run, one after the other. */
  lemma PlannedParts(rendered: IndexRange, props: ListProps)
    ensures Planned(rendered, props) == Flatten(PrefixSegments(props)) + Range(MiddleRange(rendered, props).start, MiddleRange(rendered, props).end) + Flatten(SuffixSegments(props))
  {
    var middle := MiddleRange(rendered, props);
    FlattenConcat(PrefixSegments(props) + [middle], SuffixSegments(props));
    FlattenConcat(PrefixSegments(props), [middle]);
    FlattenOne(middle);
  }

  /** The prefix run counts up to `prefixFixedItemsCount - 1`, and is empty when that count is 0. */
  lemma PrefixRun(props: ListProps)
    ensures var p := Flatten(PrefixSegments(props));
      && Increasing(p) && (forall k :: 0 <= k < |p| ==> p[k] <= props.prefixFixedItemsCount - 1)
      && (|p| > 0 ==> props.prefixFixedItemsCount != 0)
  {
    var prefix := props.prefixFixedItemsCount;
    if prefix != 0 {
      FlattenOne(IndexRange(0, prefix - 1));
      RangeIncreasing(0, prefix - 1);
    }
  }

  /** The suffix run counts up from `itemsCount - suffixFixedItemsCount`, and is empty when that count is 0. */
  lemma SuffixRun(props: ListProps)
    ensures var s := Flatten(SuffixSegments(props));
      && Increasing(s) && (forall k :: 0 <= k < |s| ==> props.itemsCount - props.suffixFixedItemsCount <= s[k])
      && (|s| > 0 ==> props.suffixFixedItemsCount != 0)
  {
    var suffix := props.suffixFixedItemsCount;
    if suffix != 0 {
      FlattenOne(IndexRange(props.itemsCount - suffix, props.itemsCount - 1));
      RangeIncreasing(props.itemsCount - suffix, props.itemsCount - 1);
    }
  }

  /** Three increasing runs, each below the next where both are present, make an increasing sequence. */
  lemma ConcatThree(p: seq<int>, m: seq<int>, s: seq<int>, pHigh: int, mLow: int, mHigh: int, sLow: int)
    requires Increasing(p) && Increasing(m) && Increasing(s)
    requires forall k :: 0 <= k < |p| ==> p[k] <= pHigh
    requires forall k :: 0 <= k < |m| ==> mLow <= m[k] <= mHigh
    requires forall k :: 0 <= k < |s| ==> sLow <= s[k]
    requires |p| > 0 && |m| > 0 ==> pHigh < mLow
    requires |m| > 0 && |s| > 0 ==> mHigh < sLow
    requires |p| > 0 && |s| > 0 ==> pHigh < sLow
    ensures Increasing(p + m + s)
  {
    ConcatIncreasing(p, m);
    forall i, j | 0 <= i < |p + m| && 0 <= j < |s|
      ensures (p + m)[i] < s[j]
    {
      if i >= |p| {
        assert (p + m)[i] == m[i - |p|];
      }
    }
    ConcatIncreasing(p + m, s);
  }

  /** Each element of three concatenated runs lies within the bounds of the run it comes from. */
  lemma ConcatThreeBounds(p: seq<int>, m: seq<int>, s: seq<int>, pHigh: int, mLow: int, mHigh: int, sLow: int)
    requires forall k :: 0 <= k < |p| ==> p[k] <= pHigh
    requires forall k :: 0 <= k < |m| ==> mLow <= m[k] <= mHigh
    requires forall k :: 0 <= k < |s| ==> sLow <= s[k]
    ensures forall k :: 0 <= k < |p + m + s| ==>
      (p + m + s)[k] <= pHigh || mLow <= (p + m + s)[k] <= mHigh || sLow <= (p + m + s)[k]
  {
    forall k | 0 <= k < |p + m + s|
      ensures (p + m + s)[k] <= pHigh || mLow <= (p + m + s)[k] <= mHigh || sLow <= (p + m + s)[k]
    {
      if k < |p| {
        assert (p + m + s)[k] == p[k];
      } else if k < |p| + |m| {
        assert (p + m + s)[k] == m[k - |p|];
      } else {
        assert (p + m + s)[k] == s[k - |p| - |m|];
      }
    }
  }

  /**
   * Items built for increasing indices by `ItemAt` have distinct keys when every pooled index
   * lies in a stretch no longer than the pool: fixed keys name their index, and pooled indices
   * less than a pool apart leave different remainders.
   */
  lemma ItemKeysDistinct(items: seq<Item>, layout: Layout, low: int, high: int)
    requires AllWellFormed(items, layout) && Increasing(Indices(items))
    requires high - low + 1 <= layout.poolSize
    requires forall k :: 0 <= k < |items| ==>
      items[k].index < layout.maxFixedPrefix || items[k].index > layout.minFixedSuffix || low <= items[k].index <= high
    ensures KeysDistinct(items)
  {
    forall i, j | 0 <= i < j < |items|
      ensures items[i].key != items[j].key
    {
      var a, b := items[i].index, items[j].index;
      assert a < b;
      if items[i].key.PoolKey? && items[j].key.PoolKey? {
        assert low <= a < b <= high;
        assert a % layout.poolSize != b % layout.poolSize by {
          PooledSlotsDiffer(a, b, layout.poolSize);
        }
      }
    }
  }

  /** Two naturals less than `n` apart leave different remainders modulo `n`. */
  lemma PooledSlotsDiffer(a: int, b: int, n: int)
    requires 0 <= a < b < a + n
    ensures a % n != b % n
  {
    var k := b / n - a / n;
    assert a == (a / n) * n + a % n;
    assert b == (b / n) * n + b % n;
    assert k * n == (b / n) * n - (a / n) * n;
    assert b - a == k * n + (b % n - a % n);
    Multiples(k, n);
  }

  /** A multiple of `n` is at least `n` for a positive factor and at most 0 otherwise. */
  lemma Multiples(k: int, n: int)
    requires 0 <= n
    ensures k >= 1 ==> k * n >= n
    ensures k <= 0 ==> k * n <= 0
  {
    if k >= 1 {
      MultiplySign(k - 1, n);
      assert k * n == (k - 1) * n + n;
    } else {
      MultiplySign(-k, n);
      assert k * n == -((-k) * n);
    }
  }

  lemma MultiplySign(k: int, n: int)
    requires 0 <= k && 0 <= n
    ensures 0 <= k * n
  {
  }

  /**
   * One `render`: bust the range cache, `find` the visible range and pad it, grow the pool to
   * the padded span, read `size` for the container, then `renderItems` with the new pool.
   * Returns the rendering, the table and the pool size after it.
   */
  function Render(t: Table, count: int, getter: SizeGetter, est: nat, props: ListProps, direction: ScrollDirection, pool: nat): (r: (Result<Rendering, Error>, Table, nat))
    requires Readable(t)
    ensures Readable(r.1) && r.2 >= pool
    ensures r.0.Ok? ==> r.2 > 0
  {
    var found := FindRange(t, count, getter, est, props.scrollOffset, props.viewportSize);
    if found.0.Err? then (Err(found.0.error), found.1, pool)
    else
      var rendered := OverScanRange(found.0.value, direction, props.overscanItemsCount, props.itemsCount);
      var pool' := PoolSize(pool, rendered);
      var items := RenderItems(found.1, count, getter, est, rendered, props, LayoutOf(props, pool'));
      (if items.0.Err? then Err(items.0.error) else Ok(Rendering(TotalSize(found.1, count, est), items.0.value)), items.1, pool')
  }

  /**
   * A render that does not throw emits the fixed prefix, the padded visible range and the fixed
   * suffix in order; the keys are pairwise distinct when the fixed counts are not negative and
   * fit in the list, because the pool is never smaller than the padded range.
   */
  lemma RenderKeysDistinct(t: Table, count: int, getter: SizeGetter, est: nat, props: ListProps, direction: ScrollDirection, pool: nat)
    requires Readable(t)
    requires 0 <= props.prefixFixedItemsCount && 0 <= props.suffixFixedItemsCount
    requires props.prefixFixedItemsCount + props.suffixFixedItemsCount <= props.itemsCount
    ensures var r := Render(t, count, getter, est, props, direction, pool);
      var found := FindRange(t, count, getter, est, props.scrollOffset, props.viewportSize);
      r.0.Ok? ==> && found.0.Ok?
                  && Indices(r.0.value.children) == Planned(OverScanRange(found.0.value, direction, props.overscanItemsCount, props.itemsCount), props)
                  && KeysDistinct(r.0.value.children)
  {
    var found := FindRange(t, count, getter, est, props.scrollOffset, props.viewportSize);
    if found.0.Ok? {
      var rendered := OverScanRange(found.0.value, direction, props.overscanItemsCount, props.itemsCount);
      var pool' := PoolSize(pool, rendered);
      var layout := LayoutOf(props, pool');
      RenderItemsPlanned(found.1, count, getter, est, rendered, props, layout);
      var items := RenderItems(found.1, count, getter, est, rendered, props, layout);
      if items.0.Ok? {
        PlannedShape(rendered, props);
        var middle := MiddleRange(rendered, props);
        forall k | 0 <= k < |items.0.value|
          ensures var x := items.0.value[k].index;
            x < layout.maxFixedPrefix || x > layout.minFixedSuffix || middle.start <= x <= middle.end
        {
        }
        ItemKeysDistinct(items.0.value, layout, middle.start, middle.end);
      }
    }
  }
}
