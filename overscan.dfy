/** `overScanRange` of src/helpers.ts: padding an index range in the direction of travel. */
module OverScan {
  import opened Constants
  import opened HelperTypes

  /** How many cells the range grows behind and ahead of the scroll direction. */
  function Padding(direction: ScrollDirection, overScanCount: int): (int, int) {
    if direction == Forward then (1, overScanCount) else (overScanCount, 1)
  }

  /**
   * Scrolling forward keeps one extra cell behind and `overScanCount` cells ahead;
   * scrolling in reverse does the opposite. The result is clamped to `0..total - 1`.
   */
  function OverScanRange(range: IndexRange, direction: ScrollDirection, overScanCount: int, total: int): (r: IndexRange)
    ensures 0 <= r.start && r.end <= total - 1
    ensures var (behind, ahead) := Padding(direction, overScanCount);
      && range.start - behind <= r.start && (r.start == 0 || r.start == range.start - behind)
      && r.end <= range.end + ahead && (r.end == total - 1 || r.end == range.end + ahead)
    ensures 0 <= range.start && range.end <= total - 1 && 0 <= overScanCount ==>
      r.start <= range.start && range.end <= r.end
  {
    if direction == Forward then
      IndexRange(Max(0, range.start - 1), Min(total - 1, range.end + overScanCount))
    else
      IndexRange(Max(0, range.start - overScanCount), Min(total - 1, range.end + 1))
  }

  /** The range seen from the other end of a list of `total` items. */
  function Mirror(range: IndexRange, total: int): (r: IndexRange)
    ensures r.start - r.end == range.start - range.end
  {
    IndexRange(total - 1 - range.end, total - 1 - range.start)
  }

  /** Reverse padding is forward padding of the mirrored range, mirrored back. */
  lemma ReverseMirrorsForward(range: IndexRange, overScanCount: int, total: int)
    ensures OverScanRange(range, Reverse, overScanCount, total)
         == Mirror(OverScanRange(Mirror(range, total), Forward, overScanCount, total), total)
  {
  }

  /** Mirroring twice gives back the same range. */
  lemma MirrorInvolution(range: IndexRange, total: int)
    ensures Mirror(Mirror(range, total), total) == range
  {
  }
}
