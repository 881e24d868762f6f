/** `createMeasureCache` of src/helpers.ts: measured sizes keyed by row and column. */
module MeasureCaches {
  import opened Wrappers
  import opened HelperTypes

  /** The defaults of DEFAULT_MEASURE_CACHE_CONFIG. */
  const DefaultHeight: nat := 30
  const DefaultWidth: nat := 100

  /** The default key `${row}:${column}`: distinct rows or columns give distinct keys. */
  function RowColumnKey(row: int, column: int): (k: (int, int))
    ensures k.0 == row && k.1 == column
  {
    (row, column)
  }

  /** A cache of measured sizes; `K` is the type of the key the `key` option builds. */
  class MeasureCache<K(==)> {
    const key: (int, int) -> K
    const fallbackSize: Size
    var store: map<K, Size>

    /** `height` and `width` are the options of the same name; None takes the default. */
    constructor (key: (int, int) -> K, height: Option<nat>, width: Option<nat>)
      ensures this.key == key
      ensures fallbackSize == Size(height.GetOr(DefaultHeight), width.GetOr(DefaultWidth))
      ensures store == map[]
    {
      this.key := key;
      fallbackSize := Size(height.GetOr(DefaultHeight), width.GetOr(DefaultWidth));
      store := map[];
    }

    /** Whether a size was stored for the cell. */
    predicate Has(row: int, column: int := 0): (b: bool)
      reads this
      ensures b <==> key(row, column) in store
    {
      key(row, column) in store
    }

    /** The stored size, or the fallback size when none was stored. */
    function Get(row: int, column: int := 0): (s: Size)
      reads this
      ensures Has(row, column) ==> s == store[key(row, column)]
      ensures !Has(row, column) ==> s == fallbackSize
    {
      if key(row, column) in store then store[key(row, column)] else fallbackSize
    }

    /** Whether `size` is given and equals the size `Get` reports for the cell. */
    function Is(row: int, column: int, size: Option<Size>): (b: bool)
      reads this
      ensures size.None? ==> !b
      ensures size.Some? ==> (b <==> size.value.width == Get(row, column).width && size.value.height == Get(row, column).height)
    {
      match size
      case None => false
      case Some(s) => s == Get(row, column)
    }

    method Set(row: int, column: int, size: Size)
      modifies this`store
      ensures store == old(store)[key(row, column) := size]
      ensures Has(row, column) && Get(row, column) == size
      ensures forall r, c :: key(r, c) != key(row, column) ==> Has(r, c) == old(Has(r, c)) && Get(r, c) == old(Get(r, c))
    {
      store := store[key(row, column) := size];
    }

    method Remove(row: int, column: int := 0)
      modifies this`store
      ensures store == old(store) - {key(row, column)}
      ensures !Has(row, column) && Get(row, column) == fallbackSize
      ensures forall r, c :: key(r, c) != key(row, column) ==> Has(r, c) == old(Has(r, c)) && Get(r, c) == old(Get(r, c))
    {
      store := store - {key(row, column)};
    }
  }

  /**
   * An unmeasured cell "is" the fallback size: `is` compares with what `get` reports,
   * and `get` falls back for a missing key.
   */
  lemma {:induction false} UnmeasuredIsFallback<K>(cache: MeasureCache<K>, row: int, column: int)
    requires !cache.Has(row, column)
    ensures cache.Is(row, column, Some(cache.fallbackSize))
  {
  }
}
