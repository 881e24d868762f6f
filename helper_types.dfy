/** The value types of src/helpers.ts and the two `Math` functions it uses. */
module HelperTypes {

  /** An inclusive range `start..end` of item indices. */
  datatype IndexRange = IndexRange(start: int, end: int)

  /** A measured size in whole pixels. */
  datatype Size = Size(height: nat, width: nat)

  /** Where one cell sits along the axis: its offset and its size. */
  datatype Position = Position(offset: nat, size: nat)

  /** `Math.max` of two integers. */
  function Max(a: int, b: int): int {
    if a < b then b else a
  }

  /** `Math.min` of two integers. */
  function Min(a: int, b: int): int {
    if a < b then a else b
  }

  /** The offset at which a cell ends, `offset + size`. */
  function End(p: Position): nat {
    p.offset + p.size
  }
}
