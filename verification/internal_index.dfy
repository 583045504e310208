/**
 `InternalIndex`: a strongly typed handle for an entry of an internal
 collection. For dictionary backing stores an entry is a hash-table slot rather
 than an array offset, so the handle is kept apart from plain integers. The
 largest `size_t` is reserved as the "not found" sentinel.

 Every debug check of the C++ class becomes a `requires`; every body performs
 the wrapping `size_t` arithmetic or truncating `static_cast` that the C++ code
 performs, and the `ensures` clauses prove that under the checks nothing wraps
 and nothing is truncated.
 */
module Index {
  import opened Widths

  /** The reserved raw value meaning "no entry": `kNotFound`. */
  const NOT_FOUND: SizeT := SIZE_MAX

  /** The handle: an immutable wrapper around a raw `size_t` entry. Building
      one with the datatype constructor wraps any raw value unchecked, the
      sentinel included. */
  datatype InternalIndex = InternalIndex(entry: SizeT)

  /** The handle that stands for "no such entry". */
  function NotFound(): (r: InternalIndex)
    ensures RawValue(r) == SIZE_MAX
    ensures IsNotFound(r) && !IsFound(r)
  {
    InternalIndex(NOT_FOUND)
  }

  /** The raw entry, returned unchanged. */
  function RawValue(h: InternalIndex): (r: SizeT)
    ensures InternalIndex(r) == h
  {
    h.entry
  }

  /** A handle is found exactly when its entry lies strictly below the largest `size_t`. */
  function IsFound(h: InternalIndex): (b: bool)
    ensures b <==> RawValue(h) < SIZE_MAX
  {
    h.entry != NOT_FOUND
  }

  /** Not-found is the exact negation of found: the entry is the sentinel. */
  function IsNotFound(h: InternalIndex): (b: bool)
    ensures b <==> !IsFound(h)
    ensures b <==> RawValue(h) == SIZE_MAX
  {
    h.entry == NOT_FOUND
  }

  /** The debug check guarding `AdjustDown`: it holds exactly when the
      wrapping subtraction does not underflow. */
  function CanAdjustDown(h: InternalIndex, subtract: SizeT): (b: bool)
    ensures b <==> SizeSub(h.entry, subtract) + subtract == h.entry
  {
    h.entry >= subtract
  }

  /** The debug check guarding `AdjustUp`, `entry < max() - add` evaluated in
      `size_t`: it holds exactly when the sum stays strictly below the largest
      `size_t`, and then the wrapping sum is exact. `SIZE_MAX - add` itself
      cannot wrap, as `add <= SIZE_MAX`. */
  function CanAdjustUp(h: InternalIndex, add: SizeT): (b: bool)
    ensures b <==> h.entry + add < SIZE_MAX
    ensures b ==> SizeAdd(h.entry, add) == h.entry + add
  {
    h.entry < SizeSub(SIZE_MAX, add)
  }

  /** A new handle `subtract` entries lower; the receiver is a value and is
      left as it was. */
  function AdjustDown(h: InternalIndex, subtract: SizeT): (r: InternalIndex)
    requires CanAdjustDown(h, subtract)
    ensures RawValue(r) + subtract == RawValue(h)
    ensures IsFound(h) ==> IsFound(r)
    ensures subtract > 0 ==> IsFound(r)
  {
    InternalIndex(SizeSub(h.entry, subtract))
  }

  /** A new handle `add` entries higher, which is always found. */
  function AdjustUp(h: InternalIndex, add: SizeT): (r: InternalIndex)
    requires CanAdjustUp(h, add)
    ensures RawValue(r) == RawValue(h) + add
    ensures RawValue(r) < SIZE_MAX
    ensures IsFound(r)
  {
    InternalIndex(SizeAdd(h.entry, add))
  }

  /** The debug check guarding `AsUint32`: it holds exactly when the cast
      loses nothing. */
  function FitsUint32(h: InternalIndex): (b: bool)
    ensures b <==> NarrowToUint32(h.entry) == h.entry
  {
    h.entry <= UINT32_MAX
  }

  /** The debug check guarding `AsInt`. Its first half, `entry >= 0`, holds of
      every unsigned entry; the bound `INT_MAX` is compared as a `size_t`.
      It holds exactly when the cast loses nothing. */
  function FitsInt(h: InternalIndex): (b: bool)
    ensures b <==> NarrowToInt(h.entry) == h.entry
  {
    h.entry >= 0 && h.entry <= INT_MAX
  }

  /** The entry as a `uint32_t`, with its value preserved. */
  function AsUint32(h: InternalIndex): (r: Uint32)
    requires FitsUint32(h)
    ensures r == RawValue(h)
  {
    NarrowToUint32(h.entry)
  }

  /** The entry as an `int`, with its value preserved and therefore non-negative. */
  function AsInt(h: InternalIndex): (r: Int)
    requires FitsInt(h)
    ensures r == RawValue(h)
    ensures 0 <= r
  {
    NarrowToInt(h.entry)
  }

  // ---------------------------------------------------------------------
  // Properties relating the operations
  // ---------------------------------------------------------------------

  /** Wrapping a raw value and reading it back gives that value, and every
      handle is the wrapping of its own raw value. */
  lemma RawValueRoundTrip(v: SizeT, h: InternalIndex)
    ensures RawValue(InternalIndex(v)) == v
    ensures InternalIndex(RawValue(h)) == h
  {
  }

  /** `IsFound` and `IsNotFound` are exact negations, and the only handle that
      is not found is `NotFound()`. */
  lemma FoundIffNotSentinel(h: InternalIndex)
    ensures IsFound(h) <==> !IsNotFound(h)
    ensures IsFound(h) <==> RawValue(h) < SIZE_MAX
    ensures IsNotFound(h) <==> h == NotFound()
  {
  }

  /** Every raw value other than the sentinel wraps to a found handle. */
  lemma ConstructedBelowSentinelIsFound(v: SizeT)
    requires v < SIZE_MAX
    ensures IsFound(InternalIndex(v)) && !IsNotFound(InternalIndex(v))
  {
  }

  /** The up-adjustment check is exactly "the sum stays below the sentinel";
      so only found handles can be adjusted up, and `NotFound()` cannot be,
      not even by zero. */
  lemma AdjustUpOnlyOnFound(h: InternalIndex, add: SizeT)
    ensures CanAdjustUp(h, add) <==> RawValue(h) + add < SIZE_MAX
    ensures CanAdjustUp(h, add) ==> IsFound(h)
    ensures !CanAdjustUp(NotFound(), add)
  {
  }

  /** Adjusting up and back down by the same amount returns the original handle. */
  lemma AdjustUpThenDown(h: InternalIndex, d: SizeT)
    requires CanAdjustUp(h, d)
    ensures CanAdjustDown(AdjustUp(h, d), d)
    ensures AdjustDown(AdjustUp(h, d), d) == h
  {
  }

  /** Adjusting a found handle down and back up by the same amount returns it;
      for `NotFound()` the way back up is never allowed. */
  lemma AdjustDownThenUp(h: InternalIndex, d: SizeT)
    requires CanAdjustDown(h, d)
    ensures CanAdjustUp(AdjustDown(h, d), d) <==> IsFound(h)
    ensures IsFound(h) ==> AdjustUp(AdjustDown(h, d), d) == h
  {
  }

  /** Two successive adjustments compose into one by the summed amount. */
  lemma AdjustmentsCompose(h: InternalIndex, a: SizeT, b: SizeT)
    requires CanAdjustUp(h, a) && CanAdjustUp(AdjustUp(h, a), b)
    ensures a + b <= SIZE_MAX
    ensures CanAdjustUp(h, a + b)
    ensures AdjustUp(AdjustUp(h, a), b) == AdjustUp(h, a + b)
  {
  }

  /** Adjusting by zero is the identity wherever it is allowed. */
  lemma AdjustByZero(h: InternalIndex)
    ensures CanAdjustDown(h, 0) && AdjustDown(h, 0) == h
    ensures IsFound(h) ==> CanAdjustUp(h, 0) && AdjustUp(h, 0) == h
  {
  }

  /** A handle that fits an `int` also fits a `uint32_t`, both conversions
      agree, and a handle that fits a `uint32_t` is found. */
  lemma NarrowingsAgree(h: InternalIndex)
    ensures FitsInt(h) ==> FitsUint32(h) && AsInt(h) == AsUint32(h)
    ensures FitsUint32(h) ==> IsFound(h)
    ensures !FitsUint32(NotFound())
  {
    WidthsNest();
  }

  /** The exact range each narrowing accepts, boundary values included. */
  lemma NarrowingBoundaries(v: SizeT)
    ensures FitsUint32(InternalIndex(v)) <==> v <= 0xFFFF_FFFF
    ensures FitsInt(InternalIndex(v)) <==> v <= 0x7FFF_FFFF
    ensures v == 0xFFFF_FFFF ==> FitsUint32(InternalIndex(v)) && AsUint32(InternalIndex(v)) == 0xFFFF_FFFF
    ensures v == 0x7FFF_FFFF ==> FitsInt(InternalIndex(v)) && AsInt(InternalIndex(v)) == 0x7FFF_FFFF
  {
    WidthValues();
  }

  /** Worked values: 5 down by 2 is 3, 5 up by 10 is 15, `NotFound()` holds
      the largest 64-bit value, 5 is found and `NotFound()` is not. */
  lemma Scenarios()
    ensures CanAdjustDown(InternalIndex(5), 2) && RawValue(AdjustDown(InternalIndex(5), 2)) == 3
    ensures CanAdjustUp(InternalIndex(5), 10) && RawValue(AdjustUp(InternalIndex(5), 10)) == 15
    ensures RawValue(NotFound()) == 0xFFFF_FFFF_FFFF_FFFF
    ensures IsFound(InternalIndex(5)) && !IsFound(NotFound())
  {
    WidthValues();
  }
}
