# InternalIndex: a checked entry handle

A Dafny model of V8's `InternalIndex` (`src/objects/internal-index.h`), the
value type that wraps a `size_t` "entry" of an internal collection. For
dictionary backing stores an entry is a hash-table slot, not an array offset,
so the handle keeps entries apart from plain integers. The largest `size_t` is
reserved as the sentinel `kNotFound`.

The model has two modules:

- `Widths` (`widths.dfy`) fixes the C++ integer widths as named constants
  (`SIZE_BITS` = 64, `UINT32_BITS` = 32, `INT_BITS` = 32), from which
  `SIZE_MAX`, `UINT32_MAX`, `INT_MAX` and `INT_MIN` are derived. The limits,
  the subset types and the wrapping operations follow the constants. The
  lemmas `WidthValues`, `WidthsNest`, `NarrowingsAgree`, `NarrowingBoundaries`
  and `Scenarios` are facts of the 64-bit target. For another width they must
  be restated, and some stop holding: with a 32-bit `size_t` the sentinel fits
  a `uint32_t`. It also defines the machine
  operations the class uses. `size_t` addition and subtraction wrap modulo
  2^64. `static_cast` to a narrower type keeps the low-order bits, read as
  unsigned for `uint32_t` and as two's complement for `int`. Truncation is
  defined bit by bit (`LowBits`) and proved equal to reduction modulo 2^n,
  which is how the C++ standard defines the conversion.
- `Index` (`internal_index.dfy`) holds the handle: the datatype
  `InternalIndex`, the sentinel `NOT_FOUND` (`kNotFound`, line 48 of the
  header, equal to `SIZE_MAX`), the `NotFound()` factory, the found/not-found queries,
  `AdjustDown`, `AdjustUp`, `RawValue`, `AsUint32` and `AsInt`. Each `DCHECK`
  of the class becomes a `requires`, written as a named predicate
  (`CanAdjustDown`, `CanAdjustUp`, `FitsUint32`, `FitsInt`). Each body performs
  the wrapping arithmetic or truncating cast that the C++ body performs. The
  `ensures` clauses prove that under the checks nothing wraps and nothing is
  truncated.

One might expect the adjustments to refuse a not-found handle. The code does
not check this for `adjust_down`, and the model follows the code. So `AdjustDown` is
allowed on `NotFound()`, and by zero it returns `NotFound()` again. For
`adjust_up`, the code's own check already rules out a not-found receiver, even
with an amount of zero. `AdjustUpOnlyOnFound` proves this.

## Model

| member | source | states |
|---|---|---|
| `Widths.WidthValues` | src/objects/internal-index.h:48 | the sentinel `SIZE_MAX` is 2^64-1, `UINT32_MAX` is 2^32-1, `INT_MAX` is 2^31-1 and `INT_MIN` is -2^31 |
| `Widths.WidthsNest` | src/objects/internal-index.h:38-45 | the non-negative `int` range sits inside the `uint32_t` range, which lies strictly below `SIZE_MAX` |
| `Widths.LowBits` | src/objects/internal-index.h:40 | keeping the low n bits gives a value below 2^n that never exceeds the input, and leaves a value that already fits unchanged |
| `Widths.LowBitsIsModulo` | src/objects/internal-index.h:40 | keeping the low n bits equals reduction modulo 2^n, the standard meaning of a conversion to an n-bit unsigned type |
| `Widths.SizeAdd` | src/objects/internal-index.h:31 | `size_t` addition is the exact sum when the sum fits, and is otherwise the sum minus 2^64 |
| `Widths.SizeSub` | src/objects/internal-index.h:27 | `size_t` subtraction is the exact difference when it is non-negative, and is otherwise the difference plus 2^64 |
| `Widths.NarrowToUint32` | src/objects/internal-index.h:40 | `static_cast<uint32_t>` gives the value modulo 2^32, which is the value itself when it fits |
| `Widths.ToSigned` | src/objects/internal-index.h:44 | an n-bit unsigned pattern read as two's complement lands in the signed range, differs from the pattern by 0 or 2^n, and is the pattern itself exactly when the pattern is below 2^(n-1) |
| `Widths.NarrowToInt` | src/objects/internal-index.h:44 | `static_cast<int>` gives the value modulo 2^32, moved into the signed range, which is the value itself when it is at most `INT_MAX` |
| `Index.NotFound` | src/objects/internal-index.h:23 | the factory's handle has raw value `SIZE_MAX`, is not-found and is not found |
| `Index.IsFound` | src/objects/internal-index.h:34 | a handle is found iff its raw value is strictly below `SIZE_MAX` |
| `Index.IsNotFound` | src/objects/internal-index.h:35 | not-found is the exact negation of found, and holds iff the raw value is `SIZE_MAX` |
| `Index.CanAdjustDown` | src/objects/internal-index.h:26 | the `DCHECK_GE` holds iff the wrapping `size_t` subtraction does not underflow |
| `Index.CanAdjustUp` | src/objects/internal-index.h:30 | the `DCHECK_LT`, with `max() - add` computed in `size_t`, holds iff `raw + add < SIZE_MAX`, and then the wrapping sum is exact |
| `Index.FitsUint32` | src/objects/internal-index.h:39 | the `DCHECK_LE` holds iff `static_cast<uint32_t>` returns the raw value unchanged |
| `Index.FitsInt` | src/objects/internal-index.h:43 | the `DCHECK` holds iff `static_cast<int>` returns the raw value unchanged |
| `Index.RawValue` | src/objects/internal-index.h:37 | the raw value read back re-wraps to the same handle: nothing is lost in reading it |
| `Index.AdjustDown` | src/objects/internal-index.h:25-28 | under `raw >= subtract` the new raw value plus `subtract` is the old one (no underflow), and a found receiver gives a found result |
| `Index.AdjustUp` | src/objects/internal-index.h:29-32 | under `raw < SIZE_MAX - add` the new raw value is exactly `raw + add` (no overflow), strictly below the sentinel, so found |
| `Index.AsUint32` | src/objects/internal-index.h:38-41 | under `raw <= UINT32_MAX` the `uint32_t` result equals the raw value |
| `Index.AsInt` | src/objects/internal-index.h:42-45 | under `0 <= raw <= INT_MAX` the `int` result equals the raw value and is non-negative |
| `Index.RawValueRoundTrip` | src/objects/internal-index.h:22 | wrapping any raw value and reading it back returns it, and every handle is the wrapping of its own raw value |
| `Index.FoundIffNotSentinel` | src/objects/internal-index.h:34-35 | found and not-found are exact negations; found holds iff the raw value is below `SIZE_MAX`; not-found holds iff the handle is `NotFound()` |
| `Index.ConstructedBelowSentinelIsFound` | src/objects/internal-index.h:34-35 | a handle built from any raw value below the sentinel is found and not not-found |
| `Index.AdjustUpOnlyOnFound` | src/objects/internal-index.h:29-30 | the up-adjustment check holds iff `raw + add < SIZE_MAX`; it implies the receiver is found, and it fails on `NotFound()` for every amount, zero included |
| `Index.AdjustUpThenDown` | src/objects/internal-index.h:25-32 | after an allowed up-adjustment, adjusting back down by the same amount is allowed and returns the original handle |
| `Index.AdjustDownThenUp` | src/objects/internal-index.h:25-32 | after an allowed down-adjustment, adjusting back up by the same amount is allowed iff the original is found, and then returns it |
| `Index.AdjustmentsCompose` | src/objects/internal-index.h:29-32 | two allowed up-adjustments by a and b equal one allowed up-adjustment by a + b |
| `Index.AdjustByZero` | src/objects/internal-index.h:25-32 | adjusting down by zero is always allowed and is the identity; adjusting up by zero is allowed on found handles and is the identity |
| `Index.NarrowingsAgree` | src/objects/internal-index.h:38-45 | a handle that fits an `int` also fits a `uint32_t` and both conversions agree; a handle that fits a `uint32_t` is found; `NotFound()` fits neither |
| `Index.NarrowingBoundaries` | src/objects/internal-index.h:38-45 | `as_uint32` accepts exactly raw values up to 0xFFFFFFFF and `as_int` exactly those up to 0x7FFFFFFF, both boundaries included and converted exactly |
| `Index.Scenarios` | src/objects/internal-index.h:22-35 | 5 adjusted down by 2 is 3; 5 adjusted up by 10 is 15; `NotFound()` holds 2^64-1; 5 is found and `NotFound()` is not |

## Left out

- Release builds, where a failed `DCHECK` is skipped: every operation's check is a `requires`, so a wrapped sum or a truncated cast is never reachable through the model. The wrapping operators are defined (`SizeAdd`, `SizeSub`, `NarrowToUint32`, `NarrowToInt`) only so the guarded bodies compute what the C++ bodies compute.
- `Widths.NarrowToInt`: for values above `INT_MAX` it follows the two's-complement rule of C++20, where older standards leave the result implementation-defined. No guarded call reaches that case.
- The `DCHECK` macros and logging of `src/base/logging.h`: a debug-only abort mechanism. That file is not part of this model.
- Platform dependence of `size_t` and `int`: the widths are fixed constants for a 64-bit target, not a choice between platforms.
- The collections that produce and consume handles (`GetEntryForIndex` and its callers): they are not part of this model.
- Staleness of a handle after its collection changes: the type tracks nothing about its collection.
- The receiver staying unchanged after `adjust_down` and `adjust_up`: handles are immutable Dafny values and the adjustments are pure functions, so this holds by construction and no member states it.
