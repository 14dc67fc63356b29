# MyVec: a growable array on raw allocation, in Dafny

This project models `MyVec<T>` from `src/main.rs`. It is a hand-rolled vector: a record with a buffer pointer, a
`capacity` (how many elements the buffer can hold) and a `length` (how many it holds). The model covers its
constructor `new` and its `grow` operation.

- `wrappers.dfy` (module `Wrappers`): the `Result` datatype for `grow`'s recoverable errors.
- `alloc.dfy` (module `Alloc`): the parts of `std::alloc` the vector uses, on a 64-bit target.
  - `usize::MAX` and `isize::MAX`.
  - `Layout::array` (`ArrayLayout`): it refuses any byte size above `isize::MAX`.
  - Raw pointers (`Ptr`): null, the `NonNull::dangling()` placeholder, or a block.
  - A `Heap` class standing for the global allocator. Its `Alloc` and `Realloc` methods follow the documented
    contracts. `Alloc` returns null or a fresh block. `Realloc` returns null (old block untouched) or a block
    whose old prefix is preserved. `Realloc` may only be called on a live block with the layout it was
    allocated with, and with a new size that is non-zero and at most `isize::MAX`.
- `my_vec.dfy` (module `Vec`):
  - The class `MyVec` has the record's fields and the element size as a positive constant.
  - `Valid(heap)` is its invariant. `length <= capacity`. The buffer fits in `isize::MAX` bytes. A vector of
    capacity 0 holds the dangling placeholder. One of positive capacity owns a live block of exactly
    `capacity * elemSize` bytes.
  - `GrowPlan` is `grow` up to its allocator call. It takes the outcome of the zero test of main.rs:16 as a
    parameter, so both readings of that line (see Findings) are the same function.
  - `MyVec.Grow` is the imperative `grow`, proved against `GrowPlan` and the allocator contracts.

A null pointer from the allocator is passed to `handle_alloc_error`, which never returns. In Dafny a method that
never returns needs `decreases *`, and that would spread to every caller. So `Grow` returns an `Exit`:
`Returned(result)` is the `Result` the Rust caller sees, and `Aborted(layout)` stands for the process ending in
`handle_alloc_error(layout)`. `Aborted` is kept apart from `Err` on purpose. Out-of-memory is never an `Err`:
`Grow` proves that `Err` happens exactly when the byte size is too large.

## Model

| member | source | states |
|---|---|---|
| `Vec.MyVec.Valid` | src/main.rs:5-9 | The record's invariant: at most `capacity` elements are held, the buffer fits in `isize::MAX` bytes, capacity 0 means the dangling placeholder, and a positive capacity means a live block of exactly `capacity * elemSize` bytes. Its contract adds that a valid record's `capacity` fits in `isize::MAX` and can be doubled in a `usize`. |
| `Vec.CapacityIsZero` | src/main.rs:16 | The zero test as the variable's name and its uses at lines 18 and 25 state it. With it, the growth rule always strictly increases the capacity. |
| `Vec.CapacityIsZeroAsWritten` | src/main.rs:16 | The zero test as written, `self.capacity != 0`. It is the negation of the intended test, and with it the growth rule never increases the capacity. |
| `Vec.NewCapacity` | src/main.rs:18 | The growth rule, 1 when the test says zero and twice the capacity otherwise. It strictly increases the capacity exactly when the test's outcome agrees with `capacity == 0`. |
| `Alloc.ArrayLayout` | src/main.rs:19 | `Layout::array` as used at lines 19 and 30: `Ok` with exactly `n * elemSize` bytes when that is at most `isize::MAX`, otherwise `Err`. |
| `Vec.MyVec.constructor` | src/main.rs:46-55 | `new` requires a non-zero element size, because the assertion at line 47 is fatal and not an error. It yields the dangling pointer, `capacity == 0` and `length == 0`. It allocates nothing: it takes no heap, and the empty vector is valid against every heap with an empty buffer. |
| `Vec.MyVec.Grow` | src/main.rs:15-44 | `grow` never changes `length`. It returns `Err` exactly when the new capacity's byte size exceeds `isize::MAX`, and then changes no field and no heap block. `Aborted` comes only after a successful plan, carries the new layout, and leaves every field and heap block unchanged. On `Ok`, `capacity` is exactly the planned new capacity and strictly larger, and the invariant (with `length <= capacity`) still holds. The old buffer's bytes are a prefix of the new buffer. Only the vector's own block changed in the heap, and the new block is either the old address or a fresh one. |
| `Vec.GrowPlan` | src/main.rs:16-35 | On success, the new capacity follows the growth rule of line 18 and the new layout is `newCapacity * elemSize` bytes, at most `isize::MAX`. The request is a fresh allocation of the new layout exactly when the zero test holds. Otherwise it reallocates the current pointer from `capacity * elemSize` bytes to the new size. It fails exactly when the new byte size, or the old one on the realloc path, exceeds `isize::MAX`. |
| `Vec.GrowPlanAsIntended` | src/main.rs:16-34 | With the test `capacity == 0` and a valid record, `grow` fails exactly on byte-size overflow, and only with the `Layout::array` error. On success the capacity strictly increases. From empty, it asks for a fresh block of one element. Otherwise it asks to reallocate its own block to twice its size. |
| `Vec.TooLargeNeverReturned` | src/main.rs:19-23 | The explicit `isize::MAX` check never fires: `Layout::array` has already refused every such size. |
| `Vec.DoublingFitsUsize` | src/main.rs:18 | `2 * capacity` cannot overflow `usize` for a capacity whose buffer fits in `isize::MAX` bytes. |
| `Vec.AsWrittenGrowFromEmpty` | src/main.rs:16-34 | As written, `grow` on a new vector computes capacity 0. It then asks `realloc` to resize the dangling placeholder to zero bytes, which the allocator's contract forbids. This is the failure the comment at line 33 records. |
| `Vec.AsWrittenGrowNeverIncreases` | src/main.rs:16-27 | As written, a successful plan never increases the capacity. From a non-zero capacity the request is a fresh one-element `Allocate` rather than a reallocation of the current block. From capacity 2 or more the new capacity is strictly smaller. |
| `Vec.CapacityAfterIsPowerOfTwo` | src/main.rs:18 | With the intended test, `k` successful growths from empty give capacity `2^(k-1)`: 1, 2, 4, 8, ... |
| `Vec.CapacityAfterAsWrittenIsZero` | src/main.rs:16-18 | With the test as written, the capacity arithmetic of line 18, repeated from empty, stays at capacity 0. It follows only the arithmetic: the first as-written growth already breaks `realloc`'s precondition. |
| `Vec.GrowthFailsAfter63` | src/main.rs:19-23 | From empty, growth number 64 and every later one asks for more than `isize::MAX` bytes whatever the element size. |
| `Vec.Growth63FitsForBytes` | src/main.rs:19-23 | With one-byte elements, growth 63 from empty still fits in `isize::MAX` bytes, so the bound of 63 successful growths is reached. |
| `Alloc.Heap.Alloc` | src/main.rs:27 | `alloc` returns null with the heap unchanged, or a fresh block of the layout's size with no other block changed. |
| `Alloc.Heap.Realloc` | src/main.rs:34 | `realloc` is allowed only on a live block with its own layout and a new size that is non-zero and at most `isize::MAX`. It returns null with the heap unchanged, or a block of the new size at the old address or a fresh one. That block's first `min(old, new)` bytes are the old block's, and the old block is gone. |

## Left out

- `main` (src/main.rs:59-64) is a demonstration entry point.
- The `Send`/`Sync` markers (src/main.rs:11-12) are declarations with no behaviour.
- Pointer machinery is not modelled: `NonNull`, casts to byte pointers, and the allocator's internals. The
  allocator is a map from addresses to byte contents. Alignment is dropped from `Layout`, and the dangling
  placeholder's address (the alignment) is not modelled.
- `Vec.MyVec.Grow`: the non-returning `handle_alloc_error` path is a returned `Aborted` value, because a non-returning
  Dafny method needs `decreases *`, which would spread to every caller. No caller can observe it.
- `Alloc.ArrayLayout` follows `Layout::array`'s documented rule. It assumes the element size is a multiple of its
  alignment, as every Rust type's is. A standard library whose `Layout::array` checked differently would make the
  line-21 check reachable.
- `usize` is 64 bits wide (`isize::MAX` is 2^63 - 1). Other pointer widths change only the constants.
- Element values are not modelled. The buffer is bytes, and elements are counted by `length`.
- Push, pop and dropping the vector (including freeing its buffer) do not appear in src/main.rs, so they are not
  modelled.

## Findings

| source | as written | input that shows it | evidently intended | confidence | as-written member | corrected member |
|---|---|---|---|---|---|---|
| src/main.rs:16 | `let capacity_is_zero: bool = self.capacity != 0;`, used as "capacity is zero" at lines 18 and 25 | `MyVec::new()` then `grow()` (what `main` does): new capacity `2 * 0 = 0`, then `realloc` of the dangling pointer to zero bytes. Hypothetically, from capacity 4, which cannot be reached from `new`, the plan sets capacity 1 through a fresh allocation. | `self.capacity == 0` | high; not executed | `Vec.AsWrittenGrowFromEmpty` | `Vec.MyVec.Grow` |

The as-written reading is also covered by `Vec.AsWrittenGrowNeverIncreases` and `Vec.CapacityAfterAsWrittenIsZero`.
The corrected reading is `Vec.GrowPlanAsIntended` (capacity strictly increases) and `Vec.CapacityAfterIsPowerOfTwo`.
`Vec.MyVec.Grow` uses the corrected test.
