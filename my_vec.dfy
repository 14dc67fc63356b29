/**
 * `MyVec<T>` from src/main.rs: a growable array on top of raw allocation.
 * The record holds a pointer to its buffer, the number of elements the
 * buffer can hold (`capacity`) and the number it holds (`length`). `new`
 * builds the empty vector without allocating; `grow` moves to a larger
 * buffer, by a fresh allocation from the empty state and by reallocation
 * otherwise. An element type is represented by its size in bytes.
 */
module Vec {
  import opened Wrappers
  import opened Alloc

  /** The errors `grow` returns to its caller. */
  datatype GrowError =
    | LayoutFailed  // a `?` on `Layout::array` (main.rs:19, main.rs:30)
    | TooLarge      // "Allocation to large in MyVec::grow" (main.rs:22)

  /** The allocator call `grow` decides to make. */
  datatype AllocRequest =
    | Allocate(layout: Layout)
    | Reallocate(ptr: Ptr, oldLayout: Layout, newSize: nat)

  /** What `grow` has computed when it reaches the allocator. */
  datatype Plan = Plan(newCapacity: nat, newLayout: Layout, request: AllocRequest)

  /** How a call of `grow` ends: it returns its `Result`, or the allocator
      returned null and `handle_alloc_error(layout)` ended the process, so
      that no caller ever sees this outcome. */
  datatype Exit = Returned(result: Result<(), GrowError>) | Aborted(layout: Layout)

  /** The growth rule of main.rs:18, given the outcome of the zero test. It
      strictly increases the capacity exactly when the test is right. */
  function NewCapacity(capacityIsZero: bool, capacity: nat): (r: nat)
    ensures r > capacity <==> (capacityIsZero <==> capacity == 0)
  {
    if capacityIsZero then 1 else 2 * capacity
  }

  /** The test of main.rs:16 as its variable name and its two uses state it:
      with it, the growth rule always increases the capacity. */
  predicate CapacityIsZero(capacity: nat)
    ensures NewCapacity(CapacityIsZero(capacity), capacity) > capacity
  {
    capacity == 0
  }

  /** The test of main.rs:16 as written: the negation of the intended test,
      with which the growth rule never increases the capacity. */
  predicate CapacityIsZeroAsWritten(capacity: nat)
    ensures CapacityIsZeroAsWritten(capacity) == !CapacityIsZero(capacity)
    ensures NewCapacity(CapacityIsZeroAsWritten(capacity), capacity) <= capacity
  {
    capacity != 0
  }

  /** The addresses a pointer owns. */
  function Owned(p: Ptr): set<nat> {
    if p.Block? then {p.addr} else {}
  }

  /** `grow` up to its allocator call (main.rs:16-35), for either reading of
      the zero test: the new capacity and layout and the request, or the
      error it returns before changing anything. */
  function GrowPlan(capacityIsZero: bool, capacity: nat, pointer: Ptr, elemSize: nat)
    : (r: Result<Plan, GrowError>)
    ensures r.Ok? ==> r.value.newCapacity == NewCapacity(capacityIsZero, capacity)
                      && r.value.newLayout.size == r.value.newCapacity * elemSize <= ISIZE_MAX
    ensures r.Ok? ==> (r.value.request.Allocate? <==> capacityIsZero)
    ensures r.Ok? && capacityIsZero ==> r.value.request == Allocate(r.value.newLayout)
    ensures r.Ok? && !capacityIsZero ==>
              r.value.request == Reallocate(pointer, Layout(capacity * elemSize), r.value.newLayout.size)
    ensures r.Err? <==> NewCapacity(capacityIsZero, capacity) * elemSize > ISIZE_MAX
                        || (!capacityIsZero && capacity * elemSize > ISIZE_MAX)
  {
    var newCapacity := NewCapacity(capacityIsZero, capacity);
    match ArrayLayout(newCapacity, elemSize)
    case Err(_) => Err(LayoutFailed)
    case Ok(newLayout) =>
      if newLayout.size > ISIZE_MAX then Err(TooLarge)
      else if capacityIsZero then Ok(Plan(newCapacity, newLayout, Allocate(newLayout)))
      else match ArrayLayout(capacity, elemSize)
        case Err(_) => Err(LayoutFailed)
        case Ok(oldLayout) => Ok(Plan(newCapacity, newLayout, Reallocate(pointer, oldLayout, newLayout.size)))
  }

  lemma AtMostProduct(a: nat, b: nat)
    requires b > 0
    ensures a <= a * b
  {
  }

  /** A capacity whose buffer fits in `isize::MAX` bytes can be doubled in a
      `usize` (main.rs:18 cannot overflow). */
  lemma DoublingFitsUsize(capacity: nat, elemSize: nat)
    requires elemSize > 0 && capacity * elemSize <= ISIZE_MAX
    ensures 2 * capacity <= USIZE_MAX
  {
    AtMostProduct(capacity, elemSize);
  }

  /** Under the intended zero test and the record's invariant, `grow`
      fails exactly when the doubled (or unit) capacity would need more than
      `isize::MAX` bytes; otherwise the capacity strictly increases, the
      empty vector asks for a fresh block of one element and a non-empty one
      asks to reallocate its own block to twice its size. */
  lemma GrowPlanAsIntended(capacity: nat, pointer: Ptr, elemSize: nat)
    requires elemSize > 0 && capacity * elemSize <= ISIZE_MAX
    ensures var r := GrowPlan(CapacityIsZero(capacity), capacity, pointer, elemSize);
            && (r.Err? <==> NewCapacity(CapacityIsZero(capacity), capacity) * elemSize > ISIZE_MAX)
            && (r.Err? ==> r.error == LayoutFailed)
            && (r.Ok? ==> r.value.newCapacity > capacity)
            && (r.Ok? && capacity == 0 ==> r.value.request == Allocate(Layout(elemSize)))
            && (r.Ok? && capacity > 0 ==>
                  r.value.request == Reallocate(pointer, Layout(capacity * elemSize), 2 * capacity * elemSize))
  {
  }

  /** The check of main.rs:21-23 never fires: `Layout::array` at main.rs:19
      has already refused every size above `isize::MAX`. */
  lemma TooLargeNeverReturned(capacityIsZero: bool, capacity: nat, pointer: Ptr, elemSize: nat)
    ensures GrowPlan(capacityIsZero, capacity, pointer, elemSize) != Err(TooLarge)
  {
  }

  /** As written, `grow` on the vector `new` returns computes a new
      capacity of 0 and asks to reallocate the dangling placeholder to zero
      bytes, which no allocator allows: the placeholder was never allocated. */
  lemma AsWrittenGrowFromEmpty(heap: Heap, elemSize: nat)
    ensures GrowPlan(CapacityIsZeroAsWritten(0), 0, Dangling, elemSize)
            == Ok(Plan(0, Layout(0), Reallocate(Dangling, Layout(0), 0)))
    ensures !heap.ReallocAllowed(Dangling, Layout(0), 0)
  {
  }

  /** As written, `grow`'s plan never increases the capacity: from 0 it
      stays 0, and from any other capacity it resets to 1 and requests a
      fresh allocation instead of a reallocation of the current block. From
      a capacity of 2 or more the new capacity is strictly smaller. */
  lemma AsWrittenGrowNeverIncreases(capacity: nat, pointer: Ptr, elemSize: nat)
    ensures var r := GrowPlan(CapacityIsZeroAsWritten(capacity), capacity, pointer, elemSize);
            && (r.Ok? ==> r.value.newCapacity <= capacity)
            && (capacity > 0 && elemSize <= ISIZE_MAX ==>
                  r == Ok(Plan(1, Layout(elemSize), Allocate(Layout(elemSize)))))
            && (capacity >= 2 && elemSize <= ISIZE_MAX ==> r.Ok? && r.value.newCapacity < capacity)
  {
  }

  /** 2 to the power `n`. */
  function Pow2(n: nat): (r: nat)
    ensures r >= 1
  {
    if n == 0 then 1 else 2 * Pow2(n - 1)
  }

  lemma {:induction false} Pow2Add(a: nat, b: nat)
    ensures Pow2(a + b) == Pow2(a) * Pow2(b)
  {
    if a > 0 {
      Pow2Add(a - 1, b);
      assert Pow2(a + b) == 2 * Pow2(a - 1 + b);
    }
  }

  /** `isize::MAX` is 2^63 - 1. */
  lemma IsizeMaxIsPow2Minus1()
    ensures Pow2(63) == ISIZE_MAX + 1
  {
    assert Pow2(7) == 128;
    assert Pow2(8) == 256;
    Pow2Add(8, 7);
    Pow2Add(8, 8);
    Pow2Add(16, 15);
    Pow2Add(16, 16);
    Pow2Add(32, 31);
  }

  lemma {:induction false} Pow2AboveIsizeMax(n: nat)
    requires n >= 63
    ensures Pow2(n) > ISIZE_MAX
  {
    if n == 63 {
      IsizeMaxIsPow2Minus1();
    } else {
      Pow2AboveIsizeMax(n - 1);
    }
  }

  /** The capacity after `k` successful calls of `grow` from the empty
      vector, under the intended zero test. */
  function CapacityAfter(k: nat): nat {
    if k == 0 then 0 else NewCapacity(CapacityIsZero(CapacityAfter(k - 1)), CapacityAfter(k - 1))
  }

  /** The same, under the zero test as written. */
  function CapacityAfterAsWritten(k: nat): nat {
    if k == 0 then 0
    else NewCapacity(CapacityIsZeroAsWritten(CapacityAfterAsWritten(k - 1)), CapacityAfterAsWritten(k - 1))
  }

  /** Growing from empty runs through the powers of two: 1, 2, 4, 8, ... */
  lemma {:induction false} CapacityAfterIsPowerOfTwo(k: nat)
    ensures CapacityAfter(k) == if k == 0 then 0 else Pow2(k - 1)
  {
    if k > 0 {
      CapacityAfterIsPowerOfTwo(k - 1);
    }
  }

  /** Since every buffer fits in `isize::MAX` bytes, at most 63 calls of
      `grow` from the empty vector succeed: from the 64th on, the new
      capacity asks for too many bytes whatever the element size. */
  lemma GrowthFailsAfter63(k: nat, elemSize: nat)
    requires k >= 64 && elemSize > 0
    ensures CapacityAfter(k) * elemSize > ISIZE_MAX
  {
    CapacityAfterIsPowerOfTwo(k);
    Pow2AboveIsizeMax(k - 1);
    AtMostProduct(CapacityAfter(k), elemSize);
  }

  /** With one-byte elements the 63rd growth from empty still fits, so the
      bound of `GrowthFailsAfter63` is reached. */
  lemma Growth63FitsForBytes()
    ensures CapacityAfter(63) <= ISIZE_MAX
  {
    CapacityAfterIsPowerOfTwo(63);
    IsizeMaxIsPow2Minus1();
    assert Pow2(63) == 2 * Pow2(62);
  }

  /** As written, the capacity arithmetic of repeated growth from empty
      stays at capacity 0. It follows only the arithmetic of main.rs:18: the
      first as-written growth already breaks `realloc`'s precondition
      (`AsWrittenGrowFromEmpty`). */
  lemma {:induction false} CapacityAfterAsWrittenIsZero(k: nat)
    ensures CapacityAfterAsWritten(k) == 0
  {
    if k > 0 {
      CapacityAfterAsWrittenIsZero(k - 1);
    }
  }

  class MyVec {
    const elemSize: nat
    var pointer: Ptr
    var capacity: usize
    var length: usize

    /** The record's invariant: at most `capacity` elements are held; an
        empty buffer is the dangling placeholder; a non-empty one is a live
        block of exactly `capacity * elemSize` bytes, at most `isize::MAX`. */
    ghost predicate Valid(heap: Heap)
      reads this, heap
      ensures Valid(heap) ==> capacity <= ISIZE_MAX && 2 * capacity <= USIZE_MAX
    {
      if elemSize > 0 && capacity * elemSize <= ISIZE_MAX then
        AtMostProduct(capacity, elemSize);
        && length <= capacity
        && (capacity == 0 ==> pointer == Dangling)
      && (capacity > 0 ==> pointer.Block? && pointer.addr in heap.blocks
                           && |heap.blocks[pointer.addr]| == capacity * elemSize)
      else
        false
    }

    /** The bytes of the buffer the vector owns. */
    ghost function Buffer(heap: Heap): (b: seq<byte>)
      requires Valid(heap)
      reads this, heap
      ensures |b| == capacity * elemSize
    {
      if capacity == 0 then [] else heap.blocks[pointer.addr]
    }

    /** `MyVec::new`: the empty vector, with the dangling placeholder and no
        allocation. A zero-sized element type fails the assertion at
        main.rs:47, which is not a returned error. */
    constructor (elemSize: nat)
      requires elemSize != 0
      ensures this.elemSize == elemSize
      ensures pointer == Dangling && capacity == 0 && length == 0
      ensures forall heap: Heap :: Valid(heap) && Buffer(heap) == []
    {
      this.elemSize := elemSize;
      pointer := Dangling;
      capacity := 0;
      length := 0;
    }

    /** `MyVec::grow` with the zero test its variable name states. */
    method Grow(heap: Heap) returns (exit: Exit)
      requires Valid(heap) && heap.Valid()
      modifies this, heap
      ensures heap.Valid()
      ensures length == old(length)
      ensures var plan := GrowPlan(CapacityIsZero(old(capacity)), old(capacity), old(pointer), elemSize);
              && (plan.Err? <==> exit.Returned? && exit.result.Err?)
              && (plan.Err? ==> exit.result.error == plan.error)
              && (exit.Aborted? ==> plan.Ok? && exit.layout == plan.value.newLayout)
              && (exit == Returned(Ok(())) ==> plan.Ok? && capacity == plan.value.newCapacity)
      ensures exit.Returned? && exit.result.Err? <==>
                NewCapacity(CapacityIsZero(old(capacity)), old(capacity)) * elemSize > ISIZE_MAX
      ensures exit.Returned? && exit.result.Err? ==> exit.result.error == LayoutFailed
      ensures !(exit == Returned(Ok(()))) ==>
                pointer == old(pointer) && capacity == old(capacity) && heap.blocks == old(heap.blocks)
      ensures exit.Returned? ==> Valid(heap)
      ensures exit == Returned(Ok(())) ==>
                && capacity > old(capacity)
                && Buffer(heap)[..old(capacity) * elemSize] == old(Buffer(heap))
                && heap.blocks - Owned(pointer) == old(heap.blocks) - Owned(old(pointer))
                && (pointer == old(pointer) || pointer.addr !in old(heap.blocks))
    {
      GrowPlanAsIntended(capacity, pointer, elemSize);
      var capacityIsZero := capacity == 0;
      DoublingFitsUsize(capacity, elemSize);
      var newCapacity: usize := if capacityIsZero then 1 else 2 * capacity;
      var newLayoutResult := ArrayLayout(newCapacity, elemSize);
      if newLayoutResult.Err? {
        return Returned(Err(LayoutFailed));
      }
      var newLayout := newLayoutResult.value;
      if newLayout.size > ISIZE_MAX {
        return Returned(Err(TooLarge));
      }
      var newPointer: Ptr;
      if capacityIsZero {
        newPointer := heap.Alloc(newLayout);
      } else {
        var oldLayoutResult := ArrayLayout(capacity, elemSize);
        if oldLayoutResult.Err? {
          return Returned(Err(LayoutFailed));
        }
        newPointer := heap.Realloc(pointer, oldLayoutResult.value, newLayout.size);
      }
      if newPointer.Null? {
        return Aborted(newLayout);
      }
      pointer := newPointer;
      capacity := newCapacity;
      return Returned(Ok(()));
    }
  }
}
