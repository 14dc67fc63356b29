/**
 * The part of Rust's `std::alloc` that `MyVec` relies on, on a 64-bit target:
 * the size limits of `usize` and `isize`, `Layout::array`, and a global
 * allocator whose `alloc` and `realloc` are given by their documented
 * contracts. Alignment is not modelled.
 */
module Alloc {
  import opened Wrappers

  const USIZE_MAX: nat := 0xFFFF_FFFF_FFFF_FFFF
  const ISIZE_MAX: nat := 0x7FFF_FFFF_FFFF_FFFF

  type usize = x: nat | x <= USIZE_MAX

  newtype byte = x: int | 0 <= x < 256

  /** A raw pointer as `MyVec` sees it: null, the placeholder of
      `NonNull::dangling()` (non-null, but owning nothing), or the start
      of a block handed out by the allocator. */
  datatype Ptr = Null | Dangling | Block(addr: nat)

  /** A `Layout` reduced to its byte size. */
  datatype Layout = Layout(size: nat)

  datatype LayoutError = LayoutError

  /** `Layout::array::<T>(n)` for an element type of `elemSize` bytes: the
      layout of `n` consecutive elements, refused when its byte size would
      exceed `isize::MAX` (the size of a Rust type is a multiple of its
      alignment, so rounding up to the alignment changes nothing). */
  function ArrayLayout(n: nat, elemSize: nat): (r: Result<Layout, LayoutError>)
    ensures r.Ok? <==> n * elemSize <= ISIZE_MAX
    ensures r.Ok? ==> r.value.size == n * elemSize
  {
    if n * elemSize <= ISIZE_MAX then Ok(Layout(n * elemSize)) else Err(LayoutError)
  }

  function Min(a: nat, b: nat): nat {
    if a <= b then a else b
  }

  /** The global allocator: the blocks it has handed out and not taken back,
      each with its current contents. Addresses at or above `top` have never
      been handed out. */
  class Heap {
    var blocks: map<nat, seq<byte>>
    var top: nat

    ghost predicate Valid()
      reads this
    {
      forall a :: a in blocks ==> a < top
    }

    constructor ()
      ensures Valid() && blocks == map[]
    {
      blocks := map[];
      top := 0;
    }

    /** What `alloc::realloc(p, layout, newSize)` demands of its caller:
        `p` was handed out by this allocator and is still live, `layout` is
        the layout it was allocated with, and the new size is non-zero and
        at most `isize::MAX` (no rounding to the alignment is modelled). */
    ghost predicate ReallocAllowed(p: Ptr, layout: Layout, newSize: nat)
      reads this
    {
      p.Block? && p.addr in blocks && |blocks[p.addr]| == layout.size && 0 < newSize <= ISIZE_MAX
    }

    /** `alloc::alloc(layout)`: null when memory is exhausted, otherwise a
        new block of `layout.size` uninitialised bytes; no other block changes. */
    method Alloc(layout: Layout) returns (p: Ptr)
      requires Valid() && layout.size > 0
      modifies this
      ensures Valid()
      ensures p.Null? || p.Block?
      ensures p.Null? ==> blocks == old(blocks)
      ensures p.Block? ==> p.addr !in old(blocks) && p.addr in blocks
                           && |blocks[p.addr]| == layout.size
                           && blocks == old(blocks)[p.addr := blocks[p.addr]]
    {
      var succeeds: bool :| true;
      if !succeeds {
        return Null;
      }
      var uninit: seq<byte> :| |uninit| == layout.size by {
        assert |seq(layout.size, _ => 0 as byte)| == layout.size;
      }
      p := Block(top);
      blocks := blocks[top := uninit];
      top := top + 1;
    }

    /** `alloc::realloc(p, layout, newSize)`: null when memory is exhausted,
        and then the old block is untouched; otherwise a block of `newSize`
        bytes, at the same address or at a new one, whose first
        `min(layout.size, newSize)` bytes are those of the old block. The
        old block is gone and no other block changes. */
    method Realloc(p: Ptr, layout: Layout, newSize: nat) returns (q: Ptr)
      requires Valid() && ReallocAllowed(p, layout, newSize)
      modifies this
      ensures Valid()
      ensures q.Null? || q.Block?
      ensures q.Null? ==> blocks == old(blocks)
      ensures q.Block? ==> (q.addr == p.addr || q.addr !in old(blocks))
                           && q.addr in blocks && |blocks[q.addr]| == newSize
                           && blocks[q.addr][..Min(layout.size, newSize)]
                              == old(blocks[p.addr])[..Min(layout.size, newSize)]
                           && blocks == (old(blocks) - {p.addr})[q.addr := blocks[q.addr]]
    {
      var succeeds: bool :| true;
      if !succeeds {
        return Null;
      }
      var kept := Min(layout.size, newSize);
      var uninit: seq<byte> :| |uninit| == newSize - kept by {
        assert |seq(newSize - kept, _ => 0 as byte)| == newSize - kept;
      }
      var moves: bool :| true;
      var addr := if moves then top else p.addr;
      var contents := blocks[p.addr][..kept] + uninit;
      assert contents[..kept] == blocks[p.addr][..kept];
      blocks := (blocks - {p.addr})[addr := contents];
      if moves {
        top := top + 1;
      }
      q := Block(addr);
    }
  }
}
