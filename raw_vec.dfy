/** The raw buffer layer: a block of `cap` uninitialised slots and its growth policy. */
module RawVecs {
  import opened Common

  /** Capacity after one growth step: an empty buffer gets one slot, any other doubles. */
  function NewCap(cap: nat): nat
  {
    if cap == 0 then 1 else 2 * cap
  }

  /** The panic `RawVec::grow` raises for a buffer of `cap` slots of `elemSize` bytes, if any:
      a zero-sized type never grows, and a layout of more than `isize::MAX` bytes is refused. */
  function GrowCheck(elemSize: nat, cap: nat): Option<Panic>
  {
    if elemSize == 0 then Some(CapacityOverflow)
    else if NewCap(cap) * elemSize > ISIZE_MAX then Some(LayoutError)
    else None
  }

  ghost predicate IsPowerOfTwo(n: nat)
  {
    n == 1 || (n > 1 && n % 2 == 0 && IsPowerOfTwo(n / 2))
  }

  /** Starting from 0, growth only ever produces powers of two. */
  lemma NewCapIsPowerOfTwo(cap: nat)
    requires cap == 0 || IsPowerOfTwo(cap)
    ensures IsPowerOfTwo(NewCap(cap))
  {
    if cap != 0 {
      assert NewCap(cap) / 2 == cap;
    }
  }

  /** A capacity whose layout fits in `isize::MAX` bytes can be doubled without
      wrapping a `usize`, so `2 * self.cap` never overflows. */
  lemma DoublingFitsUsize(cap: nat, elemSize: nat)
    requires elemSize >= 1 && cap * elemSize <= ISIZE_MAX
    ensures NewCap(cap) <= USIZE_MAX
  {
    assert cap <= cap * elemSize by {
      assert cap * elemSize == cap + cap * (elemSize - 1);
    }
  }

  /** A successful growth keeps the layout within `isize::MAX` bytes. */
  lemma GrowCheckBoundsLayout(elemSize: nat, cap: nat)
    requires GrowCheck(elemSize, cap).None?
    ensures elemSize >= 1 && NewCap(cap) * elemSize <= ISIZE_MAX && NewCap(cap) <= ISIZE_MAX
  {
    var c := NewCap(cap);
    assert c <= c * elemSize by {
      assert c * elemSize == c + c * (elemSize - 1);
    }
  }

  /** `RawVec<T>`: the pointer `ptr` (a 0-length array stands for the dangling
      pointer, i.e. no allocation) and the capacity `cap`. `elemSize` is
      `size_of::<T>()`, fixed for the type. */
  class RawVec<T(0)> {
    var ptr: array<T>
    var cap: nat
    const elemSize: nat

    ghost predicate Valid()
      reads this
    {
      && cap <= USIZE_MAX
      && if elemSize == 0 then
           cap == USIZE_MAX && ptr.Length == 0
         else
           ptr.Length == cap && cap * elemSize <= ISIZE_MAX && (cap == 0 || IsPowerOfTwo(cap))
    }

    /** `RawVec::new`: no allocation; capacity 0, or unbounded for a zero-sized type. */
    constructor (elemSize: nat)
      ensures Valid() && this.elemSize == elemSize
      ensures fresh(ptr) && ptr.Length == 0
      ensures cap == if elemSize == 0 then USIZE_MAX else 0
    {
      this.elemSize := elemSize;
      ptr := new T[0];
      cap := if elemSize == 0 then USIZE_MAX else 0;
    }

    /** `RawVec::grow`: 0 becomes 1, otherwise the capacity doubles; the new block
      starts with the old block's slots (what `realloc` moves across). */
    method Grow() returns (r: Outcome<()>)
      requires Valid()
      modifies this
      ensures Valid()
      ensures GrowCheck(elemSize, old(cap)).Some? ==>
                r == Panicked(GrowCheck(elemSize, old(cap)).value) && cap == old(cap) && ptr == old(ptr)
      ensures GrowCheck(elemSize, old(cap)).None? ==>
                && r == Returned(())
                && cap == NewCap(old(cap))
                && fresh(ptr)
                && ptr[..old(cap)] == old(ptr[..])
    {
      var check := GrowCheck(elemSize, cap);
      if check.Some? {
        return Panicked(check.value);
      }
      DoublingFitsUsize(cap, elemSize);
      GrowCheckBoundsLayout(elemSize, cap);
      NewCapIsPowerOfTwo(cap);
      var newCap := NewCap(cap);
      var newPtr := new T[newCap];
      var i := 0;
      while i < cap
        invariant 0 <= i <= cap < newPtr.Length
        invariant newPtr[..i] == ptr[..i]
        modifies newPtr
      {
        newPtr[i] := ptr[i];
        i := i + 1;
      }
      assert newPtr[..cap] == ptr[..];
      ptr, cap := newPtr, newCap;
      r := Returned(());
    }

    /** `Drop for RawVec`: a block is released exactly when one was allocated. */
    method Drop() returns (released: bool)
      requires Valid()
      ensures released <==> ptr.Length > 0
    {
      released := cap != 0 && elemSize != 0;
    }
  }
}
