/** The growable array `MyVec<T>`: a raw buffer plus the number of live elements. */
module MyVecs {
  import opened Common
  import opened RawVecs
  import opened ValIters

  /** `MyVec<T>`: the buffer `buf` and the length `len`. `Contents` is the
      sequence of live elements, the slots `[0, len)`; the slots `[len, cap)` hold
      no live element (the default value when freshly allocated, otherwise an
      element already moved out) and are never read. For a zero-sized type
      (`buf.elemSize == 0`) nothing is stored and every element is the type's
      one value `zstValue`. `Moved` records that `into_iter` has consumed the
      vector; a moved vector is not valid, so no operation applies to it. */
  class MyVec<T(0)> {
    const buf: RawVec<T>
    var len: nat
    const zstValue: T
    ghost var Contents: seq<T>
    ghost var Moved: bool

    ghost predicate Valid()
      reads this, buf, buf.ptr
    {
      && !Moved
      && buf.Valid()
      && len <= buf.cap
      && Contents == Slots(buf.ptr, buf.elemSize == 0, zstValue, 0, len)
    }

    /** The panic that growing the buffer before a write would raise: growth
        happens only when the buffer is full, and then `RawVec::grow` may refuse. */
    ghost function GrowthPanic(): Option<Panic>
      reads this, buf
    {
      if len == buf.cap then GrowCheck(buf.elemSize, buf.cap) else None
    }

    /** The capacity after a growth step that did not panic. */
    ghost function GrownCap(): nat
      reads this, buf
    {
      if len == buf.cap then NewCap(buf.cap) else buf.cap
    }

    /** `MyVec::new`: an empty vector over a fresh `RawVec`. */
    constructor (elemSize: nat, zstValue: T)
      ensures Valid() && fresh(buf) && fresh(buf.ptr)
      ensures Contents == [] && len == 0
      ensures buf.elemSize == elemSize && this.zstValue == zstValue
      ensures buf.cap == if elemSize == 0 then USIZE_MAX else 0
    {
      buf := new RawVec(elemSize);
      len := 0;
      this.zstValue := zstValue;
      Contents := [];
      Moved := false;
    }

    /** `Deref`: the slice view is exactly the live elements `[0, len)`. */
    function Deref(): (s: seq<T>)
      reads this, buf, buf.ptr
      requires Valid()
      ensures s == Contents && |s| == len
    {
      Slots(buf.ptr, buf.elemSize == 0, zstValue, 0, len)
    }

    /** `MyVec::grow`: grow the buffer only when it is full; the live elements
        are kept, and on success there is room for one more. */
    method Grow() returns (r: Outcome<()>)
      requires Valid()
      modifies buf
      ensures Valid() && len == old(len) && Contents == old(Contents)
      ensures old(GrowthPanic()).Some? ==>
                r == Panicked(old(GrowthPanic()).value) && buf.cap == old(buf.cap) && buf.ptr == old(buf.ptr)
      ensures old(GrowthPanic()).None? ==>
                && r == Returned(())
                && buf.cap == old(GrownCap())
                && len < buf.cap
                && (buf.ptr == old(buf.ptr) || fresh(buf.ptr))
    {
      if len == buf.cap {
        r := buf.Grow();
        if r.Returned? {
          assert buf.ptr[..len] == old(buf.ptr[..len]);
        }
      } else {
        r := Returned(());
      }
    }

    /** `push`: grow if full, write `elem` at `len`, then count it. Earlier
        elements stay as they were. */
    method Push(elem: T) returns (r: Outcome<()>)
      requires Valid()
      requires buf.elemSize == 0 ==> elem == zstValue
      modifies this, buf, buf.ptr
      ensures Valid()
      ensures old(GrowthPanic()).Some? ==>
                && r == Panicked(old(GrowthPanic()).value)
                && len == old(len) && Contents == old(Contents) && buf.cap == old(buf.cap)
      ensures old(GrowthPanic()).None? ==>
                && r == Returned(())
                && len == old(len) + 1
                && Contents == old(Contents) + [elem]
                && buf.cap == old(GrownCap())
      ensures buf.ptr == old(buf.ptr) || fresh(buf.ptr)
    {
      r := Grow();
      if r.Panicked? {
        return;
      }
      if buf.elemSize != 0 {
        buf.ptr[len] := elem;
      }
      len := len + 1;
      Contents := Contents + [elem];
    }

    /** `pop`: `None` exactly when empty; otherwise the last element, which
        stops being live. */
    method Pop() returns (r: Option<T>)
      requires Valid()
      modifies this
      ensures Valid()
      ensures r.None? <==> old(len) == 0
      ensures r.None? ==> len == 0 && Contents == old(Contents)
      ensures r.Some? ==> && len == old(len) - 1
                          && r.value == old(Contents)[old(len) - 1]
                          && Contents == old(Contents)[..old(len) - 1]
    {
      if len == 0 {
        r := None;
      } else {
        len := len - 1;
        r := if buf.elemSize == 0 then Some(zstValue) else Some(buf.ptr[len]);
        Contents := Contents[..len];
      }
    }

    /** `insert`: panics unless `idx <= len`; otherwise grows if full, shifts
        `[idx, len)` one slot right and writes `elem` at `idx`. */
    method Insert(idx: nat, elem: T) returns (r: Outcome<()>)
      requires Valid()
      requires buf.elemSize == 0 ==> elem == zstValue
      modifies this, buf, buf.ptr
      ensures Valid()
      ensures idx > old(len) ==>
                r == Panicked(IndexOutOfBounds) && len == old(len) && Contents == old(Contents) && buf.cap == old(buf.cap)
      ensures idx <= old(len) && old(GrowthPanic()).Some? ==>
                && r == Panicked(old(GrowthPanic()).value)
                && len == old(len) && Contents == old(Contents) && buf.cap == old(buf.cap)
      ensures idx <= old(len) && old(GrowthPanic()).None? ==>
                && r == Returned(())
                && len == old(len) + 1
                && Contents == old(Contents)[..idx] + [elem] + old(Contents)[idx..]
                && buf.cap == old(GrownCap())
      ensures buf.ptr == old(buf.ptr) || fresh(buf.ptr)
    {
      if idx > len {
        return Panicked(IndexOutOfBounds);
      }
      r := Grow();
      if r.Panicked? {
        return;
      }
      ghost var s := Contents;
      if buf.elemSize != 0 {
        ShiftIn(buf.ptr, len, idx, elem);
      }
      len := len + 1;
      Contents := s[..idx] + [elem] + s[idx..];
    }

    /** `remove`: panics unless `idx < len`; otherwise reads the element at
        `idx` and shifts `[idx + 1, len)` one slot left. */
    method Remove(idx: nat) returns (r: Outcome<T>)
      requires Valid()
      modifies this, buf.ptr
      ensures Valid() && buf.cap == old(buf.cap)
      ensures idx >= old(len) ==>
                r == Panicked(IndexOutOfBounds) && len == old(len) && Contents == old(Contents)
      ensures idx < old(len) ==>
                && r == Returned(old(Contents)[idx])
                && len == old(len) - 1
                && Contents == old(Contents)[..idx] + old(Contents)[idx + 1..]
    {
      if idx >= len {
        return Panicked(IndexOutOfBounds);
      }
      len := len - 1;
      if buf.elemSize == 0 {
        r := Returned(zstValue);
      } else {
        r := Returned(buf.ptr[idx]);
        Copy(buf.ptr, idx + 1, idx, len - idx);
      }
      Contents := Contents[..idx] + Contents[idx + 1..];
    }

    /** A write `v[i] = x` through `DerefMut`: panics unless `i < len`, and
        otherwise replaces exactly the element at `i`. */
    method DerefMutSet(i: nat, x: T) returns (r: Outcome<()>)
      requires Valid()
      requires buf.elemSize == 0 ==> x == zstValue
      modifies this, buf.ptr
      ensures Valid() && len == old(len) && buf.cap == old(buf.cap)
      ensures i >= old(len) ==> r == Panicked(IndexOutOfBounds) && Contents == old(Contents)
      ensures i < old(len) ==> r == Returned(()) && Contents == old(Contents)[i := x]
    {
      if i >= len {
        return Panicked(IndexOutOfBounds);
      }
      if buf.elemSize != 0 {
        buf.ptr[i] := x;
      }
      Contents := Contents[i := x];
      r := Returned(());
    }

    /** `drain`: the vector's length drops to 0 at once, and the returned drain
        walks the elements the vector held. The buffer stays with the vector. */
    method Drain() returns (d: MyDrain<T>)
      requires Valid()
      modifies this
      ensures Valid() && len == 0 && Contents == []
      ensures fresh(d) && fresh(d.iter) && d.Valid()
      ensures d.iter.buf == buf.ptr
      ensures d.iter.Original == old(Contents) && d.iter.Front == [] && d.iter.Back == []
      ensures d.iter.Remaining() == old(Contents)
    {
      var iter := new RawValIter(buf.ptr, len, buf.elemSize == 0, zstValue);
      len := 0;
      Contents := [];
      d := new MyDrain(iter);
    }

    /** `into_iter`: the iterator takes over the buffer and walks exactly the
        live elements `[0, len)`. The vector is consumed: it is marked moved
        and is no longer valid. */
    method IntoIter() returns (it: MyVecIterator<T>)
      requires Valid()
      modifies this
      ensures Moved && !Valid() && len == old(len) && Contents == old(Contents)
      ensures fresh(it) && fresh(it.iter) && it.Valid() && it.buf == buf
      ensures it.iter.Original == Contents && it.iter.Front == [] && it.iter.Back == []
      ensures it.iter.Remaining() == Contents
    {
      var iter := new RawValIter(buf.ptr, len, buf.elemSize == 0, zstValue);
      it := new MyVecIterator(buf, iter);
      Moved := true;
    }

    /** `Drop for MyVec`: pops until empty, destroying the live elements last
        first, then the buffer's own drop frees the block. */
    method Drop() returns (dropped: seq<T>, released: bool)
      requires Valid()
      modifies this
      ensures Valid() && len == 0 && Contents == []
      ensures Reversed(dropped) == old(Contents)
      ensures multiset(dropped) == multiset(old(Contents))
      ensures released <==> buf.ptr.Length > 0
    {
      dropped := [];
      while true
        invariant Valid()
        invariant old(Contents) == Contents + Reversed(dropped)
        decreases len
      {
        var x := Pop();
        if x.None? {
          break;
        }
        ReversedSnoc(dropped, x.value);
        dropped := dropped + [x.value];
      }
      ReversedKeepsElements(dropped);
      released := buf.Drop();
    }
  }

  /** The slot work of `insert` on a sized type: `ptr::copy` moves `[idx, len)`
      one slot right, then `elem` is written at `idx`. */
  method ShiftIn<T>(a: array<T>, len: nat, idx: nat, elem: T)
    requires idx <= len < a.Length
    modifies a
    ensures a[..len + 1] == old(a[..idx]) + [elem] + old(a[idx..len])
  {
    ghost var s := a[..len];
    Copy(a, idx, idx + 1, len - idx);
    a[idx] := elem;
    assert a[..idx] == s[..idx];
    assert a[idx + 1..len + 1] == s[idx..];
    assert a[..len + 1] == a[..idx] + [elem] + a[idx + 1..len + 1];
  }

  /** `ptr::copy(src, dst, count)` within one buffer: the ranges may overlap, and
      the destination receives the source's slots as they were before the copy. */
  method Copy<T>(a: array<T>, src: nat, dst: nat, count: nat)
    requires src + count <= a.Length && dst + count <= a.Length
    modifies a
    ensures a[dst..dst + count] == old(a[src..src + count])
    ensures forall k :: 0 <= k < a.Length && !(dst <= k < dst + count) ==> a[k] == old(a[k])
  {
    forall k | dst <= k < dst + count {
      a[k] := a[src + k - dst];
    }
  }
}
