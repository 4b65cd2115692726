/** The iterator layer: the shared start/end cursor `RawValIter` and the two
    iterators built on it, the owning `MyVecIterator` and the borrowing `MyDrain`. */
module ValIters {
  import opened Common
  import opened RawVecs

  /** `RawValIter<T>`: the not-yet-yielded range `[start, end)` of `buf`. The
      source keeps two raw pointers; here they are indices into the buffer (and,
      for a zero-sized type, plain counters). `Original` is the range the cursor
      was created over, `Front` what `next` has yielded so far (in the order
      yielded) and `Back` what `next_back` has yielded (in the range's order, so
      the most recent yield comes first). */
  class RawValIter<T> {
    const buf: array<T>
    const zst: bool
    const zstValue: T
    var start: nat
    var end: nat
    ghost const Original: seq<T>
    ghost var Front: seq<T>
    ghost var Back: seq<T>

    /** Every element of `Original` is in exactly one place: yielded from the
        front, still remaining, or yielded from the back. */
    ghost predicate Valid()
      reads this, buf
    {
      && start <= end
      && (if zst then end <= USIZE_MAX else end <= buf.Length)
      && Original == Front + Remaining() + Back
    }

    ghost function Remaining(): seq<T>
      reads this, buf
      requires start <= end && (!zst ==> end <= buf.Length)
    {
      Slots(buf, zst, zstValue, start, end)
    }

    /** The effect of one `next` that returned `r`: `None` exactly on an empty
        range; otherwise `start` moves up by one and `r` joins the front. With
        `Valid()` before and after, `r` is then the first element that remained. */
    twostate predicate TookFront(new r: Option<T>)
      reads this
    {
      && end == old(end) && Back == old(Back)
      && (r.None? <==> old(start) == old(end))
      && (r.None? ==> start == old(start) && Front == old(Front))
      && (r.Some? ==> start == old(start) + 1 && Front == old(Front) + [r.value])
    }

    /** The effect of one `next_back` that returned `r`: `None` exactly on an
        empty range; otherwise `end` moves down by one and `r` is put in front
        of the back part. With `Valid()` before and after, `r` is then the last
        element that remained. */
    twostate predicate TookBack(new r: Option<T>)
      reads this
    {
      && start == old(start) && Front == old(Front)
      && (r.None? <==> old(start) == old(end))
      && (r.None? ==> end == old(end) && Back == old(Back))
      && (r.Some? ==> end + 1 == old(end) && Back == [r.value] + old(Back))
    }

    /** `RawValIter::new(slice)`, for the slice of the first `len` slots of `buf`. */
    constructor (buf: array<T>, len: nat, zst: bool, zstValue: T)
      requires if zst then len <= USIZE_MAX else len <= buf.Length
      ensures Valid()
      ensures this.buf == buf && this.zst == zst && this.zstValue == zstValue
      ensures start == 0 && end == len
      ensures Original == Slots(buf, zst, zstValue, 0, len) && Front == [] && Back == []
    {
      this.buf, this.zst, this.zstValue := buf, zst, zstValue;
      start, end := 0, len;
      Original, Front, Back := Slots(buf, zst, zstValue, 0, len), [], [];
    }

    /** `Iterator::next`: the element at `start`, then `start` advances. */
    method Next() returns (r: Option<T>)
      requires Valid()
      modifies this
      ensures Valid() && TookFront(r)
      ensures r.Some? ==> r.value == old(Remaining())[0] && Remaining() == old(Remaining())[1..]
    {
      if start == end {
        r := None;
      } else {
        ghost var rest := Remaining();
        r := if zst then Some(zstValue) else Some(buf[start]);
        start := start + 1;
        Front := Front + [r.value];
        assert rest == [r.value] + Remaining();
      }
    }

    /** `DoubleEndedIterator::next_back`: `end` retreats, then the element there. */
    method NextBack() returns (r: Option<T>)
      requires Valid()
      modifies this
      ensures Valid() && TookBack(r)
      ensures r.Some? ==> && r.value == old(Remaining())[|old(Remaining())| - 1]
                          && Remaining() == old(Remaining())[..|old(Remaining())| - 1]
    {
      if start == end {
        r := None;
      } else {
        ghost var rest := Remaining();
        end := end - 1;
        r := if zst then Some(zstValue) else Some(buf[end]);
        Back := [r.value] + Back;
        assert rest == Remaining() + [r.value];
      }
    }

    /** `Iterator::size_hint`: the exact number of elements left, as both bounds. */
    function SizeHint(): (r: (nat, Option<nat>))
      reads this, buf
      requires Valid()
      ensures r.0 == |Remaining()| && r.1 == Some(|Remaining()|)
    {
      (end - start, Some(end - start))
    }
  }

  /** `MyVecIterator<T>`: owns the buffer taken from the vector (`_buf`) and a
      cursor over the elements it held. */
  class MyVecIterator<T(0)> {
    const buf: RawVec<T>
    const iter: RawValIter<T>

    ghost predicate Valid()
      reads this, buf, iter, iter.buf
    {
      && buf.Valid()
      && iter.Valid()
      && iter.buf == buf.ptr
      && iter.zst == (buf.elemSize == 0)
    }

    constructor (buf: RawVec<T>, iter: RawValIter<T>)
      requires buf.Valid() && iter.Valid() && iter.buf == buf.ptr && iter.zst == (buf.elemSize == 0)
      ensures Valid() && this.buf == buf && this.iter == iter
    {
      this.buf, this.iter := buf, iter;
    }

    method Next() returns (r: Option<T>)
      requires Valid()
      modifies iter
      ensures Valid() && iter.TookFront(r)
      ensures r.Some? ==> r.value == old(iter.Remaining())[0] && iter.Remaining() == old(iter.Remaining())[1..]
    {
      r := iter.Next();
    }

    method NextBack() returns (r: Option<T>)
      requires Valid()
      modifies iter
      ensures Valid() && iter.TookBack(r)
      ensures r.Some? ==> && r.value == old(iter.Remaining())[|old(iter.Remaining())| - 1]
                          && iter.Remaining() == old(iter.Remaining())[..|old(iter.Remaining())| - 1]
    {
      r := iter.NextBack();
    }

    function SizeHint(): (r: (nat, Option<nat>))
      reads this, buf, iter, iter.buf
      requires Valid()
      ensures r.0 == |iter.Remaining()| && r.1 == Some(|iter.Remaining()|)
    {
      iter.SizeHint()
    }

    /** `Drop for MyVecIterator`: runs `next` until the range is empty, destroying
        every element not yet yielded, then the buffer's own drop frees the block. */
    method Drop() returns (destroyed: seq<T>, released: bool)
      requires Valid()
      modifies iter
      ensures Valid() && iter.Remaining() == [] && iter.Back == old(iter.Back)
      ensures destroyed == old(iter.Remaining())
      ensures iter.Front == old(iter.Front) + destroyed
      ensures released <==> buf.ptr.Length > 0
      ensures iter.Original == iter.Front + iter.Back
    {
      ghost var remaining0, front0, back0 := iter.Remaining(), iter.Front, iter.Back;
      destroyed := [];
      while true
        invariant Valid() && iter.Back == back0
        invariant iter.Front == front0 + destroyed
        decreases iter.end - iter.start
      {
        var x := Next();
        if x.None? {
          break;
        }
        destroyed := destroyed + [x.value];
      }
      CancelMiddle(front0, remaining0, destroyed, back0);
      released := buf.Drop();
    }
  }

  /** `MyDrain<'a, T>`: a cursor over the range the vector held when the drain
      began. It does not own the buffer; the vector keeps it. */
  class MyDrain<T> {
    const iter: RawValIter<T>

    ghost predicate Valid()
      reads this, iter, iter.buf
    {
      iter.Valid()
    }

    constructor (iter: RawValIter<T>)
      requires iter.Valid()
      ensures Valid() && this.iter == iter
    {
      this.iter := iter;
    }

    method Next() returns (r: Option<T>)
      requires Valid()
      modifies iter
      ensures Valid() && iter.TookFront(r)
      ensures r.Some? ==> r.value == old(iter.Remaining())[0] && iter.Remaining() == old(iter.Remaining())[1..]
    {
      r := iter.Next();
    }

    method NextBack() returns (r: Option<T>)
      requires Valid()
      modifies iter
      ensures Valid() && iter.TookBack(r)
      ensures r.Some? ==> && r.value == old(iter.Remaining())[|old(iter.Remaining())| - 1]
                          && iter.Remaining() == old(iter.Remaining())[..|old(iter.Remaining())| - 1]
    {
      r := iter.NextBack();
    }

    function SizeHint(): (r: (nat, Option<nat>))
      reads this, iter, iter.buf
      requires Valid()
      ensures r.0 == |iter.Remaining()| && r.1 == Some(|iter.Remaining()|)
    {
      iter.SizeHint()
    }

    /** `Drop for MyDrain`: runs `next` until the range is empty, destroying every
        element not yet yielded. */
    method Drop() returns (destroyed: seq<T>)
      requires Valid()
      modifies iter
      ensures Valid() && iter.Remaining() == [] && iter.Back == old(iter.Back)
      ensures destroyed == old(iter.Remaining())
      ensures iter.Front == old(iter.Front) + destroyed
      ensures iter.Original == iter.Front + iter.Back
    {
      ghost var remaining0, front0, back0 := iter.Remaining(), iter.Front, iter.Back;
      destroyed := [];
      while true
        invariant Valid() && iter.Back == back0
        invariant iter.Front == front0 + destroyed
        decreases iter.end - iter.start
      {
        var x := Next();
        if x.None? {
          break;
        }
        destroyed := destroyed + [x.value];
      }
      CancelMiddle(front0, remaining0, destroyed, back0);
    }
  }
}
