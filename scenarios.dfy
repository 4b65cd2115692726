/** Clients of the growable array: the round trips its operations promise, and
    the four scenarios of the repository's own tests, proved from the contracts
    alone. */
module Scenarios {
  import opened Common
  import opened RawVecs
  import opened ValIters
  import opened MyVecs

  /** `push(x)` then `pop()` gives back `x` and leaves the vector as it was. */
  method PushThenPop<T(0)>(v: MyVec<T>, x: T) returns (pushed: Outcome<()>, popped: Option<T>)
    requires v.Valid()
    requires v.buf.elemSize == 0 ==> x == v.zstValue
    modifies v, v.buf, v.buf.ptr
    ensures v.Valid()
    ensures pushed.Panicked? <==> old(v.GrowthPanic()).Some?
    ensures pushed.Returned? ==> popped == Some(x)
    ensures v.Contents == old(v.Contents) && v.len == old(v.len)
  {
    pushed := v.Push(x);
    if pushed.Panicked? {
      return pushed, None;
    }
    popped := v.Pop();
  }

  /** `insert(i, x)` then `remove(i)` gives back `x` and leaves the vector as it was. */
  method InsertThenRemove<T(0)>(v: MyVec<T>, i: nat, x: T) returns (inserted: Outcome<()>, removed: Outcome<T>)
    requires v.Valid()
    requires v.buf.elemSize == 0 ==> x == v.zstValue
    modifies v, v.buf, v.buf.ptr
    ensures v.Valid()
    ensures inserted.Panicked? <==> i > old(v.len) || old(v.GrowthPanic()).Some?
    ensures inserted.Returned? ==> removed == Returned(x)
    ensures v.Contents == old(v.Contents) && v.len == old(v.len)
  {
    inserted := v.Insert(i, x);
    if inserted.Panicked? {
      return inserted, Panicked(inserted.reason);
    }
    ghost var s := old(v.Contents);
    assert v.Contents == s[..i] + [x] + s[i..];
    removed := v.Remove(i);
    assert v.Contents == s by {
      assert v.Contents == (s[..i] + [x] + s[i..])[..i] + (s[..i] + [x] + s[i..])[i + 1..];
      assert (s[..i] + [x] + s[i..])[..i] == s[..i];
      assert (s[..i] + [x] + s[i..])[i + 1..] == s[i..];
    }
  }

  lemma MulLeq(a: nat, b: nat, c: nat)
    requires a <= b
    ensures a * c <= b * c
  {
    assert b * c == a * c + (b - a) * c;
  }

  /** Pushes `0, 1, ..., n - 1` onto a fresh vector of `elemSize`-byte elements.
      No push panics as long as a buffer of `2 * n` elements fits in
      `isize::MAX` bytes. */
  method PushRange(n: nat, elemSize: nat) returns (v: MyVec<int>)
    requires 1 <= elemSize && 2 * n * elemSize <= ISIZE_MAX
    ensures fresh(v) && fresh(v.buf) && fresh(v.buf.ptr) && v.Valid()
    ensures v.Contents == seq(n, k => k) && v.len == n && v.buf.elemSize == elemSize
    ensures v.buf.cap <= 2 * n
  {
    v := new MyVec<int>(elemSize, 0);
    var i := 0;
    while i < n
      invariant 0 <= i <= n
      invariant fresh(v) && fresh(v.buf) && fresh(v.buf.ptr) && v.Valid()
      invariant v.Contents == seq(i, k => k) && v.len == i && v.buf.elemSize == elemSize
      invariant v.buf.cap <= 2 * i
    {
      if v.len == v.buf.cap {
        MulLeq(NewCap(v.buf.cap), 2 * n, elemSize);
      }
      var pushed := v.Push(i);
      i := i + 1;
    }
  }

  /** The `create_push_pop` test: push, write through the slice view, insert
      at the front, pop, push and remove from the front. */
  method CreatePushPop() returns (lenAfterPush: nat, first: int, popped: Option<int>, lenAfterPop: nat,
                                  removed: Outcome<int>, finalLen: nat)
    ensures lenAfterPush == 1 && first == 1
    ensures popped == Some(2) && lenAfterPop == 1
    ensures removed == Returned(5) && finalLen == 1
  {
    var v := new MyVec<int>(4, 0);
    var r := v.Push(1);
    lenAfterPush := v.len;
    first := v.Deref()[0];
    var i := 0;
    while i < v.len
      invariant 0 <= i <= v.len == 1
      invariant fresh(v) && fresh(v.buf) && fresh(v.buf.ptr) && v.Valid() && v.buf.elemSize == 4 && v.buf.cap == 1
      invariant v.Contents == if i == 0 then [1] else [2]
    {
      r := v.DerefMutSet(i, v.Deref()[i] + 1);
      i := i + 1;
    }
    r := v.Insert(0, 5);
    popped := v.Pop();
    lenAfterPop := v.len;
    r := v.Push(10);
    removed := v.Remove(0);
    finalLen := v.len;
  }

  /** Takes one element from the front and one from the back of a fresh owning
      iterator over at least two elements, then drops it: the first and the last
      element come out, and the drop destroys exactly the ones between. */
  method TakeEndsThenDrop<T(0)>(it: MyVecIterator<T>) returns (first: Option<T>, last: Option<T>,
                                                           destroyed: seq<T>, released: bool)
    requires it.Valid() && it.iter.Front == [] && it.iter.Back == [] && |it.iter.Original| >= 2
    modifies it.iter
    ensures var s := it.iter.Original;
            first == Some(s[0]) && last == Some(s[|s| - 1]) && destroyed == s[1..|s| - 1]
    ensures released <==> it.buf.ptr.Length > 0
  {
    ghost var s := it.iter.Original;
    first := it.Next();
    assert first.Some? && s == [first.value] + it.iter.Remaining() + [];
    last := it.NextBack();
    assert last.Some? && s == [first.value] + it.iter.Remaining() + [last.value];
    destroyed, released := it.Drop();
    assert s == [first.value] + destroyed + [last.value];
    assert s[1..|s| - 1] == destroyed;
  }

  /** The same for a drain, which releases nothing. */
  method DrainEnds<T>(d: MyDrain<T>) returns (first: Option<T>, last: Option<T>, destroyed: seq<T>)
    requires d.Valid() && d.iter.Front == [] && d.iter.Back == [] && |d.iter.Original| >= 2
    modifies d.iter
    ensures var s := d.iter.Original;
            first == Some(s[0]) && last == Some(s[|s| - 1]) && destroyed == s[1..|s| - 1]
  {
    ghost var s := d.iter.Original;
    first := d.Next();
    assert first.Some? && s == [first.value] + d.iter.Remaining() + [];
    last := d.NextBack();
    assert last.Some? && s == [first.value] + d.iter.Remaining() + [last.value];
    destroyed := d.Drop();
    assert s == [first.value] + destroyed + [last.value];
    assert s[1..|s| - 1] == destroyed;
  }

  /** Of `0, 1, ..., 9`, the elements strictly between the first and the last. */
  lemma InnerEight(s: seq<int>)
    requires s == seq(10, k => k)
    ensures s[1..9] == [1, 2, 3, 4, 5, 6, 7, 8]
  {
    var inner := s[1..9];
    assert inner[0] == 1 && inner[1] == 2 && inner[2] == 3 && inner[3] == 4;
    assert inner[4] == 5 && inner[5] == 6 && inner[6] == 7 && inner[7] == 8;
  }

  /** The `iter_test` test: of ten elements the owning iterator yields the first
      from the front and the last from the back, and its drop destroys the
      other eight, in order. */
  method IterTest() returns (first: Option<int>, last: Option<int>, destroyed: seq<int>, released: bool)
    ensures first == Some(0) && last == Some(9)
    ensures destroyed == [1, 2, 3, 4, 5, 6, 7, 8]
    ensures released
  {
    var v := PushRange(10, 8);
    var it := v.IntoIter();
    first, last, destroyed, released := TakeEndsThenDrop(it);
    InnerEight(seq(10, k => k));
  }

  /** The `test_drain` test: the drain yields the first and last of ten
      elements and destroys the rest on drop; the vector is then empty and
      works as before. */
  method TestDrain() returns (first: Option<int>, last: Option<int>, destroyed: seq<int>,
                              lenAfter: nat, popped: Option<int>)
    ensures first == Some(0) && last == Some(9)
    ensures destroyed == [1, 2, 3, 4, 5, 6, 7, 8]
    ensures lenAfter == 0 && popped == Some(1)
  {
    var v := PushRange(10, 8);
    var d := v.Drain();
    first, last, destroyed := DrainEnds(d);
    InnerEight(seq(10, k => k));
    lenAfter := v.len;
    var pushed;
    pushed, popped := PushThenPop(v, 1);
  }

  /** The `test_zst` test: ten pushes of a zero-sized value, then a `for` loop
      over the owning iterator counts ten items; no block is ever allocated. */
  method TestZst() returns (count: nat, released: bool)
    ensures count == 10 && !released
  {
    var v := new MyVec<()>(0, ());
    var i := 0;
    while i < 10
      invariant 0 <= i <= 10
      invariant fresh(v) && fresh(v.buf) && fresh(v.buf.ptr) && v.Valid()
      invariant v.len == i && v.buf.elemSize == 0
    {
      var pushed := v.Push(());
      i := i + 1;
    }
    var it := v.IntoIter();
    count := 0;
    while true
      invariant it.Valid() && fresh(it.iter)
      invariant count + |it.iter.Remaining()| == 10
      decreases |it.iter.Remaining()|
    {
      var x := it.Next();
      if x.None? {
        break;
      }
      count := count + 1;
    }
    var destroyed;
    destroyed, released := it.Drop();
  }
}
