/** Values shared by every layer of the growable array: machine limits,
    the outcome of an operation that may panic, and sequence helpers. */
module Common {

  /** `usize::MAX` and `isize::MAX` on a 64-bit target. */
  const USIZE_MAX: nat := 0xFFFF_FFFF_FFFF_FFFF
  const ISIZE_MAX: nat := 0x7FFF_FFFF_FFFF_FFFF

  datatype Option<T> = None | Some(value: T)

  /** The panics the container raises. */
  datatype Panic =
    | IndexOutOfBounds   // `assert!(idx <= len)` / `assert!(idx < len)`, slice indexing
    | CapacityOverflow   // `RawVec::grow` called for a zero-sized element type
    | LayoutError        // `Layout::array::<T>(new_cap).unwrap()` on a byte size above `isize::MAX`

  /** An operation either returns normally or panics; a panic leaves the state as it was. */
  datatype Outcome<T> = Returned(value: T) | Panicked(reason: Panic)

  /** `n` copies of `v`: what a slice of length `n` of a zero-sized type holds. */
  function Repeat<T>(v: T, n: nat): seq<T>
  {
    seq(n, _ => v)
  }

  /** The elements a pointer range `[lo, hi)` into `buf` denotes. For a zero-sized
      element type no slot is ever stored, and every read yields the type's one value. */
  function Slots<T>(buf: array<T>, zst: bool, zstValue: T, lo: nat, hi: nat): seq<T>
    reads buf
    requires lo <= hi && (!zst ==> hi <= buf.Length)
  {
    if zst then Repeat(zstValue, hi - lo) else buf[lo..hi]
  }

  ghost function Reversed<T>(s: seq<T>): seq<T>
  {
    if s == [] then [] else Reversed(s[1..]) + [s[0]]
  }

  lemma {:induction false} ReversedSnoc<T>(s: seq<T>, x: T)
    ensures Reversed(s + [x]) == [x] + Reversed(s)
  {
    if s != [] {
      assert (s + [x])[1..] == s[1..] + [x];
      ReversedSnoc(s[1..], x);
    }
  }

  lemma {:induction false} ReversedKeepsElements<T>(s: seq<T>)
    ensures |Reversed(s)| == |s|
    ensures multiset(Reversed(s)) == multiset(s)
  {
    if s != [] {
      ReversedKeepsElements(s[1..]);
      assert s == [s[0]] + s[1..];
    }
  }

  /** Equal sequences with the same prefix and suffix have the same middle. */
  lemma CancelMiddle<T>(a: seq<T>, b: seq<T>, b': seq<T>, c: seq<T>)
    requires a + b + c == a + b' + c
    ensures b == b'
  {
    assert |b| == |b'|;
    assert b == (a + b + c)[|a|..|a| + |b|];
    assert b' == (a + b' + c)[|a|..|a| + |b'|];
  }
}
