# my-vec in Dafny

A model of `my-vec`, a from-scratch growable array in the style of the
Rustonomicon `Vec`. It has three layers, and each becomes a Dafny module:

- `RawVecs` (`raw_vec.dfy`): `RawVec<T>`. It owns a block of `cap` slots.
  - `new` allocates nothing. The capacity starts at 0, or at `usize::MAX`
    for a zero-sized `T`.
  - `grow` takes 0 to 1 and doubles any other capacity. It panics with
    "capacity overflow" for a zero-sized `T`, and when the new layout would
    exceed `isize::MAX` bytes.
- `MyVecs` (`my_vec.dfy`): `MyVec<T>`. It is a `RawVec` plus a length
  `len <= cap`.
  - `push`, `pop`, `insert` and `remove` work in place. The two shifts are
    done by `ptr::copy`.
  - `Deref` exposes the slots `[0, len)`.
  - `drain` builds a cursor over `[0, len)`, then sets `len` to 0.
  - `into_iter` moves the buffer into an owning iterator.
  - `Drop` pops until the vector is empty.
- `ValIters` (`val_iter.dfy`): the start/end cursor `RawValIter<T>` and the
  two iterators built on it. `MyVecIterator` owns the buffer; `MyDrain`
  borrows the vector. Each one, when dropped, runs `next` until the range is
  empty.
- `Common` (`common.dfy`): machine limits, `Option`, the panic outcome and
  sequence helpers.
- `Scenarios` (`scenarios.dfy`): the round trips the operations promise, and
  the repository's four tests. These are proved from the operations'
  contracts alone.

## How the model maps the source

- **Panics.** A panic is a returned `Panicked(reason)`, and the state is left
  as it was. The reasons are the `idx <= len` / `idx < len` asserts,
  "capacity overflow", and the `Layout::array` unwrap. They are not
  preconditions.
- **Buffers.** A buffer is an `array<T>` whose length is the capacity. Slots
  past `len` hold arbitrary values and are never read: the type's default
  value when freshly allocated, otherwise an element already moved out. A
  0-length array stands for the dangling pointer.
  `RawVec.Grow` allocates a new array and copies the old slots into it in a
  loop, which is what `realloc` guarantees.
- **Element size.** `elemSize` is `size_of::<T>()`.
  - A zero-sized type has exactly one value, `zstValue`.
  - Nothing of such a type is ever stored. A zero-sized vector of length `n`
    holds `n` copies of `zstValue`.
  - Its cursor counts from 0 instead of walking addresses.
- **Ghost state.** Each class keeps its contents as ghost state: `MyVec` keeps
  `Contents` (the slots `[0, len)`). `RawValIter` keeps three fields:
  - `Original`: the range it was created over.
  - `Front`: what `next` has yielded, in order.
  - `Back`: what `next_back` has yielded, in the range's order.

  `MyVec` also keeps a ghost `Moved` flag, which `into_iter` sets. A moved
  vector is not valid, so no operation can be applied to it afterwards.

  `Valid()` ties the ghost state to the concrete fields. For the cursor,
  `Original == Front + Remaining() + Back`. That is, every element is in
  exactly one place, whatever the interleaving of `next` and `next_back`.
- **Drops.** A `Drop` impl is a method that returns what it destroys, and
  whether a block is released.

## Model

| member | source | states |
|---|---|---|
| `RawVecs.NewCapIsPowerOfTwo` | src/lib.rs:30-37 | Growth from 0 (to 1, then doubling) only ever produces powers of two. |
| `RawVecs.DoublingFitsUsize` | src/lib.rs:33-35 | When the current layout fits in `isize::MAX` bytes, `2 * cap` does not overflow a `usize`. |
| `RawVecs.GrowCheckBoundsLayout` | src/lib.rs:28-42 | When `grow` does not panic, the element size is non-zero and the new layout fits in `isize::MAX` bytes; the "allocation too large" assert therefore cannot fire. |
| `RawVecs.RawVec.constructor` | src/lib.rs:14-25 | No allocation; capacity 0 for a sized type, `usize::MAX` for a zero-sized one. |
| `RawVecs.RawVec.Grow` | src/lib.rs:27-56 | Panics with capacity overflow for a zero-sized type, and with a layout error past `isize::MAX` bytes; either way the buffer is unchanged. Otherwise the capacity becomes 1 (from 0) or doubles, the block is new, and its first `cap` slots are the old ones. The buffer invariant is kept. |
| `RawVecs.RawVec.Drop` | src/lib.rs:59-70 | A block is released exactly when one was allocated (capacity non-zero and a sized type). |
| `MyVecs.MyVec.constructor` | src/lib.rs:78-83 | An empty vector over a fresh `RawVec`. |
| `MyVecs.MyVec.Deref` | src/lib.rs:261-267 | The slice view is exactly the `len` live elements. |
| `MyVecs.MyVec.Grow` | src/lib.rs:85-89 | The buffer grows only when `len == cap`. The contents are kept, and on success there is room for one more. |
| `MyVecs.MyVec.Push` | src/lib.rs:99-107 | Panics only when a full buffer cannot grow, and then nothing changes. Otherwise the contents become the old contents followed by `elem`, `len` goes up by one, and the capacity is the grown one. |
| `MyVecs.MyVec.Pop` | src/lib.rs:109-116 | Returns `None` exactly when `len == 0`. Otherwise it returns the last element and the contents lose it. |
| `MyVecs.MyVec.Insert` | src/lib.rs:118-130 | Panics with index out of bounds when `idx > len`, and when a full buffer cannot grow; either way nothing changes. Otherwise the contents become `s[..idx] + [elem] + s[idx..]`. |
| `MyVecs.ShiftIn` | src/lib.rs:123-127 | The `ptr::copy` right by one and the write at `idx` leave the first `len + 1` slots as the old prefix, then `elem`, then the old suffix. |
| `MyVecs.MyVec.Remove` | src/lib.rs:132-144 | Panics with index out of bounds when `idx >= len`, and then nothing changes. Otherwise it returns `s[idx]`, and the contents become `s[..idx] + s[idx + 1..]`. |
| `MyVecs.Copy` | src/lib.rs:140 | `ptr::copy` between ranges that may overlap: the destination receives the source range as it was before the copy, and every other slot is unchanged. |
| `MyVecs.MyVec.DerefMutSet` | src/lib.rs:269-273 | A write through the mutable slice panics outside `[0, len)` and otherwise replaces exactly one element. |
| `MyVecs.MyVec.Drain` | src/lib.rs:304-315 | The vector is empty at once. The new drain's cursor covers exactly the former contents. |
| `MyVecs.MyVec.IntoIter` | src/lib.rs:224-235 | The owning iterator takes the vector's buffer, and its cursor covers exactly the contents. The vector is marked moved and is no longer valid, so it cannot be used or dropped again. |
| `MyVecs.MyVec.Drop` | src/lib.rs:147-151 | The pop loop destroys every live element exactly once, last first: the reverse of what it destroys is the old contents, and the two are equal as multisets. A block is released exactly when one was allocated. |
| `ValIters.RawValIter.constructor` | src/lib.rs:159-170 | The cursor spans the slice `[0, len)`, and nothing has been yielded yet. |
| `ValIters.RawValIter.Next` | src/lib.rs:176-191 | Returns `None` exactly when `start == end`. Otherwise it returns the first remaining element, `start` moves up by one, and that element joins the front. |
| `ValIters.RawValIter.NextBack` | src/lib.rs:202-216 | Returns `None` exactly when `start == end`. Otherwise `end` moves down by one, and the last remaining element is returned and joins the back. |
| `ValIters.RawValIter.SizeHint` | src/lib.rs:193-198 | Both bounds are the exact number of remaining elements. |
| `ValIters.MyVecIterator.constructor` | src/lib.rs:219-222 | The iterator holds the buffer and a cursor over it. |
| `ValIters.MyVecIterator.Next` | src/lib.rs:240-242 | Forwards to the cursor: the same front step, returning the first remaining element. |
| `ValIters.MyVecIterator.SizeHint` | src/lib.rs:244-246 | The exact number of remaining elements. |
| `ValIters.MyVecIterator.NextBack` | src/lib.rs:250-252 | Forwards to the cursor: the same back step, returning the last remaining element. |
| `ValIters.MyVecIterator.Drop` | src/lib.rs:255-259 | Destroys exactly the elements not yet yielded, in order. Afterwards every original element was either yielded or destroyed, and the buffer is released when one was allocated. |
| `ValIters.MyDrain.constructor` | src/lib.rs:275-278 | The drain holds the cursor only. |
| `ValIters.MyDrain.Next` | src/lib.rs:283-285 | Forwards to the cursor: the same front step, returning the first remaining element. |
| `ValIters.MyDrain.SizeHint` | src/lib.rs:287-289 | The exact number of remaining elements. |
| `ValIters.MyDrain.NextBack` | src/lib.rs:293-295 | Forwards to the cursor: the same back step, returning the last remaining element. |
| `ValIters.MyDrain.Drop` | src/lib.rs:298-302 | Destroys exactly the elements not yet yielded. Afterwards every original element was either yielded or destroyed. |
| `Scenarios.PushThenPop` | src/lib.rs:99-116 | `push(x)` then `pop()` returns `x` and restores the contents. |
| `Scenarios.InsertThenRemove` | src/lib.rs:118-144 | `insert(i, x)` then `remove(i)` returns `x` and restores the contents. |
| `Scenarios.PushRange` | src/lib.rs:341-344 | Ten (or `n`) pushes onto a new vector hold `0, 1, ..., n - 1`, and the capacity stays within twice the length. No push panics, as long as `2 * n` elements fit in `isize::MAX` bytes. |
| `Scenarios.CreatePushPop` | src/lib.rs:320-337 | The `create_push_pop` test: after the push the length is 1 and `v[0] == 1`. Then `pop` gives `Some(2)` and leaves length 1, and `remove(0)` gives 5 and leaves length 1. |
| `Scenarios.TakeEndsThenDrop` | src/lib.rs:345-348 | On a fresh owning iterator, `next` then `next_back` then drop yield the first and last elements and destroy exactly the ones between. |
| `Scenarios.IterTest` | src/lib.rs:339-351 | The `iter_test` test: the results are 0 and 9; the drop destroys 1 to 8 and frees the block. |
| `Scenarios.DrainEnds` | src/lib.rs:359-365 | The same as `TakeEndsThenDrop`, for a drain. |
| `Scenarios.TestDrain` | src/lib.rs:353-369 | The `test_drain` test: the results are 0 and 9, and 1 to 8 are destroyed. The vector then has length 0, and a push then a pop gives back 1. |
| `Scenarios.TestZst` | src/lib.rs:371-385 | The `test_zst` test: ten pushes of `()` followed by a full iteration count 10, and no block is ever allocated or freed. |

## Left out

- The allocator calls `alloc`, `realloc`, `dealloc` and `handle_alloc_error` are not modelled. Allocation is a fresh array, and freeing is the `released` result of the drops. Out-of-memory is not modelled.
- `Layout` alignment and padding are not modelled. A layout is the product `cap * elemSize`, checked against `isize::MAX`.
- Raw pointers and the address arithmetic of zero-sized types are not modelled. This includes the `len == 0` branch of `RawValIter::new` and the `as usize` address casts. Indices stand in for them. The address sum `ptr + len` of a zero-sized slice wrapping around at the top of the address space is therefore not modelled.
- The source computes `size_hint` as a byte distance divided by the element size. The model computes it directly as `end - start`.
- `PhantomData` and `mem::forget` are not modelled. The move out of the vector in `into_iter` is modelled only by the ghost `Moved` flag.
- A zero-sized push, insert or write requires the pushed value to be `zstValue`. In Rust this is a fact about the type: such a type has only one value.
- `Send` and `Sync` are concurrency markers, and are not modelled.
- `iter_mut` and the other slice methods reached through `Deref` are not modelled. `CreatePushPop` writes its `iter_mut` loop as a `DerefMutSet` per index.
- Unwinding is not modelled: a panic is only a returned outcome, and no destructor runs for it.
- The borrow that `drain` takes is not modelled. `drain` borrows the vector mutably for the drain's lifetime, so the vector is used again only after the drain is dropped; the scenarios follow that.
