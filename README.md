# SecBox, modelled in Dafny

`SecBox<T>` (crate `secbox`) is an owning handle to one heap region that holds a
single value. Its job is to keep a secret away from swap, crash dumps and stale
memory. `new` pins the region with `mlock` before it stores the value there;
`from` pins an allocation that already holds the value. Apart from
`into_inner`, which moves the value out to ordinary storage, a box hands its
value out only by reference. On drop it destroys the value in place,
volatile-zeroes every byte, unpins the same range, and frees the region.

The model has three parts.

- **`region.dfy`, module `Region`** states the memory discipline on its own
  terms. A region's state (`RegionState`) is its phase (unallocated, allocated,
  freed), a pinned flag and its bytes. An `Event` is one step a box performs: `Alloc`, `Adopt`, `Lock`,
  `Write`, `Read` (move out), `DropInner`, `Zero`, `Unlock`, `Free`. The automaton
  `Step` / `Replay` accepts exactly the event sequences that keep the discipline:
  - bytes are stored only while the region is pinned;
  - the region is unpinned or freed only when every byte is zero;
  - it is freed only once unpinned;
  - pin, zero and unpin cover offset 0 and the whole value;
  - nothing happens after the free.

  The lemmas there say what an accepted trace guarantees and which orderings the
  discipline refuses. The discipline does not order destroying the value
  against zeroing it: `DropInner` is accepted on any allocated region, also one
  that is already zero. It has to be, because `into_inner` followed by the
  box's own drop does exactly that. Destroy-then-zero in `drop` is fixed only
  by the exact event list that `Secbox.SecBox.Drop` promises.
  - `Lock` records that `mlock` was called on the value's range. The source
    discards `mlock`'s result, so "pinned" in this model means "pinning was
    requested and is assumed granted". "Bytes are stored only while pinned"
    holds under that assumption only.
- **`secbox.dfy`, module `Secbox`** is the box itself.
  - The class `SecBox` has a `const mem: array<byte>` (the region; the pointer
    never changes), a `locked` flag, a `Live`/`Dead` lifecycle and a ghost
    `trace` of the events performed.
  - `Valid()` says the trace is accepted and that the region it predicts is the
    real one. `Sealed()` adds "live and pinned", which is how an owner sees a box
    between operations.
  - Each source operation is a method. Its postcondition names the exact events
    it appends and the new contents of the region.
  - `Memlock`, `Memunlock`, `Store`, `DropInPlace`, `VolatileZero`, `MoveOut`
    and `Release` are the steps used inside the source's operations. They are
    not part of the crate's API, and nothing in their contracts stops a Dafny
    client from calling them in an order the Rust API never allows. For
    example, `DropInPlace` followed by `Deref` reads a destroyed value while
    `Sealed()` still holds.
  - `T` is a fixed-length byte sequence, and its length is `size_of_val`.
- **`scenarios.dfy`, module `SecboxScenarios`** restates the crate's tests as
  client methods. An `i32` is its four little-endian bytes, and `b'a'` is 97.

Three places where the code does not do what the crate promises are modelled
as the code has them:

- `Drop::drop` takes care to drop the value only once ("To avoid
  double-dropping", src/lib.rs:189-190). Yet `into_inner` moves the value out
  and then still lets that drop run on the region (see "Findings").
- src/lib.rs:129 says the clone is made in place. But `clone_from` defers to
  `T::clone_from`, which by default assigns a temporary clone that may live
  outside the pinned region (see "Left out").
- The return values of `mlock` and `munlock` are discarded (src/lib.rs:110-111,
  118-119). When `mlock` fails, the code carries on and `new` writes the value
  into unpinned memory. The model does not capture this (see "Left out").

## Model

| member | source | states |
|---|---|---|
| `Region.WriteOnlyWhenLocked` | src/lib.rs:79-85 | in every accepted trace, every store into the region happens while it is allocated and pinned |
| `Region.WriteBeforeLockRefused` | src/lib.rs:79-85 | storing the value first and pinning afterwards is refused by the discipline, so the order in `new` is load-bearing |
| `Region.NewAccepted` | src/lib.rs:74-88 | allocate, pin, store is accepted whatever the fresh allocation held; it ends pinned and holding exactly the value |
| `Region.UnlockOnlyWhenZero` | src/lib.rs:186-194 | every unpin in an accepted trace sees an all-zero region and covers offset 0 and the whole value |
| `Region.UnlockBeforeZeroRefused` | src/lib.rs:186-194 | unpinning a region whose bytes are not all zero is refused |
| `Region.FreeOnlyWhenZeroAndUnlocked` | src/lib.rs:186-196 | a region is freed only once it is unpinned and every byte is zero |
| `Region.RangesSpanValue` | src/lib.rs:107-121 | every pin, zero fill and unpin covers exactly size_of_val bytes from the value's own address |
| `Region.FreedIsTerminal` | src/lib.rs:181-198 | after the free, any further event is refused: there is no use after free, no double free, and no return to a live state |
| `Region.FreedExactlyOnce` | src/lib.rs:181-198 | an accepted trace has exactly one `Free` if the region is freed and none otherwise |
| `Region.DropAccepted` | src/lib.rs:182-198 | drop in place, zero, unpin, free is accepted from any allocated region, pinned or not, and leaves it freed, unpinned and all zero |
| `Region.ExtractAccepted` | src/lib.rs:94-101 | move out, zero, unpin is accepted from any allocated region and leaves it allocated, unpinned and all zero |
| `Region.IntoInnerDropsMovedValue` | src/lib.rs:94-105 | as written, `into_inner` followed by the box's drop destroys a moved-out value in place |
| `Region.ForgetAccepted` | src/lib.rs:94-105 | the intended extraction (move out, zero, unpin, free) is accepted and ends freed, unpinned and all zero |
| `Region.ForgetKeepsMove` | src/lib.rs:94-105 | the intended extraction never destroys the moved-out value in place |
| `Secbox.Allocate` | src/lib.rs:76 | a fresh allocation of size_of::<T> bytes whose contents the caller knows nothing about |
| `Secbox.Uninitialized` | src/lib.rs:127 | `mem::uninitialized::<T>()`: a value of the right size with unspecified bytes |
| `Secbox.SecBox.New` | src/lib.rs:74-88 | the trace is allocate, pin the whole value, then store the value; the box ends fresh, live, pinned and holding exactly `v` |
| `Secbox.SecBox.From` | src/lib.rs:141-152 | the box takes over the given allocation itself, bytes unchanged, and the only step after adoption is pinning it |
| `Secbox.SecBox.Memlock` | src/lib.rs:107-113 | requests a pin of offset 0 through size_of_val, and the model takes it as granted: the region becomes pinned and its bytes are unchanged |
| `Secbox.SecBox.Memunlock` | src/lib.rs:115-121 | unpins offset 0 through size_of_val; callable only once the region is zero, which both call sites meet |
| `Secbox.SecBox.Store` | src/lib.rs:83-85 | `ptr::write`, or a write through `deref_mut`: the region changes in place exactly at the written offsets, and it stays live and pinned |
| `Secbox.SecBox.DropInPlace` | src/lib.rs:184-185 | `drop_in_place` is recorded as one step and changes nothing else |
| `Secbox.SecBox.VolatileZero` | src/lib.rs:186-187 | every one of the size_of_val bytes becomes zero, recorded as a zero fill of the whole value |
| `Secbox.SecBox.MoveOut` | src/lib.rs:96-97 | `ptr::read` returns exactly the region's bytes and records the move out |
| `Secbox.SecBox.Release` | src/lib.rs:189-196 | the region is freed, allowed only when it is unpinned and zero; the box is dead |
| `Secbox.SecBox.Deref` | src/lib.rs:154-160 | returns the stored value, which is the value the recorded history of writes left in the pinned region |
| `Secbox.SecBox.Assign` | src/lib.rs:163-167 | `*bx = v` through `DerefMut` destroys the old value in place, then stores `v` in the same pinned region; nothing else changes |
| `Secbox.SecBox.CloneFrom` | src/lib.rs:136-138 | the destination gets the source's bytes through drop-then-store in its own pinned region; the source's bytes and state are unchanged |
| `Secbox.SecBox.Clone` | src/lib.rs:124-134 | a fresh box in a fresh region is allocated and pinned and filled with an uninitialized value; only after that is the source's value cloned into it; the result equals the source |
| `Secbox.SecBox.Display` | src/lib.rs:169-173 | appends exactly `*******` to the formatter, and the contract does not depend on the box's contents |
| `Secbox.SecBox.Debug` | src/lib.rs:175-179 | appends exactly `*******` to the formatter, and the contract does not depend on the box's contents |
| `Secbox.SecBox.Drop` | src/lib.rs:181-198 | appends exactly drop-in-place, zero, unpin, free; afterwards the box is dead and unpinned and every byte of its former region is 0 |
| `Secbox.SecBox.IntoInner` | src/lib.rs:94-105 | returns the stored value; the region is zeroed before it is unpinned, and then the full drop sequence runs on it too (as written) |
| `Secbox.SecBox.IntoInnerForgetting` | src/lib.rs:94-105 | intended extraction: returns the stored value, zeroes, unpins and frees without destroying the moved value in place |
| `SecboxScenarios.NewReadsBack` | src/test.rs:3-12 | boxes made from `b'a'`, `b'b'` and `b'c'` read back those bytes |
| `SecboxScenarios.AdoptReadsBack` | src/test.rs:14-21 | a box adopting the boxed `"abcs"` reads back those bytes |
| `SecboxScenarios.DropZeroes` | src/test.rs:23-34 | after a box holding 44 is dropped, the bytes of its former region are all zero |
| `SecboxScenarios.IntoInnerReturnsValue` | src/test.rs:36-45 | extraction returns `b'a'`, `b'b'` and `b'c'` |
| `SecboxScenarios.WritesThroughDerefMut` | src/test.rs:47-60 | successive reads see 0, then the first read plus 1 stored back in place (1), then 55 |
| `SecboxScenarios.CloneIsIndependent` | src/test.rs:62-71 | after the clone is set to 3, the original still reads 0 and the clone reads 3; once both are dropped, both former regions are all zero |
| `SecboxScenarios.CloneFromReplaces` | src/test.rs:73-82 | after `clone_from`, the destination reads the source's 0 and the source still reads 0 |
| `SecboxScenarios.FormatHidesValue` | src/lib.rs:169-179 | Display and Debug of a box holding any value render `*******` |

## Left out

- `mlock` / `munlock` are modelled only as the `locked` flag and a trace event. Paging, OS lock quotas and the page-granularity overlap between neighbouring boxes are not modelled. These are foreign calls.
- `Secbox.SecBox.Memlock`: the source discards the return values of `mlock` and `munlock`, so a refused pin goes unnoticed and the value is then written into unpinned memory. The model has no refused pin. `Memlock` sets `locked` unconditionally, so `locked` means "mlock was requested", and the discipline's lock-before-write guarantee assumes that every request was granted. A pin refusal that the code ignores would make the as-written trace leave the discipline. Modelling that needs a model of the OS lock quota, which is out of scope here.
- The allocator, `Box::into_raw` / `Box::from_raw` and `Unique` are left out. The array `mem` is the allocation.
- Non-elision of the volatile writes is not modelled. `write_volatile` and `volatile_set_memory` are ordinary zeroing writes, because compiler optimisation cannot be expressed here.
- What `drop_in_place` does is not modelled, and neither is the undefined behaviour of dropping a zeroed or uninitialised `T`. It is recorded as a `DropInner` event and changes no bytes. Single invocation of a sentinel destructor is therefore not modelled.
- `Secbox.SecBox.CloneFrom`: `T::clone_from` defaults to `*self = src.clone()`. That may build the clone as a temporary outside the pinned region before it is moved in. The model stores the source's bytes straight into the region, so it does not capture that temporary.
- Unsized values and their size metadata are not modelled: size_of_val is the array length, and `From` works on any length. Ownership transfer is also not modelled: `From` keeps the caller's array as the region, and nothing stops the caller from still holding it.
- The test's read of the freed pointer (src/test.rs:31-33) is stated as the region's bytes at the point it is freed. The Dafny array outlives the box.
- `fmt::Formatter` is only an output string. Errors from the underlying writer are not modelled, and neither is the `fmt::Result`.
- The nightly feature gates are left out.

## Findings

| source | as written | input that shows it | evidently intended | confidence | as-written member | corrected member |
|---|---|---|---|---|---|---|
| src/lib.rs:94-105 | `into_inner` takes `self` by value and never forgets it. After the read, the zero fill and the unlock, `Drop::drop` still runs: it does `drop_in_place` on the zeroed region, zeroes it again, unlocks it again and frees it. | `into_inner` on any box whose `T` has a destructor, such as `SecBox<Rc<u8>>`: the destructor runs on `mem::zeroed()` bytes after the value was moved out | after the move out: zero, unpin and free, with no in-place destruction | not executed; drop glue for `self` is evident in the code | `Region.IntoInnerDropsMovedValue`, `Secbox.SecBox.IntoInner` | `Region.ForgetKeepsMove`, `Secbox.SecBox.IntoInnerForgetting` |

`SecboxScenarios.IntoInnerReturnsValue` runs the code as written, which is what the test exercises. Both versions return the same value.
