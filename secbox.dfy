/**
  The secure box: an owning handle to one heap region holding a value that is
  pinned between operations (`Sealed()`) and zeroed before it is unpinned and
  freed. The
  value is a fixed-length byte sequence; its length is size_of_val. Every step
  the box performs on its region is recorded in the ghost `trace`, and the
  object invariant Valid() says that the trace is accepted by the discipline of
  module Region and that the region the trace predicts is the real one.
*/
module Secbox {
  import opened Region

  datatype Lifecycle = Live | Dead

  /** The placeholder every box renders as, whatever it holds. */
  const Redaction: string := "*******"

  /** The output side of a formatter: what has been written to it so far. */
  class Formatter {
    var out: string

    constructor ()
      ensures out == ""
    {
      out := "";
    }
  }

  /** A fresh heap allocation of `n` bytes; callers learn nothing of what it holds. */
  method Allocate(n: nat) returns (a: array<byte>)
    ensures fresh(a) && a.Length == n
  {
    a := new byte[n];
  }

  /** An uninitialised value of `n` bytes (`mem::uninitialized`); callers learn nothing of its bytes. */
  method Uninitialized(n: nat) returns (v: seq<byte>)
    ensures |v| == n
  {
    v := Zeros(n);
  }

  class SecBox {
    /** The region. The pointer never changes; the bytes do. */
    const mem: array<byte>
    /** Whether the region is currently pinned (mlock'ed). */
    var locked: bool
    /** Live until the box's drop has freed the region. */
    var state: Lifecycle
    /** Every step performed on the region, in order. */
    ghost var trace: seq<Event>

    /** The region as the discipline sees it. */
    ghost function View(): RegionState
      reads this, mem
    {
      RegionState(if state == Live then Allocated else Freed, locked, mem[..])
    }

    /** The trace keeps the discipline and predicts the real region. */
    ghost predicate Valid()
      reads this, mem
    {
      Replay(trace) == Some(View())
    }

    /** A box as its owner sees it between operations: live and pinned. */
    ghost predicate Sealed()
      reads this, mem
    {
      Valid() && state == Live && locked
    }

    /**
      `SecBox::new`: allocate a region for an uninitialised value, pin it, and
      only then store the value into it.
    */
    constructor New(v: seq<byte>)
      ensures Sealed() && fresh(mem)
      ensures mem[..] == v
      ensures |trace| == 3 && trace[0].Alloc? && |trace[0].init| == |v|
      ensures trace[1..] == [Lock(0, |v|), Write(0, v)]
    {
      var a := Allocate(|v|);
      mem := a;
      locked := false;
      state := Live;
      trace := [Alloc(a[..])];
      new;
      ReplaySnoc([], Alloc(a[..]));
      assert [] + [Alloc(a[..])] == [Alloc(a[..])];
      Memlock();
      Store(0, v);
      assert Splice(a[..], 0, v) == v;
    }

    /**
      `From<Box<T>>`: take over an allocation that already holds the value,
      without rewriting it, and pin it in place.
    */
    constructor From(b: array<byte>)
      ensures Sealed() && mem == b
      ensures mem[..] == old(b[..])
      ensures trace == [Adopt(old(b[..])), Lock(0, b.Length)]
    {
      mem := b;
      locked := false;
      state := Live;
      trace := [Adopt(b[..])];
      new;
      ReplaySnoc([], Adopt(b[..]));
      assert [] + [Adopt(b[..])] == [Adopt(b[..])];
      Memlock();
    }

    /** `memlock`: pin exactly size_of_val bytes from the value's own address. */
    method Memlock()
      requires Valid() && state == Live
      modifies this`locked, this`trace
      ensures Valid() && locked
      ensures trace == old(trace) + [Lock(0, mem.Length)]
    {
      ReplaySnoc(trace, Lock(0, mem.Length));
      locked := true;
      trace := trace + [Lock(0, mem.Length)];
    }

    /**
      `memunlock`: unpin exactly size_of_val bytes from the value's own
      address. Both callers zero the region first, which the discipline demands.
    */
    method Memunlock()
      requires Valid() && state == Live && IsZero(mem[..])
      modifies this`locked, this`trace
      ensures Valid() && !locked
      ensures trace == old(trace) + [Unlock(0, mem.Length)]
    {
      ReplaySnoc(trace, Unlock(0, mem.Length));
      locked := false;
      trace := trace + [Unlock(0, mem.Length)];
    }

    /**
      Bytes stored into the pinned region in place: the `ptr::write` of `new`,
      or a write through the `&mut T` that `deref_mut` hands out.
    */
    method Store(off: nat, data: seq<byte>)
      requires Sealed() && off + |data| <= mem.Length
      modifies mem, this`trace
      ensures Sealed()
      ensures mem[..] == Splice(old(mem[..]), off, data)
      ensures trace == old(trace) + [Write(off, data)]
    {
      ReplaySnoc(trace, Write(off, data));
      ghost var before := mem[..];
      forall k | 0 <= k < |data| {
        mem[off + k] := data[k];
      }
      assert mem[..] == Splice(before, off, data);
      trace := trace + [Write(off, data)];
    }

    /** `ptr::drop_in_place`: the value's destructor runs on the region; only the step is recorded. */
    method DropInPlace()
      requires Valid() && state == Live
      modifies this`trace
      ensures Valid()
      ensures trace == old(trace) + [DropInner]
    {
      ReplaySnoc(trace, DropInner);
      trace := trace + [DropInner];
    }

    /** The volatile zero fill of all size_of_val bytes of the region. */
    method VolatileZero()
      requires Valid() && state == Live
      modifies mem, this`trace
      ensures Valid()
      ensures mem[..] == Zeros(mem.Length)
      ensures trace == old(trace) + [Zero(0, mem.Length)]
    {
      ReplaySnoc(trace, Zero(0, mem.Length));
      forall i | 0 <= i < mem.Length {
        mem[i] := 0;
      }
      assert mem[..] == Zeros(mem.Length);
      trace := trace + [Zero(0, mem.Length)];
    }

    /** `ptr::read`: the value moved out of the region, bit for bit. */
    method MoveOut() returns (v: seq<byte>)
      requires Valid() && state == Live
      modifies this`trace
      ensures Valid() && v == mem[..]
      ensures trace == old(trace) + [Read(mem.Length)]
    {
      ReplaySnoc(trace, Read(mem.Length));
      v := mem[..];
      trace := trace + [Read(mem.Length)];
    }

    /** The allocation released; the discipline lets this happen only to unpinned zero bytes. */
    method Release()
      requires Valid() && state == Live && !locked && IsZero(mem[..])
      modifies this`state, this`trace
      ensures Valid() && state == Dead
      ensures trace == old(trace) + [Free]
    {
      ReplaySnoc(trace, Free);
      state := Dead;
      trace := trace + [Free];
    }

    /** `Deref`: the value the recorded history of the region left in it. */
    method Deref() returns (v: seq<byte>)
      requires Sealed()
      ensures v == mem[..]
      ensures Replay(trace) == Some(RegionState(Allocated, true, v))
    {
      v := mem[..];
    }

    /**
      An assignment `*bx = v` through `DerefMut`: the old value is destroyed in
      place, then the new one is stored into the same pinned region.
    */
    method Assign(v: seq<byte>)
      requires Sealed() && |v| == mem.Length
      modifies mem, this`trace
      ensures Sealed()
      ensures mem[..] == v
      ensures trace == old(trace) + [DropInner, Write(0, v)]
    {
      ghost var before := mem[..];
      DropInPlace();
      Store(0, v);
      assert Splice(before, 0, v) == v;
    }

    /**
      `clone_from`: T's own `clone_from` on the value through `DerefMut`, which
      assigns a clone of the source's value. The source is unchanged.
    */
    method CloneFrom(src: SecBox)
      requires Sealed() && src.Sealed()
      requires src != this && src.mem != mem && src.mem.Length == mem.Length
      modifies mem, this`trace
      ensures Sealed() && src.Sealed()
      ensures src.mem[..] == old(src.mem[..]) && mem[..] == src.mem[..]
      ensures trace == old(trace) + [DropInner, Write(0, src.mem[..])]
    {
      var v := src.Deref();
      Assign(v);
    }

    /**
      `clone`: a box is made around an uninitialised value (allocated and
      pinned first), and the source's value is then cloned into it in place.
    */
    method Clone() returns (bx: SecBox)
      requires Sealed()
      ensures fresh(bx) && fresh(bx.mem) && bx.Sealed()
      ensures bx.mem[..] == mem[..]
      ensures |bx.trace| == 5 && bx.trace[0].Alloc? && bx.trace[1] == Lock(0, mem.Length)
      ensures bx.trace[2].Write? && bx.trace[2].off == 0
      ensures bx.trace[3..] == [DropInner, Write(0, mem[..])]
    {
      var junk := Uninitialized(mem.Length);
      bx := new SecBox.New(junk);
      bx.CloneFrom(this);
    }

    /** `Display::fmt`: the placeholder, never the bytes. */
    method Display(f: Formatter)
      modifies f
      ensures f.out == old(f.out) + Redaction
    {
      f.out := f.out + Redaction;
    }

    /** `Debug::fmt`: the same placeholder. */
    method Debug(f: Formatter)
      modifies f
      ensures f.out == old(f.out) + Redaction
    {
      f.out := f.out + Redaction;
    }

    /**
      `Drop::drop`: destroy the value in place, zero every byte of it, unpin
      the same range, free the region. It runs from any live box, also from
      one that `into_inner` has already zeroed and unpinned.
    */
    method Drop()
      requires Valid() && state == Live
      modifies mem, this`locked, this`state, this`trace
      ensures Valid() && state == Dead && !locked
      ensures IsZero(mem[..])
      ensures trace == old(trace) + DropEvents(mem.Length)
    {
      DropInPlace();
      VolatileZero();
      Memunlock();
      Release();
    }

    /**
      `into_inner` as written: move the value out, zero the region, unpin it;
      then, since the box is not forgotten, its drop runs on the zeroed region.
      The moved-out value is therefore destroyed in place a second time.
    */
    method IntoInner() returns (v: seq<byte>)
      requires Sealed()
      modifies mem, this`locked, this`state, this`trace
      ensures v == old(mem[..])
      ensures Valid() && state == Dead && !locked
      ensures IsZero(mem[..])
      ensures trace == old(trace) + ExtractEvents(mem.Length) + DropEvents(mem.Length)
      ensures !NoDropAfterMove(trace)
    {
      v := MoveOut();
      VolatileZero();
      Memunlock();
      Drop();
      IntoInnerDropsMovedValue(old(trace), mem.Length);
    }

    /**
      `into_inner` as intended: move the value out, zero, unpin, and free the
      region without running the value's destructor on it.
    */
    method IntoInnerForgetting() returns (v: seq<byte>)
      requires Sealed()
      modifies mem, this`locked, this`state, this`trace
      ensures v == old(mem[..])
      ensures Valid() && state == Dead && !locked
      ensures IsZero(mem[..])
      ensures trace == old(trace) + ForgetEvents(mem.Length)
      ensures NoDropAfterMove(old(trace)) ==> NoDropAfterMove(trace)
    {
      v := MoveOut();
      VolatileZero();
      Memunlock();
      Release();
      if NoDropAfterMove(old(trace)) {
        ForgetKeepsMove(old(trace), mem.Length);
      }
    }
  }
}
