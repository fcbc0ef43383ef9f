/**
  The memory discipline a secure box follows, stated on its own: a region of
  bytes, the events a box performs on it (allocate, pin, write, move out,
  destroy in place, zero, unpin, free), and an automaton that accepts exactly
  the event sequences that keep the discipline. The box in module Secbox is
  proved to produce only accepted sequences; the lemmas here say what an
  accepted sequence guarantees.
*/
module Region {

  type byte = bv8

  datatype Option<T> = None | Some(value: T)

  /** Where a region stands in its lifetime. */
  datatype Phase = Unallocated | Allocated | Freed

  /** What the discipline knows of one region: its phase, whether it is pinned, and its bytes. */
  datatype RegionState = RegionState(phase: Phase, locked: bool, bytes: seq<byte>)

  /**
    One step a box performs on its region. `off` and `len` of Lock, Zero and Unlock
    are the byte range, relative to the start of the stored value.
  */
  datatype Event =
    | Alloc(init: seq<byte>)           // a fresh allocation, holding whatever bytes it holds
    | Adopt(init: seq<byte>)           // an existing allocation, already holding a value, taken over
    | Lock(off: nat, len: nat)         // mlock
    | Write(off: nat, data: seq<byte>) // bytes stored into the region
    | Read(len: nat)                   // the value moved out of the region, bit for bit
    | DropInner                        // the value's destructor run in place
    | Zero(off: nat, len: nat)         // volatile zero fill
    | Unlock(off: nat, len: nat)       // munlock
    | Free                             // the allocation released

  /** Before anything happened. */
  const Fresh := RegionState(Unallocated, false, [])

  predicate IsZero(s: seq<byte>) {
    forall i :: 0 <= i < |s| ==> s[i] == 0
  }

  function Zeros(n: nat): (z: seq<byte>)
    ensures |z| == n && IsZero(z)
  {
    seq(n, _ => 0)
  }

  /** A range that is exactly the stored value: its own address, its full size. */
  predicate Spans(r: RegionState, off: nat, len: nat) {
    off == 0 && len == |r.bytes|
  }

  /** `s` with `data` stored from offset `off` on. */
  function Splice(s: seq<byte>, off: nat, data: seq<byte>): (r: seq<byte>)
    requires off + |data| <= |s|
    ensures |r| == |s|
    ensures forall k :: 0 <= k < off ==> r[k] == s[k]
    ensures forall k :: 0 <= k < |data| ==> r[off + k] == data[k]
    ensures forall k :: off + |data| <= k < |s| ==> r[k] == s[k]
  {
    s[..off] + data + s[off + |data|..]
  }

  /**
    The discipline. A step is refused (None) when it would store bytes into
    unpinned memory, unpin or free bytes that are not all zero, free pinned
    memory, cover anything but the exact value, or touch a region that is not
    allocated.
  */
  function Step(r: RegionState, e: Event): Option<RegionState> {
    match e
    case Alloc(init) =>
      if r.phase == Unallocated then Some(RegionState(Allocated, false, init)) else None
    case Adopt(init) =>
      if r.phase == Unallocated then Some(RegionState(Allocated, false, init)) else None
    case Lock(off, len) =>
      if r.phase == Allocated && Spans(r, off, len) then Some(r.(locked := true)) else None
    case Write(off, data) =>
      if r.phase == Allocated && r.locked && off + |data| <= |r.bytes|
      then Some(r.(bytes := Splice(r.bytes, off, data)))
      else None
    case Read(len) =>
      if r.phase == Allocated && len == |r.bytes| then Some(r) else None
    case DropInner =>
      if r.phase == Allocated then Some(r) else None
    case Zero(off, len) =>
      if r.phase == Allocated && Spans(r, off, len) then Some(r.(bytes := Zeros(|r.bytes|))) else None
    case Unlock(off, len) =>
      if r.phase == Allocated && Spans(r, off, len) && IsZero(r.bytes)
      then Some(r.(locked := false))
      else None
    case Free =>
      if r.phase == Allocated && !r.locked && IsZero(r.bytes) then Some(r.(phase := Freed)) else None
  }

  /** The region a trace leaves behind, or None if some step of it breaks the discipline. */
  function Replay(t: seq<Event>): Option<RegionState>
    decreases |t|
  {
    if t == [] then Some(Fresh)
    else
      match Replay(t[..|t| - 1])
      case None => None
      case Some(r) => Step(r, t[|t| - 1])
  }

  /** Replay after one more event is one more step. */
  lemma ReplaySnoc(t: seq<Event>, e: Event)
    ensures Replay(t + [e]) == (match Replay(t) case None => None case Some(r) => Step(r, e))
  {
    assert (t + [e])[..|t|] == t;
  }

  /** Every prefix of an accepted trace is accepted. */
  lemma {:induction false} ReplayPrefix(t: seq<Event>, i: nat)
    requires Replay(t).Some? && i <= |t|
    ensures Replay(t[..i]).Some?
    decreases |t|
  {
    if i < |t| {
      var p := t[..|t| - 1];
      assert p[..i] == t[..i];
      ReplayPrefix(p, i);
    } else {
      assert t[..i] == t;
    }
  }

  /** In an accepted trace, event i was a permitted step from the region its prefix left. */
  lemma ReplayAt(t: seq<Event>, i: nat)
    requires Replay(t).Some? && i < |t|
    ensures Replay(t[..i]).Some?
    ensures Step(Replay(t[..i]).value, t[i]).Some?
  {
    ReplayPrefix(t, i + 1);
    assert t[..i + 1][..i] == t[..i];
    assert t[..i + 1][i] == t[i];
  }

  /** A value is only ever written into pinned memory. */
  lemma WriteOnlyWhenLocked(t: seq<Event>, i: nat)
    requires Replay(t).Some? && i < |t| && t[i].Write?
    ensures Replay(t[..i]).Some? && Replay(t[..i]).value.phase == Allocated
    ensures Replay(t[..i]).value.locked
  {
    ReplayAt(t, i);
  }

  /** The region is unpinned only when every byte of it is zero, and the unpin covers the whole value. */
  lemma UnlockOnlyWhenZero(t: seq<Event>, i: nat)
    requires Replay(t).Some? && i < |t| && t[i].Unlock?
    ensures Replay(t[..i]).Some? && IsZero(Replay(t[..i]).value.bytes)
    ensures t[i].off == 0 && t[i].len == |Replay(t[..i]).value.bytes|
  {
    ReplayAt(t, i);
  }

  /** The region is freed only when it is unpinned and every byte of it is zero. */
  lemma FreeOnlyWhenZeroAndUnlocked(t: seq<Event>, i: nat)
    requires Replay(t).Some? && i < |t| && t[i] == Free
    ensures Replay(t[..i]).Some? && !Replay(t[..i]).value.locked
    ensures IsZero(Replay(t[..i]).value.bytes)
  {
    ReplayAt(t, i);
  }

  /** Pinning, zeroing and unpinning each cover exactly size-of-value bytes from the value's own address. */
  lemma RangesSpanValue(t: seq<Event>, i: nat)
    requires Replay(t).Some? && i < |t| && (t[i].Lock? || t[i].Zero? || t[i].Unlock?)
    ensures Replay(t[..i]).Some? && Spans(Replay(t[..i]).value, t[i].off, t[i].len)
  {
    ReplayAt(t, i);
  }

  /** Once freed, a region admits no further step: no use after free, no double free, no re-entry. */
  lemma {:induction false} FreedIsTerminal(t: seq<Event>, u: seq<Event>)
    requires Replay(t).Some? && Replay(t).value.phase == Freed
    requires u != []
    ensures Replay(t + u) == None
    decreases |u|
  {
    var w := u[..|u| - 1];
    assert (t + u)[..|t + u| - 1] == t + w;
    if w != [] {
      FreedIsTerminal(t, w);
    } else {
      assert t + w == t;
    }
  }

  function FreeCount(t: seq<Event>): nat
    decreases |t|
  {
    if t == [] then 0 else FreeCount(t[..|t| - 1]) + (if t[|t| - 1] == Free then 1 else 0)
  }

  /** An accepted trace frees its region once if the region was freed, and never otherwise. */
  lemma {:induction false} FreedExactlyOnce(t: seq<Event>)
    requires Replay(t).Some?
    ensures FreeCount(t) == if Replay(t).value.phase == Freed then 1 else 0
    decreases |t|
  {
    if t != [] {
      FreedExactlyOnce(t[..|t| - 1]);
    }
  }

  /** The steps of dropping a box. */
  function DropEvents(n: nat): seq<Event> {
    [DropInner, Zero(0, n), Unlock(0, n), Free]
  }

  /** The steps of `into_inner` before the box's own drop runs. */
  function ExtractEvents(n: nat): seq<Event> {
    [Read(n), Zero(0, n), Unlock(0, n)]
  }

  /** Dropping is permitted from any allocated region, pinned or not, and leaves it zero, unpinned and freed. */
  lemma DropAccepted(t: seq<Event>)
    requires Replay(t).Some? && Replay(t).value.phase == Allocated
    ensures Replay(t + DropEvents(|Replay(t).value.bytes|))
         == Some(RegionState(Freed, false, Zeros(|Replay(t).value.bytes|)))
  {
    var r := Replay(t).value;
    var n := |r.bytes|;
    ReplaySnoc(t, DropInner);
    ReplaySnoc(t + [DropInner], Zero(0, n));
    ReplaySnoc(t + [DropInner, Zero(0, n)], Unlock(0, n));
    ReplaySnoc(t + [DropInner, Zero(0, n), Unlock(0, n)], Free);
    assert t + [DropInner] + [Zero(0, n)] == t + [DropInner, Zero(0, n)];
    assert t + [DropInner, Zero(0, n)] + [Unlock(0, n)] == t + [DropInner, Zero(0, n), Unlock(0, n)];
    assert t + [DropInner, Zero(0, n), Unlock(0, n)] + [Free] == t + DropEvents(n);
  }

  /** The extraction steps are permitted from any allocated region and leave it zero and unpinned, still allocated. */
  lemma ExtractAccepted(t: seq<Event>)
    requires Replay(t).Some? && Replay(t).value.phase == Allocated
    ensures Replay(t + ExtractEvents(|Replay(t).value.bytes|))
         == Some(RegionState(Allocated, false, Zeros(|Replay(t).value.bytes|)))
  {
    var n := |Replay(t).value.bytes|;
    ReplaySnoc(t, Read(n));
    ReplaySnoc(t + [Read(n)], Zero(0, n));
    ReplaySnoc(t + [Read(n), Zero(0, n)], Unlock(0, n));
    assert t + [Read(n)] + [Zero(0, n)] == t + [Read(n), Zero(0, n)];
    assert t + [Read(n), Zero(0, n)] + [Unlock(0, n)] == t + ExtractEvents(n);
  }

  /**
    Constructing a box (allocate, pin, then store the value) is accepted and
    leaves the region pinned and holding exactly the value, whatever the
    allocation held before.
  */
  lemma NewAccepted(init: seq<byte>, v: seq<byte>)
    requires |init| == |v|
    ensures Replay([Alloc(init), Lock(0, |v|), Write(0, v)]) == Some(RegionState(Allocated, true, v))
  {
    ReplaySnoc([], Alloc(init));
    ReplaySnoc([Alloc(init)], Lock(0, |v|));
    ReplaySnoc([Alloc(init), Lock(0, |v|)], Write(0, v));
    assert [] + [Alloc(init)] == [Alloc(init)];
    assert [Alloc(init)] + [Lock(0, |v|)] == [Alloc(init), Lock(0, |v|)];
    assert [Alloc(init), Lock(0, |v|)] + [Write(0, v)] == [Alloc(init), Lock(0, |v|), Write(0, v)];
    assert Splice(init, 0, v) == v;
  }

  /** Storing first and pinning afterwards is refused: the value would sit in unpinned memory. */
  lemma WriteBeforeLockRefused(init: seq<byte>, v: seq<byte>)
    requires |init| == |v|
    ensures Replay([Alloc(init), Write(0, v), Lock(0, |v|)]) == None
  {
    ReplaySnoc([], Alloc(init));
    ReplaySnoc([Alloc(init)], Write(0, v));
    ReplaySnoc([Alloc(init), Write(0, v)], Lock(0, |v|));
    assert [] + [Alloc(init)] == [Alloc(init)];
    assert [Alloc(init)] + [Write(0, v)] == [Alloc(init), Write(0, v)];
    assert [Alloc(init), Write(0, v)] + [Lock(0, |v|)] == [Alloc(init), Write(0, v), Lock(0, |v|)];
  }

  /** Unpinning before zeroing is refused for any value that is not already zero. */
  lemma UnlockBeforeZeroRefused(t: seq<Event>)
    requires Replay(t).Some? && Replay(t).value.phase == Allocated
    requires !IsZero(Replay(t).value.bytes)
    ensures Replay(t + [Unlock(0, |Replay(t).value.bytes|)]) == None
  {
    ReplaySnoc(t, Unlock(0, |Replay(t).value.bytes|));
  }

  /** No value that was moved out of the region is afterwards destroyed in place. */
  ghost predicate NoDropAfterMove(t: seq<Event>) {
    forall i, j :: 0 <= i < j < |t| && t[i].Read? ==> !t[j].DropInner?
  }

  /**
    As written, `into_inner` moves the value out and then lets the box's own
    drop run, which destroys the (now zeroed) value in place a second time.
  */
  lemma IntoInnerDropsMovedValue(t: seq<Event>, n: nat)
    ensures !NoDropAfterMove(t + ExtractEvents(n) + DropEvents(n))
  {
    var u := t + ExtractEvents(n) + DropEvents(n);
    assert u[|t|] == Read(n);
    assert u[|t| + 3] == DropInner;
  }

  /** The steps of extraction done as intended: move out, zero, unpin, free, without the in-place drop. */
  function ForgetEvents(n: nat): seq<Event> {
    ExtractEvents(n) + [Free]
  }

  /** Extraction done as intended is accepted from any allocated region, ending in a zero, unpinned, freed region. */
  lemma ForgetAccepted(t: seq<Event>)
    requires Replay(t).Some? && Replay(t).value.phase == Allocated
    ensures Replay(t + ForgetEvents(|Replay(t).value.bytes|))
         == Some(RegionState(Freed, false, Zeros(|Replay(t).value.bytes|)))
  {
    var n := |Replay(t).value.bytes|;
    ExtractAccepted(t);
    ReplaySnoc(t + ExtractEvents(n), Free);
    assert t + ExtractEvents(n) + [Free] == t + ForgetEvents(n);
  }

  /** Extraction done as intended never destroys the moved-out value in place. */
  lemma ForgetKeepsMove(t: seq<Event>, n: nat)
    requires NoDropAfterMove(t)
    ensures NoDropAfterMove(t + ForgetEvents(n))
  {
    var u := t + ForgetEvents(n);
    forall i, j | 0 <= i < j < |u| && u[i].Read?
      ensures !u[j].DropInner?
    {
      if j < |t| {
        assert u[i] == t[i] && u[j] == t[j];
      } else {
        assert u[j] == ForgetEvents(n)[j - |t|];
      }
    }
  }
}
