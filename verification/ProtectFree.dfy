/** EF_PROTECT_FREE: memory that was freed is never handed out again (efence.c:112-123, 771-824). */
module ProtectFree {
  import opened Slots
  import opened PageMath
  import opened Arena
  import opened Machine

  /** The address lies in memory that was freed for good. */
  ghost predicate Locked(slots: seq<Slot>, a: int) {
    exists i :: 0 <= i < |slots| && slots[i].mode == Protected && slots[i].Contains(a)
  }

  ghost predicate AllLocked(slots: seq<Slot>, o: Slot) { forall a: int :: o.Contains(a) ==> Locked(slots, a) }

  /** Nothing is unlocked, and every live buffer stays as it is, or is locked with its guard page. */
  ghost predicate Locks(slots: seq<Slot>, slots': seq<Slot>) {
    && (forall a: int :: Locked(slots, a) ==> Locked(slots', a))
    && (forall o: Slot :: o in Buffers(slots) ==> o in Buffers(slots') || AllLocked(slots', o))
  }

  lemma LocksTwice(a: seq<Slot>, b: seq<Slot>, c: seq<Slot>)
    requires Locks(a, b) && Locks(b, c)
    ensures Locks(a, c)
  {
    hide Locked, Buffers;
    forall o: Slot | o in Buffers(a) ensures o in Buffers(c) || AllLocked(c, o) {
      if o !in Buffers(b) { assert AllLocked(b, o); }
    }
  }

  /** Slots may change that are neither locked nor live, and locked ones as long as their addresses stay locked. */
  lemma LocksByIndex(slots: seq<Slot>, slots': seq<Slot>)
    requires |slots| <= |slots'|
    requires forall k, a: int :: 0 <= k < |slots| && slots[k].mode == Protected && slots[k].Contains(a) ==>
        Locked(slots', a)
    requires forall k :: 0 <= k < |slots| && slots[k].mode == Allocated ==>
        slots'[k] == slots[k] || AllLocked(slots', slots[k])
    ensures Locks(slots, slots')
  {
    forall a: int | Locked(slots, a) ensures Locked(slots', a) {
      var k :| 0 <= k < |slots| && slots[k].mode == Protected && slots[k].Contains(a);
    }
    forall o: Slot | o in Buffers(slots) ensures o in Buffers(slots') || AllLocked(slots', o) {
      var k :| 0 <= k < |slots| && slots[k] == o;
      if slots'[k] == o { assert slots'[k] in slots'; }
    }
  }

  ghost predicate AllShaped(slots: seq<Slot>) { forall i :: 0 <= i < |slots| ==> Shape(slots[i]) }

  /** Live buffers and their guard pages lie outside. */
  lemma LiveIsNotLocked(slots: seq<Slot>, created: seq<Region>, s: Slot, a: int)
    requires Partition(slots, created) && s in slots && s.mode != Protected && s.Contains(a)
    ensures !Locked(slots, a)
  {
    var i: nat :| i < |slots| && slots[i] == s;
    assert Shape(slots[i]);
    forall j | 0 <= j < |slots| && slots[j].mode == Protected ensures !slots[j].Contains(a) {
      assert Apart(slots[i], slots[j]) || Apart(slots[j], slots[i]);
    }
  }

  // ---------- A release ----------

  lemma JoinLocks(slots: seq<Slot>, i: nat, j: nat)
    requires AllShaped(slots) && i < |slots| && j < |slots| && i != j && slots[i].End() == slots[j].internalAddress
    requires slots[i].mode == slots[j].mode == Protected
    ensures Locks(slots, Joined(slots, i, j)) && AllShaped(Joined(slots, i, j))
    ensures |Joined(slots, i, j)| == |slots|
    ensures Joined(slots, i, j)[i].mode == Protected && Joined(slots, i, j)[i].End() == slots[j].End()
  {
    var slots' := Joined(slots, i, j);
    assert Shape(slots[i]) && Shape(slots[j]);
    forall k, a: int | 0 <= k < |slots| && slots[k].mode == Protected && slots[k].Contains(a)
      ensures Locked(slots', a)
    {
      assert if k == j then slots'[i].Contains(a) else slots'[k].Contains(a) && slots'[k].mode == Protected;
    }
    LocksByIndex(slots, slots');
  }

  lemma Unchanged(slots: seq<Slot>)
    ensures Locks(slots, slots)
  {
  }

  lemma JoinedUpLocks(slots: seq<Slot>, i: nat)
    requires AllShaped(slots) && i < |slots| && slots[i].mode == Protected
    ensures var (s, c) := JoinedUp(slots, i); Locks(slots, s) && AllShaped(s) && s[c].mode == Protected
  {
    hide Joined, Locks;
    assert Shape(slots[i]);
    Unchanged(slots);
    var p, n := SlotUpTo(slots, slots[i].internalAddress), SlotFrom(slots, slots[i].End());
    var below := p < |slots| && slots[p].mode == Protected;
    var c := if below then p else i;
    var s := if below then Joined(slots, p, i) else slots;
    if below {
      assert Shape(slots[p]);
      JoinLocks(slots, p, i);
    }
    if n < |s| && s[n].mode == s[c].mode {
      OthersStay(slots, p, i, n);
      JoinLocks(s, c, n);
      LocksTwice(slots, s, Joined(s, c, n));
    }
  }

  lemma OthersStay(slots: seq<Slot>, p: nat, i: nat, n: nat)
    requires i < |slots| && n < |slots|
    ensures p < |slots| && n != p && n != i ==> Joined(slots, p, i)[n] == slots[n]
  {
  }

  lemma SettledLocks(slots: seq<Slot>, i: nat)
    requires AllShaped(slots) && i < |slots| && slots[i].mode == Protected
    ensures Locks(slots, Settled(slots, i)) && AllShaped(Settled(slots, i))
  {
    hide JoinedUp, Locks;
    JoinedUpLocks(slots, i);
    var (s, c) := JoinedUp(slots, i);
    var s' := Settled(slots, i);
    forall k, a: int | 0 <= k < |s| && s[k].mode == Protected && s[k].Contains(a) ensures Locked(s', a) {
      assert s'[k].mode == Protected && s'[k].Contains(a);
    }
    LocksByIndex(s, s');
    LocksTwice(slots, s, s');
  }

  /** What is freed is locked, and what was locked stays so. */
  lemma FreedLocks(slots: seq<Slot>, i: nat, cf: Config)
    requires AllShaped(slots) && i < |slots| && slots[i].Used() && cf.protectFree
    ensures Locks(slots, Freed(slots, i, cf)) && AllShaped(Freed(slots, i, cf))
    ensures AllLocked(Freed(slots, i, cf), slots[i])
  {
    hide Settled, Locks;
    var released := slots[i := slots[i].(mode := Protected)];
    forall a: int | slots[i].Contains(a) ensures Locked(released, a) {
      assert released[i].mode == Protected && released[i].Contains(a);
    }
    forall k, a: int | 0 <= k < |slots| && slots[k].mode == Protected && slots[k].Contains(a)
      ensures Locked(released, a)
    {
      assert released[k].mode == Protected && released[k].Contains(a);
    }
    LocksByIndex(slots, released);
    SettledLocks(released, i);
    LocksTwice(slots, released, Settled(released, i));
    StaysLocked(released, Settled(released, i), slots[i]);
  }

  lemma StaysLocked(slots: seq<Slot>, slots': seq<Slot>, o: Slot)
    requires Locks(slots, slots') && AllLocked(slots, o)
    ensures AllLocked(slots', o)
  {
    hide Locked;
  }

  // ---------- An allocation ----------

  /** Slots that are neither locked nor live may change. */
  lemma UpdateLocks(slots: seq<Slot>, i: nat, s: Slot)
    requires AllShaped(slots) && i < |slots| && slots[i].mode in {Free, NotInUse} && Shape(s)
    ensures Locks(slots, slots[i := s]) && AllShaped(slots[i := s])
  {
    var slots' := slots[i := s];
    forall k, a: int | 0 <= k < |slots| && slots[k].mode == Protected && slots[k].Contains(a)
      ensures Locked(slots', a)
    {
      assert slots'[k] == slots[k];
    }
    LocksByIndex(slots, slots');
  }

  lemma SupplyLocks(slots: seq<Slot>, created: seq<Region>, internalSize: nat, cf: Config)
    requires AllShaped(slots) && GoodSystem(cf) && cf.page > 0
    ensures var at := Supplied(slots, created, internalSize, cf);
            && Locks(slots, at.slots) && AllShaped(at.slots)
            && (at.f < |at.slots| ==> at.slots[at.f].mode == Free)
            && (at.e < |at.slots| ==> at.slots[at.e].mode == NotInUse)
  {
    hide Locks;
    Unchanged(slots);
    var full, e0 := BestSlot(slots, internalSize), EmptyFrom(slots, 0);
    if full == |slots| && e0 < |slots| {
      var size := ChunkSize(internalSize, cf);
      ChunkSizeIs(internalSize, cf);
      assert cf.mmap(created, size) > 0;
      UpdateLocks(slots, e0, Slot(0, cf.mmap(created, size), 0, size, Free));
    }
  }

  lemma TakenLocks(slots: seq<Slot>, created: seq<Region>, userSize: nat, internalSize: nat, m: Mode, cf: Config)
    requires AllShaped(slots) && GoodSystem(cf) && cf.page > 0 && userSize + cf.page <= internalSize
    requires m == Allocated || m == InternalUse
    ensures var a := Taken(slots, created, userSize, internalSize, m, cf);
            Locks(slots, a.slots) && AllShaped(a.slots)
  {
    hide Locks, Supplied, GoodSystem;
    SupplyLocks(slots, created, internalSize, cf);
    var at := Supplied(slots, created, internalSize, cf);
    if at.f < |at.slots| && at.e < |at.slots| && internalSize <= at.slots[at.f].internalSize {
      var f := at.slots[at.f];
      assert Shape(f);
      var s := NewBuffer(f.internalAddress, userSize, internalSize, m, cf);
      UpdateLocks(at.slots, at.f, s);
      LocksTwice(slots, at.slots, at.slots[at.f := s]);
      if internalSize < f.internalSize {
        var rest := Slot(0, s.End(), 0, f.internalSize - internalSize, Free);
        UpdateLocks(at.slots[at.f := s], at.e, rest);
        LocksTwice(slots, at.slots[at.f := s], at.slots[at.f := s][at.e := rest]);
      }
    }
  }

  lemma MoreSlotsLock(slots: seq<Slot>, n: nat)
    requires AllShaped(slots)
    ensures var more := slots + seq(n, _ => EMPTY); Locks(slots, more) && AllShaped(more)
  {
    var more := slots + seq(n, _ => EMPTY);
    forall k, a: int | 0 <= k < |slots| && slots[k].mode == Protected && slots[k].Contains(a) ensures Locked(more, a) {
      assert more[k] == slots[k];
    }
    LocksByIndex(slots, more);
  }

  lemma GrownLocks(st: State, cf: Config)
    requires AllShaped(st.slots) && GoodSystem(cf) && cf.page > 0 && cf.protectFree && st.listAddress != 0
    ensures Locks(st.slots, Grown(st, cf).slots) && AllShaped(Grown(st, cf).slots)
  {
    hide Locks, GoodSystem, Taken, Freed, RoundUp, Rounded;
    var size := st.listSize + cf.page;
    TakenLocks(st.slots, st.created, Rounded(size, cf.alignment, cf), Needed(size, cf), InternalUse, cf);
    var a := Allocate(st, size, InternalUse, cf);
    MoreSlotsLock(a.slots, cf.page / SLOT_SIZE);
    var more := a.slots + seq(cf.page / SLOT_SIZE, _ => EMPTY);
    LocksTwice(st.slots, a.slots, more);
    var t := UserSlot(more, st.listAddress);
    if t < |more| {
      assert Shape(more[t]);
      FreedLocks(more, t, cf);
      LocksTwice(st.slots, more, Freed(more, t, cf));
    }
  }

  lemma MallocLocks(st: State, size: nat, cf: Config)
    requires AllShaped(st.slots) && GoodSystem(cf) && cf.page > 0 && cf.protectFree && st.listAddress != 0
    ensures Locks(st.slots, AfterMalloc(st, size, cf).slots) && AllShaped(AfterMalloc(st, size, cf).slots)
  {
    hide Locks, GoodSystem, Taken, Grown, RoundUp, Rounded;
    GrownLocks(st, cf);
    Unchanged(st.slots);
    var scanned := Scanned(st, cf);
    TakenLocks(scanned.slots, scanned.created, Rounded(size, cf.alignment, cf), Needed(size, cf), Allocated, cf);
    LocksTwice(st.slots, scanned.slots, AfterMalloc(st, size, cf).slots);
  }

  lemma FreeLocks(st: State, address: nat, cf: Config)
    requires AllShaped(st.slots) && cf.protectFree
    ensures Locks(st.slots, AfterFree(st, address, cf).slots)
  {
    hide Locks, Freed;
    Unchanged(st.slots);
    var t := UserSlot(st.slots, address);
    if address != 0 && t < |st.slots| {
      assert Shape(st.slots[t]);
      FreedLocks(st.slots, t, cf);
    }
  }

  /** No call unlocks anything, and the buffers that go are locked. */
  lemma NextLocks(st: State, call: Call, cf: Config)
    requires AllShaped(st.slots) && GoodSystem(cf) && cf.page > 0 && cf.protectFree && st.listAddress != 0
    ensures Locks(st.slots, Next(st, call, cf).slots)
  {
    hide Locks, GoodSystem, AfterMalloc, AfterFree;
    match call
    case CallMalloc(size) => MallocLocks(st, size, cf);
    case CallFree(address) => FreeLocks(st, address, cf);
    case CallRealloc(address, size) =>
      MallocLocks(st, size, cf);
      var st' := AfterMalloc(st, size, cf);
      FreeLocks(st', address, cf);
      LocksTwice(st.slots, st'.slots, AfterFree(st', address, cf).slots);
  }
}
