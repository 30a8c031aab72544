/** The slot table of the guarded allocator as a value: intervals, lookups, and the three ways it changes (efence.c). */
module Slots {
  datatype Mode = NotInUse | Free | Allocated | Protected | InternalUse

  /** struct _Slot. */
  datatype Slot = Slot(userAddress: nat, internalAddress: nat, userSize: nat, internalSize: nat, mode: Mode)
  {
    function End(): nat { internalAddress + internalSize }

    predicate Used() { mode != NotInUse }

    predicate Contains(a: int) { internalAddress <= a < End() }
  }

  const EMPTY := Slot(0, 0, 0, 0, NotInUse)

  /** A piece of address space obtained from the system. */
  datatype Region = Region(address: nat, size: nat)
  {
    predicate Contains(a: int) { address <= a < address + size }
  }

  // ---------- The partition ----------

  predicate Apart(a: Slot, b: Slot) { a.End() <= b.internalAddress || b.End() <= a.internalAddress }

  predicate Shape(s: Slot) {
    if s.Used() then s.internalAddress > 0 && s.internalSize > 0 else s == EMPTY
  }

  predicate Covered(slots: seq<Slot>, a: int) { exists i :: 0 <= i < |slots| && slots[i].Contains(a) }

  predicate Obtained(created: seq<Region>, a: int) { exists i :: 0 <= i < |created| && created[i].Contains(a) }

  ghost predicate Disjoint(slots: seq<Slot>) {
    forall i, j :: 0 <= i < j < |slots| && slots[i].Used() && slots[j].Used() ==> Apart(slots[i], slots[j])
  }

  /** The used slots tile exactly the memory obtained from the system. */
  ghost predicate Partition(slots: seq<Slot>, created: seq<Region>) {
    && (forall i :: 0 <= i < |slots| ==> Shape(slots[i]))
    && Disjoint(slots)
    && (forall a: int :: Covered(slots, a) <==> Obtained(created, a))
  }

  // ---------- Sums and counts ----------

  function TotalSize(slots: seq<Slot>): nat {
    if slots == [] then 0 else slots[0].internalSize + TotalSize(slots[1..])
  }

  function TotalObtained(created: seq<Region>): nat {
    if created == [] then 0 else TotalObtained(created[..|created| - 1]) + created[|created| - 1].size
  }

  function Unused(slots: seq<Slot>): (n: nat)
    ensures n <= |slots|
  {
    if slots == [] then 0 else (if slots[0].Used() then 0 else 1) + Unused(slots[1..])
  }

  lemma {:induction false} TotalUpdate(slots: seq<Slot>, i: nat, s: Slot)
    requires i < |slots|
    ensures TotalSize(slots[i := s]) == TotalSize(slots) - slots[i].internalSize + s.internalSize
  {
    if i > 0 {
      TotalUpdate(slots[1..], i - 1, s);
      assert slots[i := s][1..] == slots[1..][i - 1 := s];
    } else {
      assert slots[i := s][1..] == slots[1..];
    }
  }

  lemma {:induction false} UnusedUpdate(slots: seq<Slot>, i: nat, s: Slot)
    requires i < |slots|
    ensures Unused(slots[i := s]) == Unused(slots) - (if slots[i].Used() then 0 else 1) + (if s.Used() then 0 else 1)
  {
    if i > 0 {
      UnusedUpdate(slots[1..], i - 1, s);
      assert slots[i := s][1..] == slots[1..][i - 1 := s];
    } else {
      assert slots[i := s][1..] == slots[1..];
    }
  }

  // ---------- The three changes of the partition ----------

  /** A new region takes an empty slot. */
  lemma AddRegion(slots: seq<Slot>, created: seq<Region>, e: nat, s: Slot)
    requires Partition(slots, created) && e < |slots| && !slots[e].Used() && s.Used() && Shape(s)
    requires forall a: int :: s.Contains(a) ==> !Obtained(created, a)
    ensures Partition(slots[e := s], created + [Region(s.internalAddress, s.internalSize)])
  {
    hide Apart;
    var slots', created' := slots[e := s], created + [Region(s.internalAddress, s.internalSize)];
    forall i | 0 <= i < |slots| && i != e && slots[i].Used() ensures Apart(slots[i], s) && Apart(s, slots[i]) {
      ApartFromNew(slots, created, i, s);
    }
    forall a: int ensures Covered(slots', a) <==> Obtained(created', a) {
      CoveredUpdate(slots, e, s, a);
      ObtainedMore(created, s, a);
    }
  }

  lemma ApartFromNew(slots: seq<Slot>, created: seq<Region>, i: nat, s: Slot)
    requires Partition(slots, created) && i < |slots| && slots[i].Used() && s.Used() && Shape(s)
    requires forall a: int :: s.Contains(a) ==> !Obtained(created, a)
    ensures Apart(slots[i], s) && Apart(s, slots[i])
  {
    hide Obtained;
    var a := if slots[i].internalAddress <= s.internalAddress then s.internalAddress else slots[i].internalAddress;
    assert slots[i].Contains(a) ==> Covered(slots, a);
    assert Covered(slots, a) ==> !s.Contains(a);
  }

  lemma ObtainedMore(created: seq<Region>, s: Slot, a: int)
    ensures Obtained(created + [Region(s.internalAddress, s.internalSize)], a) <==>
        Obtained(created, a) || s.Contains(a)
  {
    var created' := created + [Region(s.internalAddress, s.internalSize)];
    if s.Contains(a) { assert created'[|created|].Contains(a); }
    if Obtained(created, a) {
      var i :| 0 <= i < |created| && created[i].Contains(a);
      assert created'[i].Contains(a);
    }
  }

  lemma CoveredUpdate(slots: seq<Slot>, i: nat, s: Slot, a: int)
    requires i < |slots|
    ensures Covered(slots[i := s], a) ==> s.Contains(a) || Covered(slots, a)
    ensures s.Contains(a) ==> Covered(slots[i := s], a)
    ensures Covered(slots, a) ==> slots[i].Contains(a) || Covered(slots[i := s], a)
  {
    var slots' := slots[i := s];
    if Covered(slots', a) {
      var j :| 0 <= j < |slots'| && slots'[j].Contains(a);
      if j != i { assert slots[j].Contains(a); }
    }
    if s.Contains(a) { assert slots'[i].Contains(a); }
    if Covered(slots, a) {
      var j :| 0 <= j < |slots| && slots[j].Contains(a);
      if j != i { assert slots'[j].Contains(a); }
    }
  }

  /** A used slot is cut in two, the rest goes to an empty slot. */
  lemma Split(slots: seq<Slot>, created: seq<Region>, i: nat, e: nat, front: Slot, rest: Slot)
    requires Partition(slots, created) && i < |slots| && e < |slots| && i != e && slots[i].Used() && !slots[e].Used()
    requires front.Used() && rest.Used() && front.internalSize > 0 && rest.internalSize > 0
    requires front.internalAddress == slots[i].internalAddress && rest.internalAddress == front.End()
    requires rest.End() == slots[i].End()
    ensures Partition(slots[i := front][e := rest], created)
  {
    var mid, slots' := slots[i := front], slots[i := front][e := rest];
    forall j | 0 <= j < |slots| && j != i && j != e && slots[j].Used()
      ensures Apart(slots[j], front) && Apart(slots[j], rest)
    {
      assert Apart(slots[j], slots[i]);
    }
    forall a: int ensures Covered(slots', a) <==> Covered(slots, a) {
      CoveredUpdate(slots, i, front, a);
      CoveredUpdate(mid, e, rest, a);
      if slots[i].Contains(a) { assert front.Contains(a) || rest.Contains(a); }
      if front.Contains(a) || rest.Contains(a) { assert slots[i].Contains(a); }
    }
  }

  /** Two neighbouring slots become one, the second slot becomes empty. */
  lemma Merge(slots: seq<Slot>, created: seq<Region>, i: nat, j: nat, whole: Slot)
    requires Partition(slots, created) && i < |slots| && j < |slots| && i != j && slots[i].Used() && slots[j].Used()
    requires slots[i].End() == slots[j].internalAddress && whole.Used()
    requires whole.internalAddress == slots[i].internalAddress && whole.End() == slots[j].End()
    ensures Partition(slots[i := whole][j := EMPTY], created)
  {
    var mid, slots' := slots[i := whole], slots[i := whole][j := EMPTY];
    forall k | 0 <= k < |slots| && k != i && k != j && slots[k].Used() ensures Apart(slots[k], whole) {
      assert Apart(slots[k], slots[i]);
      assert Apart(slots[k], slots[j]);
    }
    forall a: int ensures Covered(slots', a) <==> Covered(slots, a) {
      CoveredUpdate(slots, i, whole, a);
      CoveredUpdate(mid, j, EMPTY, a);
      if whole.Contains(a) { assert slots[i].Contains(a) || slots[j].Contains(a); assert slots'[i].Contains(a); }
      if slots[i].Contains(a) || slots[j].Contains(a) { assert whole.Contains(a); }
    }
  }

  /** The mode and the user fields of a slot change, its interval does not. */
  lemma Relabel(slots: seq<Slot>, created: seq<Region>, i: nat, s: Slot)
    requires Partition(slots, created) && i < |slots| && slots[i].Used() && s.Used()
    requires s.internalAddress == slots[i].internalAddress && s.internalSize == slots[i].internalSize
    ensures Partition(slots[i := s], created)
  {
    forall a: int ensures Covered(slots[i := s], a) <==> Covered(slots, a) {
      CoveredUpdate(slots, i, s, a);
    }
  }

  /** More empty slots at the end of the table. */
  lemma AddEmpty(slots: seq<Slot>, created: seq<Region>, more: seq<Slot>)
    requires Partition(slots, created) && forall i :: 0 <= i < |more| ==> more[i] == EMPTY
    ensures Partition(slots + more, created)
    ensures Unused(slots + more) == Unused(slots) + |more| && TotalSize(slots + more) == TotalSize(slots)
  {
    forall a: int ensures Covered(slots + more, a) <==> Covered(slots, a) {
      if Covered(slots, a) {
        var i :| 0 <= i < |slots| && slots[i].Contains(a);
        assert (slots + more)[i].Contains(a);
      }
    }
    CountsConcat(slots, more);
    CountsEmpty(more);
  }

  lemma {:induction false} CountsConcat(a: seq<Slot>, b: seq<Slot>)
    ensures Unused(a + b) == Unused(a) + Unused(b) && TotalSize(a + b) == TotalSize(a) + TotalSize(b)
  {
    if a == [] {
      assert a + b == b;
    } else {
      assert (a + b)[1..] == a[1..] + b;
      CountsConcat(a[1..], b);
    }
  }

  lemma {:induction false} CountsEmpty(more: seq<Slot>)
    requires forall i :: 0 <= i < |more| ==> more[i] == EMPTY
    ensures Unused(more) == |more| && TotalSize(more) == 0
  {
    if more == [] {
    } else {
      CountsEmpty(more[1..]);
    }
  }

  // ---------- Lookups ----------

  /** slotForUserAddress: the first slot with this user address, or |slots|. */
  method SlotForUserAddress(slots: seq<Slot>, address: nat) returns (i: nat)
    ensures i <= |slots| && (i < |slots| ==> slots[i].userAddress == address)
    ensures forall j :: 0 <= j < i ==> slots[j].userAddress != address
  {
    i := 0;
    while i < |slots|
      invariant i <= |slots| && forall j :: 0 <= j < i ==> slots[j].userAddress != address
    {
      if slots[i].userAddress == address { return; }
      i := i + 1;
    }
  }

  /** slotForInternalAddress. */
  method SlotForInternalAddress(slots: seq<Slot>, address: nat) returns (i: nat)
    ensures i <= |slots| && (i < |slots| ==> slots[i].internalAddress == address)
    ensures forall j :: 0 <= j < i ==> slots[j].internalAddress != address
  {
    i := 0;
    while i < |slots|
      invariant i <= |slots| && forall j :: 0 <= j < i ==> slots[j].internalAddress != address
    {
      if slots[i].internalAddress == address { return; }
      i := i + 1;
    }
  }

  /** slotForInternalAddressPreviousTo. */
  method SlotPreviousTo(slots: seq<Slot>, address: nat) returns (i: nat)
    ensures i <= |slots| && (i < |slots| ==> slots[i].End() == address)
    ensures forall j :: 0 <= j < i ==> slots[j].End() != address
  {
    i := 0;
    while i < |slots|
      invariant i <= |slots| && forall j :: 0 <= j < i ==> slots[j].End() != address
    {
      if slots[i].End() == address { return; }
      i := i + 1;
    }
  }

  predicate Fits(s: Slot, size: nat) { s.mode == Free && s.internalSize >= size }

  /** i is the first unused slot. */
  predicate FirstUnused(slots: seq<Slot>, i: int) {
    0 <= i < |slots| && slots[i].mode == NotInUse && forall j :: 0 <= j < i ==> slots[j].Used()
  }

  /** i is the second unused slot. */
  predicate SecondUnused(slots: seq<Slot>, first: int, i: int) {
    0 <= first < i < |slots| && slots[i].mode == NotInUse && forall j :: 0 <= j < i && j != first ==> slots[j].Used()
  }

  /**
   * The scan of memalign: the best-fitting free slot and the first two unused slots, -1 for
   * none. It may stop at an exact fit once a first unused slot is known.
   */
  method FindFit(slots: seq<Slot>, size: nat) returns (full: int, e0: int, e1: int)
    ensures -1 <= full < |slots| && -1 <= e0 < |slots| && -1 <= e1 < |slots|
    ensures full >= 0 ==> Fits(slots[full], size)
    ensures full >= 0 ==> forall j :: 0 <= j < |slots| && Fits(slots[j], size) ==>
        slots[full].internalSize <= slots[j].internalSize
    ensures full >= 0 ==> forall j :: 0 <= j < full && Fits(slots[j], size) ==>
        slots[full].internalSize < slots[j].internalSize
    ensures full < 0 ==> forall j :: 0 <= j < |slots| ==> !Fits(slots[j], size)
    ensures e0 >= 0 ==> FirstUnused(slots, e0)
    ensures e0 < 0 ==> forall j :: 0 <= j < |slots| ==> slots[j].Used()
    ensures e1 >= 0 ==> SecondUnused(slots, e0, e1)
    ensures full < 0 && e1 < 0 ==> forall j :: 0 <= j < |slots| && j != e0 ==> slots[j].Used()
  {
    full, e0, e1 := -1, -1, -1;
    var i := 0;
    while i < |slots|
      invariant i <= |slots| && -1 <= full < i && -1 <= e0 < i && -1 <= e1 < i
      invariant full >= 0 ==> Fits(slots[full], size)
      invariant forall j :: 0 <= j < i && Fits(slots[j], size) ==>
          full >= 0 && slots[full].internalSize <= slots[j].internalSize
      invariant forall j :: 0 <= j < full && Fits(slots[j], size) ==> slots[full].internalSize < slots[j].internalSize
      invariant if e0 < 0 then forall j :: 0 <= j < i ==> slots[j].Used() else FirstUnused(slots, e0)
      invariant if e1 < 0 then forall j :: 0 <= j < i && j != e0 ==> slots[j].Used() else SecondUnused(slots, e0, e1)
    {
      var slot := slots[i];
      if slot.mode == Free && slot.internalSize >= size {
        if full < 0 || slot.internalSize < slots[full].internalSize {
          full := i;
          if slot.internalSize == size && e0 >= 0 { break; }
        }
      } else if slot.mode == NotInUse {
        if e0 < 0 { e0 := i; }
        else if e1 < 0 { e1 := i; }
        else if full >= 0 && slots[full].internalSize == size { break; }
      }
      i := i + 1;
    }
  }

  lemma {:induction false} UnusedExists(slots: seq<Slot>) returns (i: nat)
    requires Unused(slots) >= 1
    ensures i < |slots| && !slots[i].Used()
  {
    if slots[0].Used() {
      i := UnusedExists(slots[1..]);
      i := i + 1;
    } else {
      i := 0;
    }
  }

  lemma TwoUnusedExist(slots: seq<Slot>, k: nat) returns (i: nat)
    requires Unused(slots) >= 2 && k < |slots|
    ensures i < |slots| && i != k && !slots[i].Used()
  {
    var s := Slot(1, 1, 1, 1, Free);
    UnusedUpdate(slots, k, s);
    i := UnusedExists(slots[k := s]);
  }
}
