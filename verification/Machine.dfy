/**
 * The allocator as a value: the slot table, the memory obtained and the place of the table decide every address that
 * is handed out and every call that is refused (efence.c:418-871).
 */
module Machine {
  import opened Slots
  import opened PageMath
  import opened Arena

  datatype State = State(slots: seq<Slot>, created: seq<Region>, listAddress: nat, listSize: nat)

  // ---------- Lookups ----------

  /** The first slot from i on that p accepts, or |slots|. */
  function FirstFrom(slots: seq<Slot>, p: Slot -> bool, i: nat): (n: nat)
    requires i <= |slots|
    ensures i <= n <= |slots| && (n < |slots| ==> p(slots[n]))
    ensures forall j :: i <= j < n ==> !p(slots[j])
    decreases |slots| - i
  {
    if i == |slots| || p(slots[i]) then i else FirstFrom(slots, p, i + 1)
  }

  function UserSlot(slots: seq<Slot>, address: nat): (n: nat)
    ensures n <= |slots| && (n < |slots| ==> slots[n].userAddress == address)
    ensures forall j :: 0 <= j < n ==> slots[j].userAddress != address
  {
    FirstFrom(slots, (s: Slot) => s.userAddress == address, 0)
  }

  function SlotFrom(slots: seq<Slot>, address: nat): (n: nat)
    ensures n <= |slots| && (n < |slots| ==> slots[n].internalAddress == address)
    ensures forall j :: 0 <= j < n ==> slots[j].internalAddress != address
  {
    FirstFrom(slots, (s: Slot) => s.internalAddress == address, 0)
  }

  function SlotUpTo(slots: seq<Slot>, address: nat): (n: nat)
    ensures n <= |slots| && (n < |slots| ==> slots[n].End() == address)
    ensures forall j :: 0 <= j < n ==> slots[j].End() != address
  {
    FirstFrom(slots, (s: Slot) => s.End() == address, 0)
  }

  function EmptyFrom(slots: seq<Slot>, i: nat): (n: nat)
    requires i <= |slots|
    ensures i <= n <= |slots| && (n < |slots| ==> !slots[n].Used())
    ensures forall j :: i <= j < n ==> slots[j].Used()
  {
    FirstFrom(slots, (s: Slot) => !s.Used(), i)
  }

  /** The first of the smallest free slots of at least this size, or |slots|. */
  function BestSlot(slots: seq<Slot>, size: nat): (f: nat)
    ensures f <= |slots| && (f < |slots| ==> Fits(slots[f], size))
    ensures f == |slots| ==> forall j :: 0 <= j < |slots| ==> !Fits(slots[j], size)
    ensures f < |slots| ==> forall j :: 0 <= j < f && Fits(slots[j], size) ==>
        slots[f].internalSize < slots[j].internalSize
    ensures f < |slots| ==> forall j :: f <= j < |slots| && Fits(slots[j], size) ==>
        slots[f].internalSize <= slots[j].internalSize
  {
    if slots == [] then 0
    else
      var n := |slots| - 1;
      var f, last := BestSlot(slots[..n], size), slots[n];
      if !Fits(last, size) then if f == n then n + 1 else f
      else if f == n || last.internalSize < slots[f].internalSize then n
      else f
  }

  /** The first slot found by a loop is the one these functions name. */
  lemma LookupsFind(slots: seq<Slot>, up: nat, from: nat, p: nat, n: nat)
    requires p <= |slots| && (p < |slots| ==> slots[p].End() == up) && forall j :: 0 <= j < p ==> slots[j].End() != up
    requires n <= |slots| && (n < |slots| ==> slots[n].internalAddress == from)
    requires forall j :: 0 <= j < n ==> slots[j].internalAddress != from
    ensures p == SlotUpTo(slots, up) && n == SlotFrom(slots, from)
  {
  }

  lemma UserLookupFinds(slots: seq<Slot>, address: nat, i: nat)
    requires i <= |slots| && (i < |slots| ==> slots[i].userAddress == address)
    requires forall j :: 0 <= j < i ==> slots[j].userAddress != address
    ensures i == UserSlot(slots, address)
  {
  }

  // ---------- One allocation ----------

  /** The size memalign records and serves: rounded up to the alignment unless buffers start on a page. */
  function Rounded(userSize: nat, alignment: nat, cf: Config): (n: nat)
    ensures n >= userSize
  {
    if !cf.protectBelow && alignment > 1 then RoundUp(userSize, alignment) else userSize
  }

  /**
   * How many bytes a caller gets who asked for size: with the guard page above, the multiple of the alignment that is
   * reached from size in less than one step; otherwise exactly size.
   */
  predicate Serves(bytes: nat, size: nat, alignment: nat, cf: Config) {
    if !cf.protectBelow && alignment > 1 then size <= bytes < size + alignment && Multiple(bytes, alignment)
    else bytes == size
  }

  lemma RoundedServes(size: nat, alignment: nat, cf: Config)
    ensures Serves(Rounded(size, alignment, cf), size, alignment, cf)
  {
    if alignment > 0 { RoundUpIsMultiple(size, alignment); }
  }

  lemma ServedOnce(a: nat, b: nat, size: nat, alignment: nat, cf: Config)
    requires Serves(a, size, alignment, cf) && Serves(b, size, alignment, cf)
    ensures a == b
  {
    if !cf.protectBelow && alignment > 1 {
      SumMultiple(a, b, alignment);
      Quotient(a - b, alignment);
      StepsAway((a - b) / alignment, alignment);
    }
  }

  /** With the guard page above: the first address behind the size asked for that the alignment allows is closed. */
  ghost predicate Stopped(address: nat, size: nat, alignment: nat, denied: set<int>, cf: Config) {
    !cf.protectBelow ==> forall d: nat :: Serves(d, size, alignment, cf) ==> address + d in denied
  }

  /** The interval of a buffer has the guard page and as many pages as its bytes need. */
  predicate NoPageTooMany(s: Slot, cf: Config)
    requires cf.page > 0
  {
    Multiple(s.internalSize, cf.page) && s.userSize + cf.page <= s.internalSize < s.userSize + 2 * cf.page
  }

  lemma LiveIsStopped(slots: seq<Slot>, created: seq<Region>, denied: set<int>, freed: set<int>, cf: Config, s: Slot,
                      size: nat, alignment: nat)
    requires cf.page > 0 && Mem(slots, created, denied, freed, cf) && s in Buffers(slots)
    requires Serves(s.userSize, size, alignment, cf)
    ensures Stopped(s.userAddress, size, alignment, denied, cf)
  {
    hide Mem, Serves, Multiple;
    if !cf.protectBelow {
      LiveBuffersAreSafe(slots, created, denied, freed, cf, s);
      forall d: nat | Serves(d, size, alignment, cf) ensures s.userAddress + d in denied {
        ServedOnce(d, s.userSize, size, alignment, cf);
      }
    }
  }

  function ChunkSize(internalSize: nat, cf: Config): (n: nat)
    requires cf.page > 0
    ensures n >= internalSize
  {
    RoundUp(if CREATION < internalSize then internalSize else CREATION, cf.page)
  }

  /** A chunk is large enough for the buffer, has at least the size chunks are made with, and no page too many. */
  lemma ChunkSizeIs(internalSize: nat, cf: Config)
    requires cf.page > 0
    ensures var n := ChunkSize(internalSize, cf);
            && Multiple(n, cf.page) && n >= internalSize && n >= 10 * 1024 * 1024
            && (n < internalSize + cf.page || n < 10 * 1024 * 1024 + cf.page)
  {
    RoundUpIsMultiple(if CREATION < internalSize then internalSize else CREATION, cf.page);
  }

  /** Free memory for a buffer is at hand: in slot f, with slot e empty. */
  datatype Supply = Supply(slots: seq<Slot>, created: seq<Region>, f: nat, e: nat)

  /** The best free slot, or a new chunk from the system in the first empty slot. */
  function Supplied(slots: seq<Slot>, created: seq<Region>, internalSize: nat, cf: Config): Supply
    requires cf.page > 0
  {
    var full, e0 := BestSlot(slots, internalSize), EmptyFrom(slots, 0);
    if full < |slots| || e0 == |slots| then Supply(slots, created, full, e0)
    else
      var chunk := Region(cf.mmap(created, ChunkSize(internalSize, cf)), ChunkSize(internalSize, cf));
      Supply(slots[e0 := Slot(0, chunk.address, 0, chunk.size, Free)], created + [chunk], e0, EmptyFrom(slots, e0 + 1))
  }

  /** What the scan of memalign finds, after memory was asked for if need be, is this supply. */
  lemma ScanSupplies(slots: seq<Slot>, created: seq<Region>, size: nat, cf: Config, full: int, e0: int, e1: int)
    requires cf.page > 0 && full < |slots|
    requires full >= 0 ==> Fits(slots[full], size)
    requires full >= 0 ==> forall j :: 0 <= j < |slots| && Fits(slots[j], size) ==>
        slots[full].internalSize <= slots[j].internalSize
    requires full >= 0 ==> forall j :: 0 <= j < full && Fits(slots[j], size) ==>
        slots[full].internalSize < slots[j].internalSize
    requires full < 0 ==> forall j :: 0 <= j < |slots| ==> !Fits(slots[j], size)
    requires FirstUnused(slots, e0) && (e1 >= 0 ==> SecondUnused(slots, e0, e1)) && (full < 0 ==> e1 >= 0)
    ensures var chunk := Region(cf.mmap(created, ChunkSize(size, cf)), ChunkSize(size, cf));
            Supplied(slots, created, size, cf) ==
            if full >= 0 then Supply(slots, created, full, e0)
            else Supply(slots[e0 := Slot(0, chunk.address, 0, chunk.size, Free)], created + [chunk], e0, e1)
  {
    hide ChunkSize;
    var f, a := BestSlot(slots, size), EmptyFrom(slots, 0);
    assert f == if full >= 0 then full else |slots|;
    if e1 >= 0 { var b := EmptyFrom(slots, e0 + 1); }
  }

  datatype Allocation = Allocation(slots: seq<Slot>, created: seq<Region>, f: nat)

  function Taken(slots: seq<Slot>, created: seq<Region>, userSize: nat, internalSize: nat, m: Mode,
                 cf: Config): Allocation
    requires cf.page > 0 && userSize + cf.page <= internalSize
  {
    var at := Supplied(slots, created, internalSize, cf);
    if at.f < |at.slots| && at.e < |at.slots| && internalSize <= at.slots[at.f].internalSize then
      var s := NewBuffer(at.slots[at.f].internalAddress, userSize, internalSize, m, cf);
      Allocation(Carved(at.slots, at.f, at.e, s), at.created, at.f)
    else Allocation(at.slots, at.created, at.f)
  }

  lemma TakenFrom(slots: seq<Slot>, created: seq<Region>, userSize: nat, internalSize: nat, m: Mode, cf: Config,
                  at: Supply)
    requires cf.page > 0 && userSize + cf.page <= internalSize && at == Supplied(slots, created, internalSize, cf)
    requires at.f < |at.slots| && at.e < |at.slots| && internalSize <= at.slots[at.f].internalSize
    ensures var s := NewBuffer(at.slots[at.f].internalAddress, userSize, internalSize, m, cf);
            Taken(slots, created, userSize, internalSize, m, cf) ==
              Allocation(Carved(at.slots, at.f, at.e, s), at.created, at.f)
  {
    hide Supplied, Carved;
  }

  // ---------- One release ----------

  /** The released slot i joined to the slots below and above it that were released alike, and which slot it became. */
  function JoinedUp(slots: seq<Slot>, i: nat): (r: (seq<Slot>, nat))
    requires i < |slots|
    ensures |r.0| == |slots| && r.1 < |slots|
  {
    var p, n := SlotUpTo(slots, slots[i].internalAddress), SlotFrom(slots, slots[i].End());
    var below := p < |slots| && slots[p].mode == slots[i].mode;
    var c := if below then p else i;
    var s := if below then Joined(slots, p, i) else slots;
    (if n < |s| && s[n].mode == s[c].mode then Joined(s, c, n) else s, c)
  }

  function Settled(slots: seq<Slot>, i: nat): seq<Slot>
    requires i < |slots|
  {
    var (s, c) := JoinedUp(slots, i);
    s[c := s[c].(userAddress := s[c].internalAddress, userSize := s[c].internalSize)]
  }

  function Freed(slots: seq<Slot>, i: nat, cf: Config): seq<Slot>
    requires i < |slots|
  {
    Settled(slots[i := slots[i].(mode := if cf.protectFree then Protected else Free)], i)
  }

  // ---------- The calls ----------

  function Needed(userSize: nat, cf: Config): (n: nat)
    requires cf.page > 0
    ensures n >= Rounded(userSize, cf.alignment, cf) + cf.page
  {
    RoundUp(Rounded(userSize, cf.alignment, cf) + cf.page, cf.page)
  }

  function Allocate(st: State, userSize: nat, m: Mode, cf: Config): Allocation
    requires cf.page > 0
  {
    Taken(st.slots, st.created, Rounded(userSize, cf.alignment, cf), Needed(userSize, cf), m, cf)
  }

  /** The table moves to a larger buffer, and its old one is freed. */
  function Grown(st: State, cf: Config): State
    requires cf.page > 0
  {
    var a := Allocate(st, st.listSize + cf.page, InternalUse, cf);
    var slots := a.slots + seq(cf.page / SLOT_SIZE, _ => EMPTY);
    var t := UserSlot(slots, st.listAddress);
    State(if t < |slots| then Freed(slots, t, cf) else slots, a.created,
          if a.f < |a.slots| then a.slots[a.f].userAddress else 0, st.listSize + cf.page)
  }

  lemma GrownIs(st: State, cf: Config, a: Allocation, slots: seq<Slot>)
    requires cf.page > 0
    requires var size := Rounded(st.listSize + cf.page, cf.alignment, cf);
             a == Taken(st.slots, st.created, size, RoundUp(size + cf.page, cf.page), InternalUse, cf)
               && a.f < |a.slots|
    requires var more := a.slots + seq(cf.page / SLOT_SIZE, _ => EMPTY);
             var t := UserSlot(more, st.listAddress);
             t < |more| && slots == Freed(more, t, cf)
    ensures Grown(st, cf) == State(slots, a.created, a.slots[a.f].userAddress, st.listSize + cf.page)
  {
    hide Taken, Freed, UserSlot, RoundUp;
  }

  /** The state in which memalign looks for free memory. */
  function Scanned(st: State, cf: Config): State
    requires cf.page > 0
  {
    if Unused(st.slots) < 7 then Grown(st, cf) else st
  }

  /** The slot that the next buffer of this size gets. */
  function NextSlot(st: State, userSize: nat, cf: Config): Slot
    requires cf.page > 0
  {
    var a := Allocate(Scanned(st, cf), userSize, Allocated, cf);
    if a.f < |a.slots| then a.slots[a.f] else EMPTY
  }

  function AfterMalloc(st: State, userSize: nat, cf: Config): State
    requires cf.page > 0
  {
    var scanned := Scanned(st, cf);
    var a := Allocate(scanned, userSize, Allocated, cf);
    scanned.(slots := a.slots, created := a.created)
  }

  function AfterFree(st: State, address: nat, cf: Config): State {
    var t := UserSlot(st.slots, address);
    if address != 0 && t < |st.slots| then st.(slots := Freed(st.slots, t, cf)) else st
  }

  datatype Call = CallMalloc(size: nat) | CallFree(address: nat) | CallRealloc(address: nat, size: nat)

  predicate ZeroRefused(size: nat, cf: Config) { size == 0 && !cf.allowMalloc0 }

  /** The first slot with this address may be freed. */
  predicate Accepted(slots: seq<Slot>, address: nat, internalUse: bool) {
    UserSlot(slots, address) < |slots| && Freeable(slots[UserSlot(slots, address)], internalUse)
  }

  /** Exactly the addresses of live buffers are accepted that no earlier slot hides. */
  lemma AcceptedIff(slots: seq<Slot>, created: seq<Region>, denied: set<int>, freed: set<int>, cf: Config, address: nat)
    requires cf.page > 0 && Mem(slots, created, denied, freed, cf) && address != 0
    ensures Accepted(slots, address, false) <==> Owned(slots, address, false) && !Shadowed(slots, address)
  {
    hide Mem, Owned, Shadowed;
    LookupSucceedsIff(slots, created, denied, freed, cf, address, UserSlot(slots, address));
  }

  /**
   * The calls that abort the program: zero bytes where they are not allowed, and an address that is not that of a live
   * buffer, or is hidden by an earlier slot. A reallocation looks the address up after the new buffer was made, so that
   * buffer's address passes.
   */
  ghost predicate Refuses(st: State, call: Call, cf: Config)
    requires cf.page > 0
  {
    match call
    case CallMalloc(size) => ZeroRefused(size, cf)
    case CallFree(address) => address != 0 && (!Owned(st.slots, address, false) || Shadowed(st.slots, address))
    case CallRealloc(address, size) =>
      ZeroRefused(size, cf) ||
      (address != 0 &&
        ((!Owned(st.slots, address, false) && NextSlot(st, size, cf).userAddress != address) ||
         Shadowed(AfterMalloc(st, size, cf).slots, address)))
  }

  function Next(st: State, call: Call, cf: Config): State
    requires cf.page > 0
  {
    match call
    case CallMalloc(size) => AfterMalloc(st, size, cf)
    case CallFree(address) => AfterFree(st, address, cf)
    case CallRealloc(address, size) => AfterFree(AfterMalloc(st, size, cf), address, cf)
  }

  function Final(st: State, calls: seq<Call>, cf: Config): State
    requires cf.page > 0
  {
    if calls == [] then st else Next(Final(st, calls[..|calls| - 1], cf), calls[|calls| - 1], cf)
  }

  /** How many calls of a run are carried out before one is refused. */
  ghost function Completed(st: State, calls: seq<Call>, cf: Config): (n: nat)
    requires cf.page > 0
    ensures n <= |calls|
  {
    if calls == [] then 0
    else
      var n := |calls| - 1;
      var before := Completed(st, calls[..n], cf);
      if before < n || Refuses(Final(st, calls[..n], cf), calls[n], cf) then before else n + 1
  }

  lemma NothingDone(st: State, calls: seq<Call>, cf: Config)
    requires cf.page > 0
    ensures Final(st, calls[..0], cf) == st && Completed(st, calls[..0], cf) == 0
  {
  }

  lemma OneMore(st: State, calls: seq<Call>, k: nat, cf: Config)
    requires cf.page > 0 && k < |calls|
    ensures Final(st, calls[..k + 1], cf) == Next(Final(st, calls[..k], cf), calls[k], cf)
    ensures Completed(st, calls[..k], cf) == k && !Refuses(Final(st, calls[..k], cf), calls[k], cf) ==>
              Completed(st, calls[..k + 1], cf) == k + 1
  {
    hide Next, Refuses;
    assert calls[..k + 1][..k] == calls[..k];
  }

  /** Nothing behind a refused call is carried out. */
  lemma {:induction false} StopsThere(st: State, calls: seq<Call>, k: nat, n: nat, cf: Config)
    requires cf.page > 0 && k < n <= |calls| && Completed(st, calls[..k], cf) == k
    requires Refuses(Final(st, calls[..k], cf), calls[k], cf)
    ensures Completed(st, calls[..n], cf) == k
    decreases n
  {
    hide Final, Next, Refuses;
    assert calls[..n][..n - 1] == calls[..n - 1];
    if n == k + 1 {
    } else {
      StopsThere(st, calls, k, n - 1, cf);
    }
  }

  // ---------- A freed address that is reallocated ----------

  /** The state that initialize sets up. */
  function Fresh(cf: Config): State
    requires 2 * SLOT_SIZE <= cf.page < CREATION
  {
    var size := RoundUp(CREATION, cf.page);
    var a := cf.mmap([], size);
    State(InitialSlots(a, size, cf.page), [Region(a, size)], a, cf.page)
  }

  lemma FreshTable(cf: Config)
    requires GoodConfig(cf) && 9 * SLOT_SIZE <= cf.page
    ensures var st := Fresh(cf);
            && |st.slots| >= 9 && Unused(st.slots) >= 7 && st.listAddress > 0
            && st.slots[0] == Slot(st.listAddress, st.listAddress, cf.page, cf.page, InternalUse)
            && st.slots[1].mode == Free && st.slots[1].internalAddress == st.listAddress + cf.page
            && st.slots[1].userAddress == st.slots[1].internalAddress
            && st.slots[1].userSize == st.slots[1].internalSize >= CREATION - cf.page
            && forall i :: 2 <= i < |st.slots| ==> st.slots[i] == EMPTY
  {
    hide RoundUp, Mem, TidyIf;
    RoundUpIsMultiple(CREATION, cf.page);
    InitialMem(cf, RoundUp(CREATION, cf.page));
  }

  /** A table whose only free slot is slot 1, slot 2 being the first empty one. */
  ghost predicate OneFree(slots: seq<Slot>, size: nat) {
    && |slots| > 2 && slots[0].mode == InternalUse && Fits(slots[1], size)
    && forall i :: 2 <= i < |slots| ==> slots[i] == EMPTY
  }

  lemma OnlySupply(slots: seq<Slot>, created: seq<Region>, size: nat, cf: Config)
    requires cf.page > 0 && OneFree(slots, size)
    ensures Supplied(slots, created, size, cf) == Supply(slots, created, 1, 2)
  {
    var f, e := BestSlot(slots, size), EmptyFrom(slots, 0);
    assert Fits(slots[1], size) && !slots[2].Used();
  }

  /** A buffer cut from the free memory of a fresh arena: slot 1 becomes the buffer, slot 2 the rest. */
  lemma FirstBuffer(cf: Config, size: nat)
    requires GoodConfig(cf) && 9 * SLOT_SIZE <= cf.page && Needed(size, cf) + cf.page < CREATION
    ensures var st := Fresh(cf);
            |st.slots| > 2 && Needed(size, cf) < st.slots[1].internalSize &&
            var s := NewBuffer(st.listAddress + cf.page, Rounded(size, cf.alignment, cf), Needed(size, cf), Allocated,
                cf);
            var rest := Slot(0, s.End(), 0, st.slots[1].internalSize - Needed(size, cf), Free);
            && NextSlot(st, size, cf) == s
            && AfterMalloc(st, size, cf) == st.(slots := st.slots[1 := s][2 := rest])
  {
    hide Fresh, GoodSystem, Needed, Rounded, Supplied, Taken, Grown;
    var st := Fresh(cf);
    FreshTable(cf);
    OnlySupply(st.slots, st.created, Needed(size, cf), cf);
    TakenFrom(st.slots, st.created, Rounded(size, cf.alignment, cf), Needed(size, cf), Allocated, cf,
              Supply(st.slots, st.created, 1, 2));
  }

  /** Freeing it gives the fresh arena back: the rest is joined to it again. */
  lemma FirstBufferFreed(cf: Config, size: nat)
    requires GoodConfig(cf) && 9 * SLOT_SIZE <= cf.page && Needed(size, cf) + cf.page < CREATION && !cf.protectFree
    ensures AfterFree(AfterMalloc(Fresh(cf), size, cf), NextSlot(Fresh(cf), size, cf).userAddress, cf) == Fresh(cf)
  {
    hide Fresh, GoodSystem, Needed, Rounded, Supplied, Taken, Grown, AfterMalloc, NextSlot, Settled;
    var st := Fresh(cf);
    FreshTable(cf);
    FirstBuffer(cf, size);
    var s := NextSlot(st, size, cf);
    var rest := Slot(0, s.End(), 0, st.slots[1].internalSize - Needed(size, cf), Free);
    var slots := st.slots[1 := s][2 := rest];
    UserLookupFinds(slots, s.userAddress, 1);
    JoinedAgain(st.slots, s, rest);
  }

  /** No earlier slot hides it. */
  lemma FirstBufferIsSeen(cf: Config, size: nat)
    requires GoodConfig(cf) && 9 * SLOT_SIZE <= cf.page && Needed(size, cf) + cf.page < CREATION
    ensures var a := NextSlot(Fresh(cf), size, cf).userAddress;
            a != 0 && !Shadowed(AfterMalloc(Fresh(cf), size, cf).slots, a)
  {
    hide Fresh, GoodSystem, Needed, Rounded, Supplied, Taken, Grown, AfterMalloc, NextSlot;
    FreshTable(cf);
    FirstBuffer(cf, size);
  }

  lemma JoinedAgain(slots: seq<Slot>, s: Slot, rest: Slot)
    requires |slots| > 2 && slots[0].mode == InternalUse && slots[0].End() == s.internalAddress && slots[2] == EMPTY
    requires slots[0].internalAddress < s.internalAddress && s.internalSize > 0
        && rest == Slot(0, s.End(), 0, rest.internalSize, Free)
    requires slots[1] == Slot(s.internalAddress, s.internalAddress, s.internalSize + rest.internalSize,
                              s.internalSize + rest.internalSize, Free)
    ensures Settled(slots[1 := s][2 := rest][1 := s.(mode := Free)], 1) == slots
  {
    hide SlotUpTo, SlotFrom;
    var released := slots[1 := s][2 := rest][1 := s.(mode := Free)];
    LookupsFind(released, s.internalAddress, s.End(), 0, 2);
    var (t, c) := JoinedUp(released, 1);
    assert c == 1 && t == Joined(released, 1, 2);
  }

  /**
   * malloc, free and realloc of the freed address on a fresh arena: the reallocation is not refused, and returns an
   * address that is not that of a live buffer.
   */
  lemma FreedAddressIsReallocated(cf: Config, size: nat)
    requires GoodConfig(cf) && 9 * SLOT_SIZE <= cf.page && Needed(size, cf) + cf.page < CREATION && !cf.protectFree
    requires !ZeroRefused(size, cf)
    ensures var st := Fresh(cf);
            var a := NextSlot(st, size, cf).userAddress;
            var calls := [CallMalloc(size), CallFree(a), CallRealloc(a, size)];
            && a != 0 && Completed(st, calls, cf) == 3 && !Owned(Final(st, calls[..2], cf).slots, a, false)
            && !Owned(Final(st, calls, cf).slots, a, false)
  {
    hide Fresh, GoodSystem, Needed, Rounded, Supplied, Taken, Grown, AfterMalloc, NextSlot, AfterFree;
    var st := Fresh(cf);
    var s := NextSlot(st, size, cf);
    var a := s.userAddress;
    FreshTable(cf);
    FirstBuffer(cf, size);
    FirstBufferFreed(cf, size);
    var one := AfterMalloc(st, size, cf);
    assert Freeable(one.slots[1], false) && one.slots[1] == s;
    assert Owned(one.slots, a, false) && !Owned(st.slots, a, false);
    ThreeCalls(st, CallMalloc(size), CallFree(a), CallRealloc(a, size), cf);
  }

  lemma ThreeCalls(st: State, c0: Call, c1: Call, c2: Call, cf: Config)
    requires cf.page > 0
    ensures var one := Next(st, c0, cf);
            var two := Next(one, c1, cf);
            && Final(st, [c0, c1, c2][..2], cf) == two && Final(st, [c0, c1, c2], cf) == Next(two, c2, cf)
            && (!Refuses(st, c0, cf) && !Refuses(one, c1, cf) && !Refuses(two, c2, cf) ==>
              Completed(st, [c0, c1, c2], cf) == 3)
  {
    hide Next, Refuses;
    var calls := [c0, c1, c2];
    NothingDone(st, calls, cf);
    OneMore(st, calls, 0, cf);
    OneMore(st, calls, 1, cf);
    OneMore(st, calls, 2, cf);
    assert calls[..3] == calls;
  }

  // ---------- A live buffer that cannot be freed ----------

  lemma MallocStep(st: State, cf: Config, size: nat, f: nat, e: nat)
    requires cf.page > 0 && Unused(st.slots) >= 7 && f < |st.slots| && e < |st.slots|
    requires Fits(st.slots[f], Needed(size, cf)) && !st.slots[e].Used() && forall j :: 0 <= j < e ==> st.slots[j].Used()
    requires forall j :: 0 <= j < |st.slots| && Fits(st.slots[j], Needed(size, cf)) ==>
               j == f || st.slots[f].internalSize < st.slots[j].internalSize
    ensures var s := NewBuffer(st.slots[f].internalAddress, Rounded(size, cf.alignment, cf), Needed(size, cf),
        Allocated, cf);
            NextSlot(st, size, cf) == s && AfterMalloc(st, size, cf) == st.(slots := Carved(st.slots, f, e, s))
  {
    hide Needed, Rounded, Supplied, Taken, Grown;
    ScanSupplies(st.slots, st.created, Needed(size, cf), cf, f, e, -1);
    TakenFrom(st.slots, st.created, Rounded(size, cf.alignment, cf), Needed(size, cf), Allocated, cf,
              Supply(st.slots, st.created, f, e));
  }

  /** A slot is freed whose lower neighbour was not released; the upper one, slot n, may have been. */
  lemma FreeStep(st: State, cf: Config, i: nat, p: nat, n: nat)
    requires i < |st.slots| && p < |st.slots| && n < |st.slots| && n != i && !cf.protectFree
    requires st.slots[i].userAddress != 0 && forall j :: 0 <= j < i ==>
        st.slots[j].userAddress != st.slots[i].userAddress
    requires st.slots[i].internalSize > 0 && p != i
    requires st.slots[p].End() == st.slots[i].internalAddress && st.slots[p].mode != Free
    requires forall j :: 0 <= j < p ==> st.slots[j].End() != st.slots[i].internalAddress
    requires st.slots[n].internalAddress == st.slots[i].End()
    requires forall j :: 0 <= j < n ==> st.slots[j].internalAddress != st.slots[i].End()
    ensures var s := st.slots[i];
            var size := s.internalSize + if st.slots[n].mode == Free then st.slots[n].internalSize else 0;
            var whole := Slot(s.internalAddress, s.internalAddress, size, size, Free);
            AfterFree(st, s.userAddress, cf) ==
            st.(slots := if st.slots[n].mode == Free then st.slots[i := whole][n := EMPTY] else st.slots[i := whole])
  {
    hide SlotUpTo, SlotFrom, UserSlot;
    UserLookupFinds(st.slots, st.slots[i].userAddress, i);
    var released := st.slots[i := st.slots[i].(mode := Free)];
    LookupsFind(released, st.slots[i].internalAddress, st.slots[i].End(), p, n);
  }

  /** Five slots and empty ones behind them. */
  function Table(t: Slot, a: Slot, b: Slot, c: Slot, d: Slot, n: nat): (slots: seq<Slot>)
    ensures |slots| == 5 + n && slots[0] == t && slots[1] == a && slots[2] == b && slots[3] == c && slots[4] == d
    ensures forall i :: 5 <= i < 5 + n ==> slots[i] == EMPTY
  {
    [t, a, b, c, d] + seq(n, _ => EMPTY)
  }

  lemma TableHasRoom(t: Slot, a: Slot, b: Slot, c: Slot, d: Slot, n: nat)
    ensures Unused(Table(t, a, b, c, d, n)) >= n
  {
    CountsConcat([t, a, b, c, d], seq(n, _ => EMPTY));
    CountsEmpty(seq(n, _ => EMPTY));
  }

  const PAGE := 4096

  lemma PageSizes(cf: Config)
    requires cf.page == PAGE && cf.protectBelow
    ensures Needed(0, cf) == PAGE && Needed(PAGE, cf) == 2 * PAGE
    ensures Rounded(0, cf.alignment, cf) == 0 && Rounded(PAGE, cf.alignment, cf) == PAGE
  {
  }

  /** A live slot of the allocator whose guard page lies below. */
  function Buffer(at: nat, size: nat): Slot { Slot(at + PAGE, at, size, size + PAGE, Allocated) }

  function Open(user: nat, at: nat, size: nat): Slot { Slot(user, at, if user == 0 then 0 else size, size, Free) }

  lemma FreshAsTable(cf: Config) returns (t: Slot, b: nat, size: nat, n: nat)
    requires GoodConfig(cf) && cf.page == PAGE
    ensures Fresh(cf).slots == Table(t, Open(b, b, size), EMPTY, EMPTY, EMPTY, n)
    ensures t == Slot(b - PAGE, b - PAGE, PAGE, PAGE, InternalUse) && b > PAGE && size >= CREATION - PAGE && n >= 7
    ensures Fresh(cf).slots[1].internalAddress == b
  {
    hide Fresh, GoodSystem;
    FreshTable(cf);
    FreshLength(cf);
    var slots := Fresh(cf).slots;
    t, b, size, n := slots[0], slots[1].internalAddress, slots[1].internalSize, |slots| - 5;
    assert slots == Table(t, Open(b, b, size), EMPTY, EMPTY, EMPTY, n);
  }

  lemma FreshLength(cf: Config)
    requires GoodConfig(cf) && cf.page == PAGE
    ensures |Fresh(cf).slots| >= 12
  {
  }

  /** Three of the calls that lead there, one after another; the memory behind the table starts at b. */
  lemma FirstTwo(cf: Config, st: State, t: Slot, b: nat, size: nat, n: nat)
    requires cf.page == PAGE && cf.protectBelow && b > PAGE && size >= CREATION - PAGE && n >= 7
    requires t == Slot(b - PAGE, b - PAGE, PAGE, PAGE, InternalUse)
    requires st.slots == Table(t, Open(b, b, size), EMPTY, EMPTY, EMPTY, n)
    ensures var s1 := AfterMalloc(st, PAGE, cf);
            && AfterMalloc(s1, 0, cf) == st.(slots := Table(t, Buffer(b, PAGE), Buffer(b + 2 * PAGE, 0),
                                                            Open(0, b + 3 * PAGE, size - 3 * PAGE), EMPTY, n))
            && NextSlot(st, PAGE, cf).userAddress == b + PAGE && NextSlot(s1, 0, cf).userAddress == b + 3 * PAGE
  {
    hide Needed, Rounded, AfterMalloc, NextSlot, Table;
    PageSizes(cf);
    TableHasRoom(t, Open(b, b, size), EMPTY, EMPTY, EMPTY, n);
    MallocStep(st, cf, PAGE, 1, 2);
    var s1 := AfterMalloc(st, PAGE, cf);
    var a, rest := Buffer(b, PAGE), Open(0, b + 2 * PAGE, size - 2 * PAGE);
    assert s1.slots == Table(t, a, rest, EMPTY, EMPTY, n);
    TableHasRoom(t, a, rest, EMPTY, EMPTY, n);
    MallocStep(s1, cf, 0, 2, 3);
    assert AfterMalloc(s1, 0, cf).slots == Table(t, a, Buffer(b + 2 * PAGE, 0),
                                                 Open(0, b + 3 * PAGE, size - 3 * PAGE), EMPTY, n);
  }

  lemma ThirdFrees(cf: Config, st: State, t: Slot, b: nat, x: Slot, rest: Slot, n: nat)
    requires !cf.protectFree && b > PAGE && t == Slot(b - PAGE, b - PAGE, PAGE, PAGE, InternalUse)
    requires x == Buffer(b + 2 * PAGE, 0) && rest.internalAddress > b + 2 * PAGE
    requires st.slots == Table(t, Buffer(b, PAGE), x, rest, EMPTY, n)
    requires rest.userAddress == 0
    ensures AfterFree(st, b + PAGE, cf) == st.(slots := Table(t, Open(b, b, 2 * PAGE), x, rest, EMPTY, n))
    ensures Owned(st.slots, b + PAGE, false) && !Shadowed(st.slots, b + PAGE)
  {
    hide AfterFree, Table;
    assert Freeable(st.slots[1], false);
    FreeStep(st, cf, 1, 0, 2);
    assert AfterFree(st, b + PAGE, cf).slots == Table(t, Open(b, b, 2 * PAGE), x, rest, EMPTY, n);
  }

  lemma FirstThree(cf: Config, st: State, t: Slot, b: nat, size: nat, n: nat)
    requires cf.page == PAGE && cf.protectBelow && !cf.protectFree && b > PAGE && size >= CREATION - PAGE && n >= 7
    requires t == Slot(b - PAGE, b - PAGE, PAGE, PAGE, InternalUse)
    requires st.slots == Table(t, Open(b, b, size), EMPTY, EMPTY, EMPTY, n)
    ensures var s1 := AfterMalloc(st, PAGE, cf);
            var s2 := AfterMalloc(s1, 0, cf);
            var s3 := AfterFree(s2, b + PAGE, cf);
            s3 == st.(slots := Table(t, Open(b, b, 2 * PAGE), Buffer(b + 2 * PAGE, 0),
                                     Open(0, b + 3 * PAGE, size - 3 * PAGE), EMPTY, n))
            && Owned(s2.slots, b + PAGE, false) && !Shadowed(s2.slots, b + PAGE)
            && NextSlot(st, PAGE, cf).userAddress == b + PAGE && NextSlot(s1, 0, cf).userAddress == b + 3 * PAGE
  {
    hide AfterMalloc, AfterFree, NextSlot, Table, Owned, Shadowed;
    FirstTwo(cf, st, t, b, size, n);
    ThirdFrees(cf, AfterMalloc(AfterMalloc(st, PAGE, cf), 0, cf), t, b, Buffer(b + 2 * PAGE, 0),
               Open(0, b + 3 * PAGE, size - 3 * PAGE), n);
  }

  lemma LastThree(cf: Config, st: State, t: Slot, b: nat, size: nat, n: nat)
    requires cf.page == PAGE && cf.protectBelow && !cf.protectFree && b > PAGE && size >= CREATION - PAGE && n >= 7
    requires t == Slot(b - PAGE, b - PAGE, PAGE, PAGE, InternalUse)
    requires st.slots == Table(t, Open(b, b, 2 * PAGE), Buffer(b + 2 * PAGE, 0),
                               Open(0, b + 3 * PAGE, size - 3 * PAGE), EMPTY, n)
    ensures var s4 := AfterMalloc(st, 0, cf);
            var s5 := AfterMalloc(s4, 0, cf);
            var s6 := AfterFree(s5, b + 3 * PAGE, cf);
            s6.slots == Table(t, Buffer(b, 0), Open(b + 2 * PAGE, b + 2 * PAGE, size - 2 * PAGE), EMPTY,
                              Buffer(b + PAGE, 0), n)
            && Owned(s5.slots, b + 3 * PAGE, false) && !Shadowed(s5.slots, b + 3 * PAGE)
            && NextSlot(st, 0, cf).userAddress == b + PAGE && NextSlot(s4, 0, cf).userAddress == b + 2 * PAGE
  {
    hide Needed, Rounded, AfterMalloc, AfterFree, NextSlot, Table;
    PageSizes(cf);
    var x, rest := Buffer(b + 2 * PAGE, 0), Open(0, b + 3 * PAGE, size - 3 * PAGE);
    TableHasRoom(t, Open(b, b, 2 * PAGE), x, rest, EMPTY, n);
    MallocStep(st, cf, 0, 1, 4);
    var s4 := AfterMalloc(st, 0, cf);
    assert s4.slots == Table(t, Buffer(b, 0), x, rest, Open(0, b + PAGE, PAGE), n);
    TableHasRoom(t, Buffer(b, 0), x, rest, Open(0, b + PAGE, PAGE), n);
    MallocStep(s4, cf, 0, 4, 5);
    var s5 := AfterMalloc(s4, 0, cf);
    assert s5.slots == Table(t, Buffer(b, 0), x, rest, Buffer(b + PAGE, 0), n);
    assert Freeable(s5.slots[2], false);
    FreeStep(s5, cf, 2, 4, 3);
  }

  /** The buffer in slot 4 is live, and slot 2, which is free, has its address. */
  lemma HiddenBuffer(t: Slot, b: nat, size: nat, n: nat)
    requires t.mode == InternalUse && b > PAGE && size > 2 * PAGE
    ensures var slots := Table(t, Buffer(b, 0), Open(b + 2 * PAGE, b + 2 * PAGE, size - 2 * PAGE), EMPTY,
                               Buffer(b + PAGE, 0), n);
            Owned(slots, b + 2 * PAGE, false) && Shadowed(slots, b + 2 * PAGE)
  {
    hide Table;
    var slots := Table(t, Buffer(b, 0), Open(b + 2 * PAGE, b + 2 * PAGE, size - 2 * PAGE), EMPTY,
                       Buffer(b + PAGE, 0), n);
    assert Freeable(slots[4], false) && slots[4].userAddress == b + 2 * PAGE == slots[2].userAddress;
  }

  /** The run: two buffers, of a page and of no bytes, the first freed, two empty ones, the second freed. */
  function HidingRun(b: nat): seq<Call> {
    [CallMalloc(PAGE), CallMalloc(0), CallFree(b + PAGE), CallMalloc(0), CallMalloc(0), CallFree(b + 3 * PAGE),
     CallFree(b + 2 * PAGE)]
  }

  /**
   * With guard pages below and empty buffers allowed, a program that frees a live buffer is stopped: after six calls
   * of this run, which are carried out, the buffer that the fifth returned is live, and its free is refused.
   */
  lemma LiveBufferIsRefused(cf: Config) returns (b: nat)
    requires GoodConfig(cf) && cf.page == PAGE && cf.protectBelow && cf.allowMalloc0 && !cf.protectFree
    ensures |Fresh(cf).slots| > 1 && b == Fresh(cf).slots[1].internalAddress
    ensures Completed(Fresh(cf), HidingRun(b), cf) == 6 < |HidingRun(b)| && HidingRun(b)[6] == CallFree(b + 2 * PAGE)
    ensures NextSlot(Final(Fresh(cf), HidingRun(b)[..4], cf), 0, cf).userAddress == b + 2 * PAGE
    ensures Owned(Final(Fresh(cf), HidingRun(b)[..6], cf).slots, b + 2 * PAGE, false)
  {
    hide GoodSystem, Fresh, AfterMalloc, AfterFree, NextSlot, Table, Owned, Shadowed, Buffer, Open, Final, Completed;
    var st, t, size, n := Fresh(cf), EMPTY, 0, 0;
    t, b, size, n := FreshAsTable(cf);
    FirstThree(cf, st, t, b, size, n);
    var s3 := AfterFree(AfterMalloc(AfterMalloc(st, PAGE, cf), 0, cf), b + PAGE, cf);
    LastThree(cf, s3, t, b, size, n);
    HiddenBuffer(t, b, size, n);
    SevenCalls(st, HidingRun(b), cf);
  }

  lemma SevenCalls(st: State, calls: seq<Call>, cf: Config)
    requires cf.page > 0 && |calls| == 7
    ensures var s1 := Next(st, calls[0], cf); var s2 := Next(s1, calls[1], cf); var s3 := Next(s2, calls[2], cf);
            var s4 := Next(s3, calls[3], cf); var s5 := Next(s4, calls[4], cf); var s6 := Next(s5, calls[5], cf);
            && Final(st, calls[..4], cf) == s4 && Final(st, calls[..6], cf) == s6
            && var six := !Refuses(st, calls[0], cf) && !Refuses(s1, calls[1], cf) && !Refuses(s2, calls[2], cf) &&
                          !Refuses(s3, calls[3], cf) && !Refuses(s4, calls[4], cf) && !Refuses(s5, calls[5], cf);
            (six && Refuses(s6, calls[6], cf) ==> Completed(st, calls, cf) == 6)
  {
    hide Next, Refuses, Final, Completed;
    NothingDone(st, calls, cf);
    OneMore(st, calls, 0, cf);
    OneMore(st, calls, 1, cf);
    OneMore(st, calls, 2, cf);
    OneMore(st, calls, 3, cf);
    OneMore(st, calls, 4, cf);
    OneMore(st, calls, 5, cf);
    assert calls[..7] == calls;
    if Completed(st, calls[..6], cf) == 6 && Refuses(Final(st, calls[..6], cf), calls[6], cf) {
      StopsThere(st, calls, 6, 7, cf);
    }
  }
}
