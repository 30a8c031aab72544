/** The guarded allocator: memalign, UdmFree, UdmRealloc and the self-growing slot table (efence.c:257-871). */
module Efence {
  import opened Slots
  import opened PageMath
  import opened Arena
  import opened Machine
  import opened ProtectFree

  datatype Outcome = Address(address: nat) | Abort

  /**
   * At most one live buffer appears, of the size asked for and at the address that was next, and at most one, at the
   * given address, goes; the address of a free is a live one. With EF_PROTECT_FREE the buffer that goes is locked, and
   * what is locked stays so.
   */
  ghost predicate Effect(call: Call, before: State, after: State, cf: Config)
    requires cf.page > 0
  {
    var b, b' := Buffers(before.slots), Buffers(after.slots);
    && (cf.protectFree ==> Locks(before.slots, after.slots))
    && match call
    case CallMalloc(size) => exists f :: New(f, before, size, cf) && b' == b + {f}
    case CallFree(address) =>
      if address == 0 then b' == b else exists o :: o in b && o.userAddress == address && b' == b - {o}
    case CallRealloc(address, size) =>
      if address == 0 then exists f :: New(f, before, size, cf) && b' == b + {f}
      else if !Owned(before.slots, address, false) then b' == b
      else exists o, f :: o in b && New(f, before, size, cf) && o.userAddress == address && b' == b - {o} + {f}
  }

  /**
   * A buffer that was not live, at the address the state before calls for, of the bytes asked for and no more than the
   * alignment takes, in an interval with no page too many.
   */
  ghost predicate New(f: Slot, before: State, size: nat, cf: Config)
    requires cf.page > 0
  {
    && f !in Buffers(before.slots) && f == NextSlot(before, size, cf)
    && Serves(f.userSize, size, cf.alignment, cf) && NoPageTooMany(f, cf)
  }

  class Allocator {
    const cf: Config
    var slots: seq<Slot>          // allocationList and slotCount
    var unUsedSlots: nat
    var listAddress: nat          // address of allocationList
    var listSize: nat             // allocationListSize
    var internalUse: bool
    var noProtection: bool        // noAllocationListProtection
    var memory: int -> int        // what the bytes hold
    var created: seq<Region>
    ghost var denied: set<int>    // addresses of inaccessible pages
    ghost var freed: set<int>     // addresses passed to UdmFree and not handed out since
    ghost var table: nat          // the slot that holds the slot table

    function SlotsPerPage(): nat
      requires cf.page > 0
    {
      cf.page / SLOT_SIZE
    }

    /** The slot table lies in a live slot of its own, which is large enough. */
    ghost predicate TableIsHeld()
      reads this
    {
      && table < |slots| && slots[table].mode == InternalUse
      && slots[table].userAddress == listAddress && listAddress != 0
      && slots[table].Contains(listAddress) && listAddress + listSize <= slots[table].End()
      && |slots| * SLOT_SIZE <= listSize
      && (table == 0 || !cf.protectBelow || slots[table].internalAddress < listAddress)
    }

    /** Everything but the reserve of unused slots and the modes of internal calls. */
    ghost predicate Core()
      reads this
    {
      && GoodConfig(cf) && Mem(slots, created, denied, freed, cf) && TidyIf(cf, slots)
      && unUsedSlots == Unused(slots) && TotalSize(slots) == TotalObtained(created)
      && TableIsHeld()
    }

    ghost predicate OneTable()
      reads this
    {
      OnlyTable(slots, table)
    }

    /** Between calls: at least five unused slots, no internal call open. */
    ghost predicate Valid()
      reads this
    {
      Core() && OneTable() && unUsedSlots >= 5 && !internalUse && !noProtection
    }

    ghost function LiveBuffers(): set<Slot>
      reads this
    {
      Buffers(slots)
    }

    /** What decides the addresses to come. */
    ghost function Now(): State
      reads this
    {
      State(slots, created, listAddress, listSize)
    }

    ghost function TablePages(): set<int>
      reads this
    {
      Range(listAddress, listSize)
    }

    // ---------- Pages ----------

    method PageAllowAccess(address: nat, size: nat)
      modifies `denied
      ensures denied == old(denied) - Range(address, size)
    {
      denied := denied - Range(address, size);
    }

    /** Page_DenyAccess, and Page_Delete, after which the pages are not accessible either. */
    method PageDenyAccess(address: nat, size: nat)
      modifies `denied
      ensures denied == old(denied) + Range(address, size)
    {
      denied := denied + Range(address, size);
    }

    method PageCreate(size: nat) returns (address: nat)
      requires GoodConfig(cf) && size > 0
      modifies `created
      ensures created == old(created) + [Region(address, size)] && address == cf.mmap(old(created), size)
    {
      address := cf.mmap(created, size);
      created := created + [Region(address, size)];
    }

    method OpenTable()
      requires Core()
      modifies `denied
      ensures Core()
    {
      hide GoodSystem, Mem, TidyIf;
      Arena.TablePages(slots, created, denied, freed, cf, table, TablePages());
      PageAllowAccess(listAddress, listSize);
    }

    method CloseTable()
      requires Core()
      modifies `denied
      ensures Core() && TablePages() <= denied
    {
      hide GoodSystem, Mem, TidyIf;
      Arena.TablePages(slots, created, denied, freed, cf, table, TablePages());
      PageDenyAccess(listAddress, listSize);
    }

    // ---------- initialize ----------

    constructor (cf: Config)
      requires GoodConfig(cf)
      ensures this.cf == cf && Valid() && LiveBuffers() == {} && Now() == Fresh(cf)
    {
      this.cf := cf;
      var size := RoundUp(CREATION, cf.page);
      var region := Region(cf.mmap([], size), size);
      var a := region.address;
      RoundUpIsMultiple(CREATION, cf.page);
      InitialMem(cf, size);
      this.slots := InitialSlots(a, size, cf.page);
      this.created := [region];
      this.unUsedSlots := cf.page / SLOT_SIZE - 2;
      this.listAddress, this.listSize, this.table := a, cf.page, 0;
      this.internalUse, this.noProtection := false, false;
      this.memory := _ => 0;
      this.denied, this.freed := Range(a + cf.page, size - cf.page), {};
    }

    // ---------- memalign ----------

    /** No free slot was large enough: a chunk from the system takes the empty slot e. */
    method MoreMemory(e: nat, internalSize: nat)
      requires Core() && e < |slots| && slots[e] == EMPTY && internalSize > 0
      modifies `slots, `created, `unUsedSlots
      ensures var chunk := Region(cf.mmap(old(created), ChunkSize(internalSize, cf)), ChunkSize(internalSize, cf));
              slots == old(slots)[e := Slot(0, chunk.address, 0, chunk.size, Free)] && created == old(created) + [chunk]
      ensures |slots| == old(|slots|) && slots == old(slots)[e := slots[e]] && TableIsHeld()
      ensures slots[e].mode == Free && slots[e].internalSize >= internalSize
      ensures Mem(slots, created, denied, freed, cf) && (Increasing(cf) ==> CoalescedAbove(slots, e))
      ensures unUsedSlots == old(unUsedSlots) - 1 == Unused(slots) && TotalSize(slots) == TotalObtained(created)
    {
      hide GoodSystem, Mem, TidyIf, Increasing, CoalescedAbove;
      var chunkSize := RoundUp(if CREATION < internalSize then internalSize else CREATION, cf.page);
      RoundUpIsMultiple(if CREATION < internalSize then internalSize else CREATION, cf.page);
      AddChunk(slots, created, denied, freed, cf, e, chunkSize);
      var address := PageCreate(chunkSize);
      var s := Slot(0, address, 0, chunkSize, Free);
      UnusedUpdate(slots, e, s);
      TotalUpdate(slots, e, s);
      slots := slots[e := slots[e].(internalAddress := address, internalSize := chunkSize, mode := Free)];
      unUsedSlots := unUsedSlots - 1;
    }

    /** The size and the interval of a buffer that memalign is about to make. */
    ghost predicate Sized(userSize: nat, internalSize: nat) {
      cf.page > 0 && Multiple(internalSize, cf.page) && userSize + cf.page <= internalSize
    }

    /** A free slot f that is large enough, and an empty slot e for what is left over. */
    ghost predicate Ready(f: nat, e: int, internalSize: nat)
      reads this
    {
      && GoodConfig(cf) && Mem(slots, created, denied, freed, cf) && (Increasing(cf) ==> CoalescedAbove(slots, f))
      && unUsedSlots == Unused(slots) && TotalSize(slots) == TotalObtained(created) && TableIsHeld()
      && f < |slots| && slots[f].mode == Free && internalSize <= slots[f].internalSize
      && 0 <= e < |slots| && e != f && slots[e] == EMPTY
    }

    function InUse(): Mode
      reads this
    {
      if internalUse then InternalUse else Allocated
    }

    /** The guard page of the interval is closed, the rest opened; the address of the user's buffer. */
    method ArrangePages(internalAddress: nat, userSize: nat, internalSize: nat, ghost s: Slot) returns (address: nat)
      requires Sized(userSize, internalSize) && s.internalAddress == internalAddress && s.internalSize == internalSize
      modifies `denied
      ensures denied == old(denied) - Addresses(s) + GuardPage(s, cf)
      ensures address == UserAddress(internalAddress, userSize, internalSize, cf)
    {
      hide Multiple;
      address := internalAddress;
      if !cf.protectBelow {
        if internalSize - cf.page > 0 { PageAllowAccess(internalAddress, internalSize - cf.page); }
        address := address + internalSize - cf.page;
        PageDenyAccess(address, cf.page);
        address := address - userSize;
      } else {
        PageDenyAccess(address, cf.page);
        address := address + cf.page;
        if internalSize - cf.page > 0 { PageAllowAccess(address, internalSize - cf.page); }
      }
    }

    /** The buffer takes the front of slot f; its pages are opened, its guard page is closed. */
    method Place(f: nat, e: nat, userSize: nat, internalSize: nat) returns (address: nat)
      requires Sized(userSize, internalSize) && Ready(f, e, internalSize) && unUsedSlots >= 1
      modifies `slots, `unUsedSlots, `denied, `freed
      ensures Core() && unUsedSlots >= old(unUsedSlots) - 1
      ensures address == UserAddress(old(slots[f].internalAddress), userSize, internalSize, cf)
      ensures f < |slots| && SameElsewhere(old(slots), slots, f)
      ensures slots[f] == NewBuffer(old(slots[f].internalAddress), userSize, internalSize, InUse(), cf)
      ensures slots == Carved(old(slots), f, e,
          NewBuffer(old(slots[f].internalAddress), userSize, internalSize, InUse(), cf))
    {
      hide GoodSystem, Mem, Increasing, CoalescedAbove, Multiple;
      ghost var before := slots;
      ghost var s := NewBuffer(slots[f].internalAddress, userSize, internalSize, InUse(), cf);
      slots := slots[f := slots[f].(mode := InUse())];
      if slots[f].internalSize > internalSize {
        slots := slots[e := Slot(slots[e].userAddress, slots[f].internalAddress + internalSize, slots[e].userSize,
                                 slots[f].internalSize - internalSize, Free)];
        slots := slots[f := slots[f].(internalSize := internalSize)];
        unUsedSlots := unUsedSlots - 1;
      }
      address := ArrangePages(slots[f].internalAddress, userSize, internalSize, s);
      freed := freed - Addresses(s);
      slots := slots[f := slots[f].(userAddress := address, userSize := userSize)];
      assert slots == Carved(before, f, e, s);
      CarveKeeps(before, created, old(denied), old(freed), cf, f, e, s, denied, freed);
    }

    /** Best fit: the smallest free slot that is large enough, or a new chunk if there is none. */
    method Carve(userSize: nat, internalSize: nat) returns (address: nat, ghost f: nat)
      requires Core() && unUsedSlots >= 2 && Sized(userSize, internalSize)
      modifies `slots, `unUsedSlots, `created, `denied, `freed
      ensures Core() && unUsedSlots >= old(unUsedSlots) - 2
      ensures OnlyNew(old(slots), slots, f) && Made(slots, f, address, userSize, InUse())
      ensures slots[f] == NewBuffer(slots[f].internalAddress, userSize, internalSize, InUse(), cf)
      ensures BestFit(old(slots), slots, f, internalSize)
      ensures (exists j :: 0 <= j < |old(slots)| && Fits(old(slots)[j], internalSize)) ==> created == old(created)
      ensures Allocation(slots, created, f) == Taken(old(slots), old(created), userSize, internalSize, InUse(), cf)
    {
      hide GoodSystem, Mem, TidyIf, Increasing, CoalescedAbove, Multiple, SameElsewhere, BestFit, TableIsHeld,
           ChunkSize, Supplied, Taken;
      ghost var before := slots;
      var full, e0, e1 := FindFit(slots, internalSize);
      UnusedSlotsFound(slots, created, denied, freed, cf, full, e0, e1);
      ScanSupplies(slots, created, internalSize, cf, full, e0, e1);
      ghost var created0 := created;
      ghost var found := full;
      if full < 0 {
        MoreMemory(e0, internalSize);
        full, e0 := e0, e1;
      } else {
        TidyAbove(cf, slots, full);
      }
      f := full;
      ghost var ready := slots;
      ReleasedShape(slots, created, denied, freed, cf, f);
      TakenFrom(before, created0, userSize, internalSize, InUse(), cf, Supply(slots, created, full, e0));
      address := Place(full, e0, userSize, internalSize);
      ChosenIsBest(before, ready, slots, found, f, internalSize);
    }

    // ---------- UdmFree ----------

    /** While slot c is being released: all is well but c may still have free neighbours. */
    ghost predicate Loose(c: nat)
      reads this
    {
      && GoodConfig(cf) && Mem(slots, created, denied, freed, cf)
      && c < |slots| && Released(slots[c].mode) && (Increasing(cf) ==> CoalescedBut(slots, c))
      && unUsedSlots == Unused(slots) && TotalSize(slots) == TotalObtained(created) && TableIsHeld()
    }

    /** Slot p, the first that ends where the slot starts, takes the slot in if it was released alike. */
    method JoinPrevious(slot: nat, p: nat) returns (c: nat)
      requires Loose(slot) && p <= |slots| && (p < |slots| ==> slots[p].End() == slots[slot].internalAddress)
      requires forall j :: 0 <= j < p ==> slots[j].End() != slots[slot].internalAddress
      modifies `slots, `unUsedSlots
      ensures Loose(c) && (Increasing(cf) && slots[c].mode == Free ==> NoFreeBelow(slots, c))
      ensures SameLive(old(slots), slots) && unUsedSlots >= old(unUsedSlots)
      ensures slots[c].End() == old(slots[slot].End()) && slots[c].mode == old(slots[slot].mode)
      ensures slots == old(slots) || (p < old(|slots|) && slot != p && slots == Joined(old(slots), p, slot))
      ensures if p < |old(slots)| && old(slots)[p].mode == old(slots)[slot].mode
              then c == p && slots == Joined(old(slots), p, slot) else c == slot && slots == old(slots)
    {
      hide GoodSystem, Mem, Increasing, CoalescedBut, NoFreeBelow;
      c := slot;
      if p < |slots| && slots[p].mode == slots[slot].mode {
        JoinKeeps(slots, created, denied, freed, cf, p, slot);
        if Increasing(cf) { JoinedBelow(slots, p, slot); }
        slots := slots[p := slots[p].(internalSize := slots[p].internalSize + slots[slot].internalSize)][slot := EMPTY];
        c := p;
        unUsedSlots := unUsedSlots + 1;
      } else if slots[slot].mode == Free {
        NothingBelow(slots, created, denied, freed, cf, slot, p);
      }
    }

    /** The slot takes in slot n, the first that starts where it ends, if n was released alike. */
    method JoinNext(c: nat, n: nat)
      requires Loose(c) && (Increasing(cf) && slots[c].mode == Free ==> NoFreeBelow(slots, c))
      requires n <= |slots| && (n < |slots| ==> slots[n].internalAddress == slots[c].End())
      requires forall j :: 0 <= j < n ==> slots[j].internalAddress != slots[c].End()
      modifies `slots, `unUsedSlots
      ensures Loose(c)
      ensures slots == if n < |old(slots)| && old(slots)[n].mode == old(slots)[c].mode then Joined(old(slots), c, n)
          else old(slots)
      ensures Increasing(cf) && slots[c].mode == Free ==> NoFreeBelow(slots, c) && NoFreeAbove(slots, c)
      ensures SameLive(old(slots), slots) && unUsedSlots >= old(unUsedSlots)
    {
      hide GoodSystem, Mem, Increasing, CoalescedBut, NoFreeBelow, NoFreeAbove;
      if n < |slots| && slots[n].mode == slots[c].mode {
        JoinKeeps(slots, created, denied, freed, cf, c, n);
        if Increasing(cf) { JoinedAbove(slots, c, n); }
        slots := slots[c := slots[c].(internalSize := slots[c].internalSize + slots[n].internalSize)][n := EMPTY];
        unUsedSlots := unUsedSlots + 1;
      } else if slots[c].mode == Free {
        NothingNext(slots, created, denied, freed, cf, c, n);
      }
    }

    /** A live slot other than the table's changes its mode and is closed. */
    method Loosen(slot: nat)
      requires Core() && slot < |slots| && Live(slots[slot]) && slot != table
      modifies `slots, `denied, `freed
      ensures Loose(slot) && SameElsewhere(old(slots), slots, slot) && !Live(slots[slot])
      ensures freed == old(freed) + Addresses(old(slots[slot]))
      ensures slots == old(slots)[slot := old(slots[slot]).(mode := if cf.protectFree then Protected else Free)]
    {
      hide GoodSystem, Mem, Increasing, CoalescedBut, TidyIf;
      ReleaseKeeps(slots, created, denied, freed, cf, slot, if cf.protectFree then Protected else Free);
      slots := slots[slot := slots[slot].(mode := if cf.protectFree then Protected else Free)];
      PageDenyAccess(slots[slot].internalAddress, slots[slot].internalSize);
      freed := freed + Addresses(slots[slot]);
    }

    /** A released slot is joined to its neighbours; both are looked up before either is joined. */
    method JoinBoth(slot: nat) returns (c: nat)
      requires Loose(slot)
      modifies `slots, `unUsedSlots
      ensures Loose(c) && SameLive(old(slots), slots) && unUsedSlots >= old(unUsedSlots)
      ensures Increasing(cf) && slots[c].mode == Free ==> NoFreeBelow(slots, c) && NoFreeAbove(slots, c)
      ensures (slots, c) == JoinedUp(old(slots), slot)
    {
      hide GoodSystem, Mem, Increasing, CoalescedBut, NoFreeBelow, NoFreeAbove, TidyIf, SameLive, Joined, TableIsHeld;
      ghost var released := slots;
      var end := slots[slot].End();
      ReleasedShape(slots, created, denied, freed, cf, slot);
      var p := SlotPreviousTo(slots, slots[slot].internalAddress);
      var n := SlotForInternalAddress(slots, end);
      LookupsFind(slots, slots[slot].internalAddress, end, p, n);
      c := JoinPrevious(slot, p);
      ghost var joined := slots;
      NextAfterJoin(released, slots, p, slot, n, end);
      JoinNext(c, n);
      SameLiveTwice(released, joined, slots);
    }

    /** The joined slot gets its interval as user fields. */
    method Settle(slot: nat)
      requires Loose(slot)
      modifies `slots, `unUsedSlots
      ensures Core() && SameLive(old(slots), slots) && unUsedSlots >= old(unUsedSlots)
      ensures slots == Settled(old(slots), slot)
    {
      hide GoodSystem, Mem, Increasing, CoalescedBut, NoFreeBelow, NoFreeAbove, TidyIf, SameLive, JoinedUp;
      ghost var released := slots;
      var c := JoinBoth(slot);
      ghost var tidy := slots;
      ResetKeeps(slots, created, denied, freed, cf, c);
      slots := slots[c := slots[c].(userAddress := slots[c].internalAddress, userSize := slots[c].internalSize)];
      SameLiveTwice(released, tidy, slots);
      LiveStays(tidy, slots, table);
    }

    method Release(slot: nat)
      requires Core() && slot < |slots| && Live(slots[slot]) && slot != table
      modifies `slots, `unUsedSlots, `denied, `freed
      ensures Core() && unUsedSlots >= old(unUsedSlots)
      ensures SameElsewhere(old(slots), slots, slot) && !Live(slots[slot])
      ensures freed == old(freed) + Addresses(old(slots[slot])) && slots == Freed(old(slots), slot, cf)
    {
      hide Core, Loose, SameElsewhere, SameLive, Settled;
      ghost var before := slots;
      Loosen(slot);
      ghost var released := slots;
      Settle(slot);
      SameThenLive(before, released, slots, slot);
    }

    lemma AcceptedHere(address: nat)
      requires Core() && address != 0
      ensures Accepted(slots, address, false) <==> Owned(slots, address, false) && !Shadowed(slots, address)
    {
      hide GoodSystem, Mem, TidyIf, TableIsHeld;
      AcceptedIff(slots, created, denied, freed, cf, address);
    }

    /** UdmFree: exactly the addresses of live buffers are accepted that no earlier slot hides. */
    method UdmFree(address: nat) returns (aborted: bool, ghost i: nat)
      requires Core() && (internalUse ==> address != listAddress)
      modifies `slots, `unUsedSlots, `denied, `freed
      ensures Core() && unUsedSlots >= old(unUsedSlots)
      ensures aborted <==> address != 0 && !Accepted(old(slots), address, internalUse)
      ensures !internalUse ==>
                (aborted <==> address != 0 && (!Owned(old(slots), address, false) || Shadowed(old(slots), address)))
      ensures aborted || address == 0 ==> slots == old(slots) && freed == old(freed)
      ensures !aborted && address != 0 ==>
                && i < |old(slots)| && Freeable(old(slots)[i], internalUse) && old(slots)[i].userAddress == address
                && SameElsewhere(old(slots), slots, i) && !Live(slots[i])
                && freed == old(freed) + Addresses(old(slots)[i])
                && i == UserSlot(old(slots), address) && slots == Freed(old(slots), i, cf)
      ensures !aborted && address != 0 && !noProtection ==> TablePages() <= denied
      ensures !aborted && address != 0 && !internalUse ==>
                old(slots)[i] in Buffers(old(slots)) && Buffers(slots) == Buffers(old(slots)) - {old(slots)[i]}
      ensures !internalUse && old(OneTable()) ==> OneTable()
    {
      hide GoodSystem, Mem, TidyIf, SameElsewhere, Buffers, OnlyTable, Freed, Owned, Shadowed, UserSlot;
      aborted, i := false, 0;
      if address == 0 { return; }
      if !noProtection { OpenTable(); }
      var slot := SlotForUserAddress(slots, address);
      UserLookupFinds(slots, address, slot);
      AcceptedHere(address);
      if slot == |slots| { aborted := true; return; }
      if slots[slot].mode != Allocated {
        if internalUse && slots[slot].mode == InternalUse {
        } else {
          aborted := true;
          return;
        }
      }
      i := slot;
      ghost var before, d0 := slots, denied;
      Release(slot);
      if !internalUse { FreedIsGone(before, slots, created, d0, old(freed), cf, slot, table); }
      if !noProtection { CloseTable(); }
    }

    // ---------- The table grows while it serves a request ----------

    /** The new, larger buffer f becomes the slot table. */
    method Adopt(address: nat, newSize: nat, ghost f: nat)
      requires Core() && f < |slots| && slots[f].mode == InternalUse && slots[f].userAddress == address != 0
      requires slots[f].Contains(address) && address + newSize <= slots[f].End() && newSize == listSize + cf.page
      requires cf.protectBelow ==> slots[f].internalAddress < address
      modifies `slots, `unUsedSlots, `listAddress, `listSize, `table
      ensures Core() && listAddress == address && table == f
      ensures unUsedSlots == old(unUsedSlots) + SlotsPerPage() && Buffers(slots) == Buffers(old(slots))
      ensures slots == old(slots) + seq(cf.page / SLOT_SIZE, _ => EMPTY) && listSize == newSize
      ensures |slots| >= old(|slots|) && slots[..old(|slots|)] == old(slots)
      ensures forall i :: old(|slots|) <= i < |slots| ==> slots[i] == EMPTY
    {
      hide GoodSystem, Mem, TidyIf, Buffers;
      GrowKeeps(slots, created, denied, freed, cf, SlotsPerPage());
      listAddress, listSize, table := address, newSize, f;
      slots := slots + seq(SlotsPerPage(), _ => EMPTY);
      unUsedSlots := unUsedSlots + SlotsPerPage();
    }

    /** The new table f takes over and the old table t is freed; s0 is the table before both. */
    method SwitchTables(address: nat, newSize: nat, ghost f: nat, ghost s0: seq<Slot>)
      requires Core() && internalUse && address != listAddress && newSize == listSize + cf.page
      requires f < |slots| && Made(slots, f, address, slots[f].userSize, InternalUse) && slots[f].userSize >= newSize
      requires cf.protectBelow ==> slots[f].internalAddress < address
      requires table < |s0| && s0[table].mode == InternalUse && OnlyTable(s0, table) && OnlyNew(s0, slots, f)
      modifies `slots, `unUsedSlots, `listAddress, `listSize, `denied, `freed, `table
      ensures Core() && OneTable() && unUsedSlots >= old(unUsedSlots) + SlotsPerPage() && Buffers(slots) == Buffers(s0)
      ensures listAddress == address && listSize == newSize
      ensures var more := old(slots) + seq(cf.page / SLOT_SIZE, _ => EMPTY);
              var t := UserSlot(more, old(listAddress));
              t < |more| && slots == Freed(more, t, cf)
    {
      hide GoodSystem, Mem, TidyIf, Buffers, SameElsewhere, OnlyTable, OnlyNew, Freed, UserSlot;
      var oldAllocation := listAddress;
      ghost var s1, t := slots, table;
      Adopt(address, newSize, f);
      ghost var s2, c2, d2, f2 := slots, created, denied, freed;
      assert s2[..|s1|][t] == s1[t] && Freeable(s2[t], internalUse);
      TableIsFound(s2, c2, d2, f2, cf, t, UserSlot(s2, oldAllocation));
      var aborted, i := UdmFree(oldAllocation);
      TableMoved(s0, s1, s2, slots, f, t);
    }

    /** allocateMoreSlots: memalign serves the allocator itself, then the old table is freed. */
    method AllocateMoreSlots()
      requires Core() && OneTable() && unUsedSlots >= 5 && !internalUse && !noProtection
      modifies `slots, `unUsedSlots, `listAddress, `listSize, `internalUse, `noProtection, `created, `denied, `freed,
               `table
      ensures Core() && OneTable() && unUsedSlots >= 7 && !internalUse && !noProtection
      ensures Buffers(slots) == Buffers(old(slots)) && Now() == Grown(old(Now()), cf)
      decreases 1
    {
      hide GoodSystem, Mem, TidyIf, Buffers, SameElsewhere, OnlyTable, OnlyNew, Freed, UserSlot, Taken, RoundUp,
           BestFit, Grown, Rounded;
      ghost var before := Now();
      var newSize, oldAllocation := listSize + cf.page, listAddress;
      OpenTable();
      noProtection, internalUse := true, true;
      ghost var s0 := slots;
      var r, f := Memalign(cf.alignment, newSize);
      LiveIsKept(s0, slots, f, table);
      if r.address == oldAllocation { OwnerIsUnique(slots, created, denied, freed, cf, f, table); }
      ghost var a := Allocation(slots, created, f);
      SwitchTables(r.address, newSize, f, s0);
      GrownIs(before, cf, a, slots);
      noProtection, internalUse := false, false;
    }

    // ---------- memalign ----------

    predicate Aligns(alignment: nat) { !cf.protectBelow && alignment > 1 && Multiple(cf.page, alignment) }

    /** The second half of memalign: a buffer of the rounded size is carved and the table closed. */
    method Finish(size: nat, internalSize: nat, alignment: nat) returns (address: nat, ghost f: nat)
      requires Core() && unUsedSlots >= 2 && Sized(size, internalSize) && (!internalUse ==> OneTable())
      requires Aligns(alignment) ==> Multiple(size, alignment)
      modifies `slots, `unUsedSlots, `created, `denied, `freed
      ensures Core() && unUsedSlots >= old(unUsedSlots) - 2
      ensures Made(slots, f, address, size, InUse()) && BestFit(old(slots), slots, f, internalSize)
      ensures slots[f].internalSize == internalSize
      ensures Allocation(slots, created, f) == Taken(old(slots), old(created), size, internalSize, InUse(), cf)
      ensures OnlyNew(old(slots), slots, f) && (Aligns(alignment) ==> Multiple(address, alignment))
      ensures cf.protectBelow ==> slots[f].internalAddress < address
      ensures !internalUse ==> OneTable() && TablePages() <= denied && Handed(Buffers(old(slots)), slots, f)
    {
      hide GoodSystem, Mem, TidyIf, Buffers, SameElsewhere, BestFit, Multiple, OnlyTable, OnlyNew, Handed, TableIsHeld,
           Taken;
      ghost var before := slots;
      address, f := Carve(size, internalSize);
      if Aligns(alignment) {
        AlignedAddress(slots, created, denied, freed, cf, f, slots[f].internalAddress, size, internalSize, alignment);
      }
      if !internalUse {
        NewIsHanded(before, slots, created, denied, freed, cf, f);
        OnlyTableStays(before, slots, f, table);
        CloseTable();
      }
    }

    lemma MadeAsAsked(f: nat, address: nat, size: nat, userSize: nat, alignment: nat)
      requires Core() && Made(slots, f, address, size, InUse()) && Serves(size, userSize, alignment, cf)
      requires slots[f].internalSize == RoundUp(size + cf.page, cf.page)
      ensures Serves(slots[f].userSize, userSize, alignment, cf) && NoPageTooMany(slots[f], cf)
      ensures !internalUse ==> Stopped(address, userSize, alignment, denied, cf)
    {
      hide GoodSystem, Mem, TidyIf, TableIsHeld, Serves, Stopped, RoundUp, Multiple;
      RoundUpIsMultiple(size + cf.page, cf.page);
      if !internalUse { LiveIsStopped(slots, created, denied, freed, cf, slots[f], userSize, alignment); }
    }

    /**
     * memalign, and so UdmMalloc. The two "No empty slot" errors of the scan are unreachable: enough
     * unused slots are kept even while the table itself is being moved.
     */
    method Memalign(alignment: nat, userSize: nat) returns (r: Outcome, ghost f: nat)
      requires Core() && unUsedSlots >= 5 && (if internalUse then noProtection else !noProtection && OneTable())
      modifies `slots, `unUsedSlots, `listAddress, `listSize, `internalUse, `noProtection, `created, `denied, `freed,
               `table
      ensures Core() && internalUse == old(internalUse) && noProtection == old(noProtection)
      ensures r.Abort? <==> userSize == 0 && !cf.allowMalloc0
      ensures r.Abort? ==> Now() == old(Now()) && (!internalUse ==> OneTable() && unUsedSlots >= 5)
      ensures r.Address? ==> Made(slots, f, r.address, Rounded(userSize, alignment, cf), InUse())
      ensures r.Address? ==> Serves(slots[f].userSize, userSize, alignment, cf) && NoPageTooMany(slots[f], cf)
      ensures r.Address? && !internalUse ==> Stopped(r.address, userSize, alignment, denied, cf)
      ensures r.Address? ==>
                var st := if internalUse then old(Now()) else Scanned(old(Now()), cf);
                var size := Rounded(userSize, alignment, cf);
                var internalSize := RoundUp(size + cf.page, cf.page);
                && BestFit(st.slots, slots, f, internalSize)
                && Allocation(slots, created, f) == Taken(st.slots, st.created, size, internalSize, InUse(), cf)
                && listAddress == st.listAddress && listSize == st.listSize
      ensures r.Address? && Aligns(alignment) ==> Multiple(r.address, alignment)
      ensures r.Address? && cf.protectBelow ==> slots[f].internalAddress < r.address
      ensures r.Address? && !internalUse ==> OneTable() && unUsedSlots >= 5 && TablePages() <= denied
      ensures r.Address? && !internalUse ==> Handed(Buffers(old(slots)), slots, f)
      ensures r.Address? && internalUse ==> OnlyNew(old(slots), slots, f) && unUsedSlots >= old(unUsedSlots) - 2
      ensures internalUse ==> listAddress == old(listAddress) && listSize == old(listSize) && table == old(table)
      decreases if internalUse then 0 else 2
    {
      hide GoodSystem, Mem, TidyIf, Buffers, SameElsewhere, BestFit, Multiple, OnlyTable, OnlyNew, Made, Handed,
           TableIsHeld, Taken, Grown, Serves, Stopped, NoPageTooMany;
      f := 0;
      if userSize == 0 && !cf.allowMalloc0 { return Abort, 0; }
      var size := userSize;
      if !cf.protectBelow && alignment > 1 {
        var slack := size % alignment;
        if slack != 0 { size := size + alignment - slack; }
        RoundUpIsMultiple(userSize, alignment);
      }
      assert size == Rounded(userSize, alignment, cf);
      var internalSize := RoundUp(size + cf.page, cf.page);
      RoundUpIsMultiple(size + cf.page, cf.page);
      if !noProtection { OpenTable(); }
      if !internalUse && unUsedSlots < 7 { AllocateMoreSlots(); }
      var address;
      address, f := Finish(size, internalSize, alignment);
      RoundedServes(userSize, alignment, cf);
      MadeAsAsked(f, address, size, userSize, alignment);
      r := Address(address);
    }

    // ---------- UdmRealloc ----------

    method SetNoProtection(b: bool)
      requires Core()
      modifies `noProtection
      ensures Core() && noProtection == b
    {
      hide GoodSystem, Mem, TidyIf;
      noProtection := b;
    }

    method SetMemory(m: int -> int)
      requires Core()
      modifies `memory
      ensures Core() && memory == m
    {
      hide GoodSystem, Mem, TidyIf;
      memory := m;
    }

    /** memcpy and memset of UdmRealloc. */
    method Fill(to: nat, from: nat, kept: nat, size: nat)
      requires kept <= size && Core()
      modifies `memory
      ensures Core() && Moved(old(memory), memory, from, to, kept, size)
    {
      hide Core, Moved, Copied, Zeroed;
      CopyThenZero(memory, from, to, kept, size);
      SetMemory(Copied(memory, from, to, kept));
      if kept < size { SetMemory(Zeroed(memory, to + kept, size - kept)); }
    }

    /** The old buffer of a reallocation is copied and freed; the lookup sees the new buffer too. */
    method MoveOld(oldBuffer: nat, newSize: nat, newBuffer: nat) returns (aborted: bool, ghost i: nat)
      requires Valid() && oldBuffer != 0
      modifies `slots, `unUsedSlots, `noProtection, `denied, `freed, `memory
      ensures aborted <==> !Owned(old(slots), oldBuffer, false) || Shadowed(old(slots), oldBuffer)
      ensures !aborted ==> Valid() && TablePages() <= denied
      ensures !aborted ==>
                && i < |old(slots)| && old(slots)[i].mode == Allocated && old(slots)[i].userAddress == oldBuffer
                && old(slots)[i] in Buffers(old(slots)) && Buffers(slots) == Buffers(old(slots)) - {old(slots)[i]}
                && Now() == AfterFree(old(Now()), oldBuffer, cf)
                && Moved(old(memory), memory, oldBuffer, newBuffer, Min(newSize, old(slots)[i].userSize), newSize)
    {
      hide GoodSystem, Mem, TidyIf, SameElsewhere, Buffers, OnlyTable, Moved, Core, Freed, Owned, Shadowed, UserSlot;
      aborted, i := false, 0;
      OpenTable();
      SetNoProtection(true);
      var slot := SlotForUserAddress(slots, oldBuffer);
      UserLookupFinds(slots, oldBuffer, slot);
      AcceptedHere(oldBuffer);
      if slot == |slots| { aborted := true; return; }
      var size := slots[slot].userSize;
      if newSize < size { size := newSize; }
      aborted, i := UdmFree(oldBuffer);
      if aborted { return; }
      SetNoProtection(false);
      CloseTable();
      Fill(newBuffer, oldBuffer, size, newSize);
    }

    /**
     * UdmRealloc. A live old buffer is replaced by the new one, which holds its bytes. An old address that is not
     * live ends in an abort, unless it is the very address that the next buffer gets: then the buffer that is returned
     * has just been freed.
     */
    method UdmRealloc(oldBuffer: nat, newSize: nat) returns (r: Outcome, ghost f: Slot, ghost o: Slot)
      requires Valid()
      modifies `slots, `unUsedSlots, `listAddress, `listSize, `internalUse, `noProtection, `created, `denied, `freed,
               `table, `memory
      ensures r.Abort? <==> Refuses(old(Now()), CallRealloc(oldBuffer, newSize), cf)
      ensures r.Address? ==> Valid() && Now() == Next(old(Now()), CallRealloc(oldBuffer, newSize), cf)
      ensures r.Address? ==> New(f, old(Now()), newSize, cf) && f.userAddress == r.address
      ensures r.Address? && oldBuffer == 0 ==> Buffers(slots) == Buffers(old(slots)) + {f} && memory == old(memory)
      ensures r.Address? && oldBuffer != 0 && Owned(old(slots), oldBuffer, false) ==>
                && o in Buffers(old(slots)) && o.userAddress == oldBuffer
                && Buffers(slots) == Buffers(old(slots)) - {o} + {f}
                && Moved(old(memory), memory, oldBuffer, r.address, Min(newSize, o.userSize), newSize)
      ensures r.Address? && oldBuffer != 0 && !Owned(old(slots), oldBuffer, false) ==>
                r.address == oldBuffer && Buffers(slots) == Buffers(old(slots))
    {
      hide GoodSystem, Mem, TidyIf, SameElsewhere, Buffers, OnlyTable, Moved, TableIsHeld, Owned, BestFit, Taken,
           Scanned, Rounded, RoundUp, Freed, UserSlot, Shadowed;
      ghost var s0 := slots;
      ghost var n;
      r, n := Memalign(cf.alignment, newSize);
      f, o := EMPTY, EMPTY;
      if r.Abort? { return; }
      f := slots[n];
      if oldBuffer != 0 {
        ghost var s1, c1, d1, f1 := slots, created, denied, freed;
        OwnedAfter(s0, s1, n, oldBuffer);
        var aborted;
        ghost var i;
        aborted, i := MoveOld(oldBuffer, newSize, r.address);
        if aborted { r := Abort; return; }
        o := s1[i];
        OldIsReplaced(s0, s1, c1, d1, f1, cf, n, i, oldBuffer);
      }
    }

    // ---------- Runs ----------

    lemma PageIsPositive()
      requires Valid()
      ensures cf.page > 0
    {
    }

    lemma CallLocks(call: Call)
      requires Valid()
      ensures cf.page > 0 && (cf.protectFree ==> Locks(slots, Next(Now(), call, cf).slots))
    {
      hide Next, Locks, OneTable, TidyIf, TotalSize, TotalObtained, Unused;
      if cf.protectFree { NextLocks(Now(), call, cf); }
    }

    /** One call of the program: when it aborts, the state it leads to, and what it does to the set of live buffers. */
    method Step(call: Call) returns (aborted: bool)
      requires Valid()
      modifies this
      ensures aborted <==> Refuses(old(Now()), call, cf)
      ensures !aborted ==> Valid() && Now() == Next(old(Now()), call, cf) && Effect(call, old(Now()), Now(), cf)
    {
      hide Core, OneTable, Buffers, BestFit, Taken, Scanned, Rounded, RoundUp, Freed, Locks, Serves;
      CallLocks(call);
      match call
      case CallMalloc(size) =>
        var r, f := Memalign(cf.alignment, size);
        aborted := r.Abort?;
        if !aborted { assert New(slots[f], old(Now()), size, cf); }
      case CallFree(address) =>
        ghost var i;
        aborted, i := UdmFree(address);
      case CallRealloc(address, size) =>
        var r, f, o := UdmRealloc(address, size);
        aborted := r.Abort?;
    }

    /**
     * Any run of calls: it stops before the first call that is refused and nowhere else, the arena stays valid as long
     * as it goes on, and every call on the way has its effect on the live buffers.
     */
    method Run(calls: seq<Call>) returns (done: nat)
      requires Valid()
      modifies this
      ensures done == Completed(old(Now()), calls, cf)
      ensures done == |calls| ==> Valid() && Now() == Final(old(Now()), calls, cf)
      ensures forall k :: 0 <= k < done ==>
                Effect(calls[k], Final(old(Now()), calls[..k], cf), Final(old(Now()), calls[..k + 1], cf), cf)
    {
      hide Core, OneTable, Effect, Next, Refuses, Final, Completed;
      ghost var start := Now();
      PageIsPositive();
      done := 0;
      NothingDone(start, calls, cf);
      while done < |calls|
        invariant done <= |calls| && Valid() && Now() == Final(start, calls[..done], cf)
        invariant Completed(start, calls[..done], cf) == done
        invariant forall k :: 0 <= k < done ==>
                    Effect(calls[k], Final(start, calls[..k], cf), Final(start, calls[..k + 1], cf), cf)
      {
        OneMore(start, calls, done, cf);
        var aborted := Step(calls[done]);
        if aborted {
          StopsThere(start, calls, done, |calls|, cf);
          assert calls[..|calls|] == calls;
          return;
        }
        done := done + 1;
      }
      assert calls[..done] == calls;
    }
  }

  /**
   * Over any run with EF_PROTECT_FREE: memory that was locked once is locked for good, so no buffer lies there again.
   */
  lemma {:induction false} LockedForGood(st: State, calls: seq<Call>, j: nat, k: nat, cf: Config)
    requires cf.page > 0 && cf.protectFree && j <= k <= |calls|
    requires forall i :: 0 <= i < k ==> Effect(calls[i], Final(st, calls[..i], cf), Final(st, calls[..i + 1], cf), cf)
    ensures Locks(Final(st, calls[..j], cf).slots, Final(st, calls[..k], cf).slots)
    decreases k
  {
    hide Locks, Final, New;
    if j == k {
      Unchanged(Final(st, calls[..j], cf).slots);
    } else {
      LockedForGood(st, calls, j, k - 1, cf);
      var i := k - 1;
      assert Effect(calls[i], Final(st, calls[..i], cf), Final(st, calls[..i + 1], cf), cf);
      LocksTwice(Final(st, calls[..j], cf).slots, Final(st, calls[..i], cf).slots, Final(st, calls[..k], cf).slots);
    }
  }

  /**
   * A program that allocates, frees and then reallocates the freed address is not stopped: it gets that address again,
   * and no buffer is live there.
   */
  method ReallocateFreed(cf: Config, size: nat) returns (arena: Allocator, a: Outcome, r: Outcome)
    requires GoodConfig(cf) && 9 * SLOT_SIZE <= cf.page && !cf.protectFree && !ZeroRefused(size, cf)
    requires Needed(size, cf) + cf.page < CREATION
    ensures a.Address? && r == a && arena.Valid() && arena.LiveBuffers() == {}
  {
    hide Allocator.Core, Allocator.OneTable, Next, Fresh, BestFit, Taken, Scanned, Freed, Rounded, RoundUp, Shadowed;
    FirstBufferFreed(cf, size);
    FirstBufferIsSeen(cf, size);
    arena := new Allocator(cf);
    ghost var f, i, n, o;
    a, f := arena.Memalign(cf.alignment, size);
    assert arena.Now() == AfterMalloc(Fresh(cf), size, cf);
    var aborted;
    aborted, i := arena.UdmFree(a.address);
    r, n, o := arena.UdmRealloc(a.address, size);
  }

  /**
   * The allocator itself carries out the first six calls of the run that frees a live buffer and stops at the seventh,
   * the free of the buffer that its fifth call returned.
   */
  method FreeLiveBuffer(cf: Config) returns (arena: Allocator, b: nat, done: nat)
    requires GoodConfig(cf) && cf.page == PAGE && cf.protectBelow && cf.allowMalloc0 && !cf.protectFree
    ensures done == 6 < |HidingRun(b)| && HidingRun(b)[6] == CallFree(b + 2 * PAGE)
    ensures Owned(Final(Fresh(cf), HidingRun(b)[..6], cf).slots, b + 2 * PAGE, false)
  {
    ghost var at := LiveBufferIsRefused(cf);
    b := Fresh(cf).slots[1].internalAddress;
    hide *;
    arena := new Allocator(cf);
    done := arena.Run(HidingRun(b));
  }
}
