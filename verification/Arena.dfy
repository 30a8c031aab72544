/** What stays true of the allocator's memory between any two steps (efence.c). */
module Arena {
  import opened Slots
  import opened PageMath

  /** How the allocator was configured, and which addresses the system hands out. */
  datatype Config = Config(page: nat, alignment: nat, protectFree: bool, protectBelow: bool, allowMalloc0: bool,
                           mmap: (seq<Region>, nat) -> nat)

  const CREATION := 10 * 1024 * 1024

  /** sizeof(Slot) with 64-bit pointers. */
  const SLOT_SIZE := 40

  /** The system gives page-aligned memory that it has not given before. */
  ghost predicate GoodSystem(cf: Config) {
    forall created: seq<Region>, size: nat | size > 0 ::
      && cf.mmap(created, size) > 0
      && (cf.page > 0 ==> Multiple(cf.mmap(created, size), cf.page))
      && forall a: int :: cf.mmap(created, size) <= a < cf.mmap(created, size) + size ==> !Obtained(created, a)
  }

  /** New memory lies above all earlier memory: the address hint of Page_Create is followed. */
  ghost predicate Increasing(cf: Config) {
    forall created: seq<Region>, size: nat, i :: 0 <= i < |created| ==>
      created[i].address + created[i].size <= cf.mmap(created, size)
  }

  ghost predicate GoodConfig(cf: Config) {
    && 7 * SLOT_SIZE <= cf.page < CREATION
    && GoodSystem(cf)
  }

  predicate Live(s: Slot) { s.mode == Allocated || s.mode == InternalUse }

  /** The inaccessible page of a live slot: after the buffer, or before it. */
  predicate InGuard(s: Slot, a: int, cf: Config) {
    if cf.protectBelow then s.internalAddress <= a < s.internalAddress + cf.page
    else s.End() - cf.page <= a < s.End()
  }

  ghost function Range(address: nat, size: nat): set<int> {
    set a: int | address <= a < address + size && Region(address, size).Contains(a)
  }

  ghost function Addresses(s: Slot): set<int> { Range(s.internalAddress, s.internalSize) }

  ghost function GuardPage(s: Slot, cf: Config): set<int>
    requires cf.page <= s.internalSize
  {
    if cf.protectBelow then Range(s.internalAddress, cf.page) else Range(s.End() - cf.page, cf.page)
  }

  /** Where the user's buffer lies in its slot. */
  predicate Placed(s: Slot, cf: Config) {
    && s.internalAddress <= s.userAddress && s.userAddress + s.userSize <= s.End()
    && if cf.protectBelow then s.userAddress == s.internalAddress + cf.page
       else s.userAddress + s.userSize == s.End() - cf.page
  }

  /** An empty buffer behind its guard page: its address is where the next slot starts. */
  predicate OnEdge(s: Slot, cf: Config) { cf.protectBelow && s.userSize == 0 && s.userAddress == s.End() }

  /** Every user address lies in its own slot or on its edge; zero marks a slot that was split off. */
  predicate AtHome(s: Slot, cf: Config) { s.userAddress == 0 || s.Contains(s.userAddress) || OnEdge(s, cf) }

  predicate PageAligned(s: Slot, page: nat)
    requires page > 0
  {
    Multiple(s.internalAddress, page) && Multiple(s.internalSize, page)
  }

  ghost predicate WellPlaced(slots: seq<Slot>, cf: Config)
    requires cf.page > 0
  {
    forall i :: 0 <= i < |slots| && slots[i].Used() ==>
      AtHome(slots[i], cf) && PageAligned(slots[i], cf.page) && (slots[i].mode == Allocated ==> Placed(slots[i], cf))
  }

  /** Of an allocated slot exactly the guard page is inaccessible. */
  ghost predicate GuardsExact(slots: seq<Slot>, denied: set<int>, cf: Config) {
    forall i, a: int :: 0 <= i < |slots| && slots[i].mode == Allocated && slots[i].Contains(a) ==>
      (a in denied <==> InGuard(slots[i], a, cf))
  }

  ghost predicate NotFreed(slots: seq<Slot>, freed: set<int>) {
    forall i, a: int :: 0 <= i < |slots| && Live(slots[i]) && slots[i].Contains(a) ==> a !in freed
  }

  /** Protection of the pages: guards are denied, live buffers are not, freed memory is. */
  ghost predicate Protection(slots: seq<Slot>, denied: set<int>, freed: set<int>, cf: Config) {
    GuardsExact(slots, denied, cf) && freed <= denied && NotFreed(slots, freed)
  }

  /** No two free slots are neighbours. */
  ghost predicate Coalesced(slots: seq<Slot>) {
    forall i, j :: 0 <= i < |slots| && 0 <= j < |slots| && slots[i].mode == Free && slots[j].mode == Free ==>
      slots[i].End() != slots[j].internalAddress
  }

  /** Slot t starts where the empty buffer of slot s is, behind the guard page of s. */
  predicate Behind(s: Slot, t: Slot, cf: Config) { OnEdge(s, cf) && t.internalAddress == s.End() }

  /** A user address is that of one slot only, or of an empty buffer and the slot that starts behind its guard page. */
  lemma LookupFindsOwner(slots: seq<Slot>, created: seq<Region>, cf: Config, i: nat, j: nat)
    requires cf.page > 0 && Partition(slots, created) && WellPlaced(slots, cf)
    requires i < |slots| && j < |slots| && slots[i].userAddress == slots[j].userAddress != 0
    ensures i == j || Behind(slots[i], slots[j], cf) || Behind(slots[j], slots[i], cf)
  {
    assert Shape(slots[i]) && Shape(slots[j]);
    assert AtHome(slots[i], cf) && AtHome(slots[j], cf);
    if i != j { assert Apart(slots[i], slots[j]) || Apart(slots[j], slots[i]); }
  }

  /** No two live buffers have the same address. */
  lemma OneLiveOwner(slots: seq<Slot>, created: seq<Region>, denied: set<int>, freed: set<int>, cf: Config, i: nat,
                     j: nat)
    requires cf.page > 0 && Mem(slots, created, denied, freed, cf)
    requires i < |slots| && j < |slots| && slots[i].mode == Allocated && slots[j].mode == Allocated
    requires slots[i].userAddress == slots[j].userAddress != 0
    ensures i == j
  {
    hide Partition, Protection, AtHome, PageAligned;
    LookupFindsOwner(slots, created, cf, i, j);
    assert Placed(slots[i], cf) && Placed(slots[j], cf);
  }

  /** Among slots that contain it an address is that of one slot only. */
  lemma OwnerIsUnique(slots: seq<Slot>, created: seq<Region>, denied: set<int>, freed: set<int>, cf: Config, i: nat,
                      j: nat)
    requires cf.page > 0 && Mem(slots, created, denied, freed, cf)
    requires i < |slots| && j < |slots| && slots[i].userAddress == slots[j].userAddress != 0
    requires slots[i].Contains(slots[i].userAddress) && slots[j].Contains(slots[j].userAddress)
    ensures i == j
  {
    hide Partition, Protection, WellPlaced;
    LookupFindsOwner(slots, created, cf, i, j);
  }

  /** No memory lies above a region obtained last from an increasing system. */
  lemma NothingAbove(slots: seq<Slot>, created: seq<Region>, cf: Config, size: nat, i: nat)
    requires Partition(slots, created) && Increasing(cf) && i < |slots| && slots[i].Used()
    ensures slots[i].End() <= cf.mmap(created, size)
  {
    assert Shape(slots[i]);
    var last := slots[i].End() - 1;
    assert slots[i].Contains(last) && Covered(slots, last);
    var r :| 0 <= r < |created| && created[r].Contains(last);
  }

  // ---------- Steps of an allocation ----------

  ghost predicate Mem(slots: seq<Slot>, created: seq<Region>, denied: set<int>, freed: set<int>, cf: Config)
    requires cf.page > 0
  {
    Partition(slots, created) && WellPlaced(slots, cf) && Protection(slots, denied, freed, cf)
  }

  /** The front of a free slot is cut off; the rest, with no user address, takes slot e. */
  lemma SplitFree(slots: seq<Slot>, created: seq<Region>, denied: set<int>, freed: set<int>, cf: Config, f: nat,
                  e: nat, k: nat)
    requires cf.page > 0 && Mem(slots, created, denied, freed, cf)
    requires f < |slots| && e < |slots| && f != e && slots[f].mode == Free && !slots[e].Used()
    requires 0 < k < slots[f].internalSize && Multiple(k, cf.page)
    ensures var front := slots[f].(userAddress := 0, internalSize := k);
            var rest := Slot(0, slots[f].internalAddress + k, 0, slots[f].internalSize - k, Free);
            Mem(slots[f := front][e := rest], created, denied, freed, cf)
  {
    hide Multiple;
    var front := slots[f].(userAddress := 0, internalSize := k);
    var rest := Slot(0, slots[f].internalAddress + k, 0, slots[f].internalSize - k, Free);
    Split(slots, created, f, e, front, rest);
    SumMultiple(slots[f].internalAddress, k, cf.page);
    SumMultiple(slots[f].internalSize, k, cf.page);
  }

  /** A free slot becomes live: its guard is denied, the rest of it allowed. */
  lemma PlaceLive(slots: seq<Slot>, created: seq<Region>, denied: set<int>, freed: set<int>, cf: Config,
                  f: nat, s: Slot, denied': set<int>, freed': set<int>)
    requires cf.page > 0 && Mem(slots, created, denied, freed, cf)
    requires f < |slots| && slots[f].mode == Free && Live(s)
    requires s.internalAddress == slots[f].internalAddress && s.internalSize == slots[f].internalSize
    requires Placed(s, cf)
    requires cf.page <= s.internalSize
    requires denied' == denied - Addresses(s) + GuardPage(s, cf) && freed' == freed - Addresses(s)
    ensures Mem(slots[f := s], created, denied', freed', cf)
  {
    hide Multiple;
    Relabel(slots, created, f, s);
    var slots' := slots[f := s];
    forall i, a: int | 0 <= i < |slots| && i != f && slots[i].Used() && slots[i].Contains(a) ensures !s.Contains(a) {
      assert Apart(slots[i], slots[f]);
    }
    assert WellPlaced(slots', cf);
    forall i: nat, a: int | i < |slots'| && slots'[i].mode == Allocated && slots'[i].Contains(a)
      ensures a in denied' <==> InGuard(slots'[i], a, cf)
    {
      assert i != f ==> slots'[i] == slots[i];
    }
    forall i: nat, a: int | i < |slots'| && Live(slots'[i]) && slots'[i].Contains(a) ensures a !in freed' {
      assert i != f ==> slots'[i] == slots[i];
    }
  }

  /** Neighbours of free slots are not free, except below slot f. */
  ghost predicate CoalescedAbove(slots: seq<Slot>, f: nat) {
    forall i, j :: 0 <= i < |slots| && 0 <= j < |slots| && j != f && slots[i].mode == Free && slots[j].mode == Free ==>
      slots[i].End() != slots[j].internalAddress
  }

  /** Placing a live slot at the front of a free one leaves no two free neighbours. */
  lemma CarveCoalesced(slots: seq<Slot>, created: seq<Region>, f: nat, e: nat, s: Slot)
    requires Partition(slots, created) && f < |slots| && slots[f].mode == Free && CoalescedAbove(slots, f)
    requires s.mode != Free && s.Used() && s.internalAddress == slots[f].internalAddress
    requires 0 < s.internalSize <= slots[f].internalSize
    requires s.internalSize < slots[f].internalSize ==> e < |slots| && e != f && !slots[e].Used()
    ensures s.internalSize == slots[f].internalSize ==> Coalesced(slots[f := s])
    ensures s.internalSize < slots[f].internalSize ==>
              Coalesced(slots[f := s][e := Slot(0, s.End(), 0, slots[f].internalSize - s.internalSize, Free)])
  {
    if s.internalSize < slots[f].internalSize {
      var rest := Slot(0, s.End(), 0, slots[f].internalSize - s.internalSize, Free);
      var slots' := slots[f := s][e := rest];
      assert rest.End() == slots[f].End();
      forall i | 0 <= i < |slots| && i != f && i != e && slots[i].mode == Free
        ensures slots[i].End() != rest.internalAddress && rest.End() != slots[i].internalAddress
      {
        assert Apart(slots[i], slots[f]) && Shape(slots[i]);
      }
    }
  }

  // ---------- Steps of a release ----------

  /** No two free neighbours, leaving slot c out of account. */
  ghost predicate CoalescedBut(slots: seq<Slot>, c: nat) {
    forall i, j ::
      0 <= i < |slots| && 0 <= j < |slots| && i != c && j != c && slots[i].mode == Free && slots[j].mode == Free ==>
      slots[i].End() != slots[j].internalAddress
  }

  ghost predicate NoFreeBelow(slots: seq<Slot>, c: nat)
    requires c < |slots|
  {
    forall i :: 0 <= i < |slots| && i != c && slots[i].mode == Free ==> slots[i].End() != slots[c].internalAddress
  }

  ghost predicate NoFreeAbove(slots: seq<Slot>, c: nat)
    requires c < |slots|
  {
    forall i :: 0 <= i < |slots| && i != c && slots[i].mode == Free ==> slots[i].internalAddress != slots[c].End()
  }

  predicate Released(m: Mode) { m == Free || m == Protected }

  lemma ReleaseLive(slots: seq<Slot>, created: seq<Region>, denied: set<int>, freed: set<int>, cf: Config, i: nat,
                    m: Mode,
                    denied': set<int>, freed': set<int>)
    requires cf.page > 0 && Mem(slots, created, denied, freed, cf)
    requires i < |slots| && Live(slots[i]) && Released(m)
    requires denied' == denied + Addresses(slots[i]) && freed' == freed + Addresses(slots[i])
    ensures Mem(slots[i := slots[i].(mode := m)], created, denied', freed', cf)
    ensures Coalesced(slots) ==> CoalescedBut(slots[i := slots[i].(mode := m)], i)
  {
    hide Multiple;
    var s := slots[i].(mode := m);
    Relabel(slots, created, i, s);
    forall j, a: int | 0 <= j < |slots| && j != i && slots[j].Used() && slots[j].Contains(a)
      ensures !slots[i].Contains(a)
    {
      assert Apart(slots[j], slots[i]);
    }
    var slots' := slots[i := s];
    assert WellPlaced(slots', cf);
    forall j: nat, a: int | j < |slots'| && slots'[j].mode == Allocated && slots'[j].Contains(a)
      ensures a in denied' <==> InGuard(slots'[j], a, cf)
    {
      assert j != i ==> slots'[j] == slots[j];
    }
    forall j: nat, a: int | j < |slots'| && Live(slots'[j]) && slots'[j].Contains(a) ensures a !in freed' {
      assert j != i ==> slots'[j] == slots[j];
    }
  }

  /** Slot j, which starts where slot i ends, is joined to it; both were released. */
  lemma JoinReleased(slots: seq<Slot>, created: seq<Region>, denied: set<int>, freed: set<int>, cf: Config, i: nat,
                     j: nat)
    requires cf.page > 0 && Mem(slots, created, denied, freed, cf)
    requires i < |slots| && j < |slots| && i != j && slots[i].Used() && Released(slots[i].mode)
        && slots[j].mode == slots[i].mode
    requires slots[i].End() == slots[j].internalAddress
    ensures var whole := slots[i].(internalSize := slots[i].internalSize + slots[j].internalSize);
            Mem(slots[i := whole][j := EMPTY], created, denied, freed, cf)
  {
    hide Multiple;
    var whole := slots[i].(internalSize := slots[i].internalSize + slots[j].internalSize);
    Merge(slots, created, i, j, whole);
    SumMultiple(slots[i].internalSize, slots[j].internalSize, cf.page);
  }

  /** The user fields of a released slot are set to its interval. */
  lemma ResetUser(slots: seq<Slot>, created: seq<Region>, denied: set<int>, freed: set<int>, cf: Config, i: nat)
    requires cf.page > 0 && Mem(slots, created, denied, freed, cf) && i < |slots| && Released(slots[i].mode)
    ensures var s := slots[i].(userAddress := slots[i].internalAddress, userSize := slots[i].internalSize);
            Mem(slots[i := s], created, denied, freed, cf)
  {
    hide Multiple;
    var s := slots[i].(userAddress := slots[i].internalAddress, userSize := slots[i].internalSize);
    Relabel(slots, created, i, s);
  }

  /** At most one slot ends at a given address. */
  lemma OneEndsAt(slots: seq<Slot>, created: seq<Region>, i: nat, j: nat)
    requires Partition(slots, created) && i < |slots| && j < |slots| && slots[i].Used() && slots[j].Used()
    ensures slots[i].End() == slots[j].End() ==> i == j
    ensures slots[i].internalAddress == slots[j].internalAddress ==> i == j
  {
    assert Shape(slots[i]) && Shape(slots[j]);
    if i != j { assert Apart(slots[i], slots[j]); }
  }

  lemma AllCoalesced(slots: seq<Slot>, created: seq<Region>, c: nat)
    requires Partition(slots, created) && c < |slots| && slots[c].Used()
    requires CoalescedBut(slots, c) && (slots[c].mode == Free ==> NoFreeBelow(slots, c) && NoFreeAbove(slots, c))
    ensures Coalesced(slots)
  {
    assert Shape(slots[c]);
  }

  // ---------- The three-way join of a release, and the neighbours ----------

  /** The table after slot j was joined to slot i. */
  function Joined(slots: seq<Slot>, i: nat, j: nat): seq<Slot>
    requires i < |slots| && j < |slots|
  {
    slots[i := slots[i].(internalSize := slots[i].internalSize + slots[j].internalSize)][j := EMPTY]
  }

  lemma JoinedBelow(slots: seq<Slot>, p: nat, i: nat)
    requires p < |slots| && i < |slots| && p != i && CoalescedBut(slots, i) && slots[p].mode == slots[i].mode
    ensures CoalescedBut(Joined(slots, p, i), p)
    ensures slots[p].mode == Free ==> NoFreeBelow(Joined(slots, p, i), p)
  {
  }

  lemma JoinedAbove(slots: seq<Slot>, c: nat, n: nat)
    requires c < |slots| && n < |slots| && c != n && CoalescedBut(slots, c) && slots[n].mode == slots[c].mode
    requires slots[c].End() == slots[n].internalAddress && (slots[c].mode == Free ==> NoFreeBelow(slots, c))
    ensures CoalescedBut(Joined(slots, c, n), c)
    ensures slots[c].mode == Free ==> NoFreeBelow(Joined(slots, c, n), c) && NoFreeAbove(Joined(slots, c, n), c)
  {
    assert Joined(slots, c, n)[c].End() == slots[n].End();
  }

  /** The first slot found at the lower end decides whether a free slot lies below. */
  lemma NothingBelow(slots: seq<Slot>, created: seq<Region>, denied: set<int>, freed: set<int>, cf: Config, i: nat,
                     p: nat)
    requires cf.page > 0 && Mem(slots, created, denied, freed, cf) && i < |slots| && slots[i].mode == Free
        && p <= |slots|
    requires p < |slots| ==> slots[p].End() == slots[i].internalAddress && slots[p].mode != Free
    requires forall j :: 0 <= j < p ==> slots[j].End() != slots[i].internalAddress
    ensures NoFreeBelow(slots, i)
  {
    forall k: nat | k < |slots| && k != i && slots[k].mode == Free ensures slots[k].End() != slots[i].internalAddress {
      if slots[k].End() == slots[i].internalAddress {
        assert Shape(slots[i]) && Shape(slots[p]);
        OneEndsAt(slots, created, k, p);
      }
    }
  }

  lemma NothingNext(slots: seq<Slot>, created: seq<Region>, denied: set<int>, freed: set<int>, cf: Config, c: nat,
                    n: nat)
    requires cf.page > 0 && Mem(slots, created, denied, freed, cf) && c < |slots| && slots[c].mode == Free
        && n <= |slots|
    requires n < |slots| ==> slots[n].internalAddress == slots[c].End() && slots[n].mode != Free
    requires forall j :: 0 <= j < n ==> slots[j].internalAddress != slots[c].End()
    ensures NoFreeAbove(slots, c)
  {
    forall k: nat | k < |slots| && k != c && slots[k].mode == Free ensures slots[k].internalAddress != slots[c].End() {
      if slots[k].internalAddress == slots[c].End() {
        assert Shape(slots[c]) && Shape(slots[n]);
        OneEndsAt(slots, created, k, n);
      }
    }
  }

  // ---------- New memory, and the slot table's own pages ----------

  ghost predicate TidyIf(cf: Config, slots: seq<Slot>) { Increasing(cf) ==> Coalesced(slots) }

  /** A new chunk from the system takes the empty slot e. */
  lemma AddChunk(slots: seq<Slot>, created: seq<Region>, denied: set<int>, freed: set<int>, cf: Config, e: nat,
                 size: nat)
    requires GoodConfig(cf) && Mem(slots, created, denied, freed, cf) && TidyIf(cf, slots)
    requires e < |slots| && !slots[e].Used() && size > 0 && Multiple(size, cf.page)
    ensures var s := Slot(0, cf.mmap(created, size), 0, size, Free);
            && Mem(slots[e := s], created + [Region(cf.mmap(created, size), size)], denied, freed, cf)
            && (Increasing(cf) ==> CoalescedAbove(slots[e := s], e))
  {
    hide Multiple;
    var s := Slot(0, cf.mmap(created, size), 0, size, Free);
    AddRegion(slots, created, e, s);
    var slots' := slots[e := s];
    if Increasing(cf) {
      forall j: nat | j < |slots| && j != e && slots[j].mode == Free ensures s.End() != slots[j].internalAddress {
        NothingAbove(slots, created, cf, size, j);
      }
    }
    forall i: nat | i < |slots'| && Live(slots'[i]) ensures i < |slots| && slots'[i] == slots[i] { }
  }

  /** Opening or closing pages inside a slot that is live but not allocated. */
  lemma TablePages(slots: seq<Slot>, created: seq<Region>, denied: set<int>, freed: set<int>, cf: Config, t: nat,
                   pages: set<int>)
    requires cf.page > 0 && Mem(slots, created, denied, freed, cf) && t < |slots| && slots[t].mode == InternalUse
    requires forall a :: a in pages ==> slots[t].Contains(a)
    ensures Mem(slots, created, denied - pages, freed, cf)
    ensures Mem(slots, created, denied + pages, freed, cf)
  {
    hide Multiple, InGuard;
    forall i, a: int | 0 <= i < |slots| && slots[i].mode == Allocated && slots[i].Contains(a) ensures a !in pages {
      assert Apart(slots[i], slots[t]);
    }
    forall i: nat, a: int | i < |slots| && slots[i].mode == Allocated && slots[i].Contains(a)
      ensures (a in denied - pages <==> InGuard(slots[i], a, cf)) && (a in denied + pages <==> InGuard(slots[i], a, cf))
    {
    }
    forall a | a in pages ensures a !in freed { }
  }

  // ---------- A whole allocation ----------

  /** Where memalign puts the user's buffer. */
  function UserAddress(address: nat, userSize: nat, internalSize: nat, cf: Config): nat
    requires userSize + cf.page <= internalSize
  {
    if cf.protectBelow then address + cf.page else address + internalSize - cf.page - userSize
  }

  /** The slot of a new buffer. */
  function NewBuffer(address: nat, userSize: nat, internalSize: nat, m: Mode, cf: Config): Slot
    requires userSize + cf.page <= internalSize
  {
    Slot(UserAddress(address, userSize, internalSize, cf), address, userSize, internalSize, m)
  }

  /** The table after a buffer s was cut from the front of free slot f, the rest going to slot e. */
  function Carved(slots: seq<Slot>, f: nat, e: int, s: Slot): seq<Slot>
    requires f < |slots| && s.internalSize <= slots[f].internalSize
    requires s.internalSize < slots[f].internalSize ==> 0 <= e < |slots|
  {
    if s.internalSize == slots[f].internalSize then slots[f := s]
    else slots[f := s][e := Slot(0, s.End(), 0, slots[f].internalSize - s.internalSize, Free)]
  }

  predicate CanCarve(slots: seq<Slot>, f: nat, e: int, s: Slot) {
    && f < |slots| && slots[f].mode == Free && s.internalAddress == slots[f].internalAddress
    && 0 < s.internalSize <= slots[f].internalSize && Live(s)
    && 0 <= e < |slots| && e != f && !slots[e].Used() && slots[e] == EMPTY
  }

  lemma CarveKeepsMem(slots: seq<Slot>, created: seq<Region>, denied: set<int>, freed: set<int>, cf: Config,
                      f: nat, e: nat, s: Slot, denied': set<int>, freed': set<int>)
    requires cf.page > 0 && Mem(slots, created, denied, freed, cf) && CanCarve(slots, f, e, s)
    requires Placed(s, cf) && Multiple(s.internalSize, cf.page)
    requires cf.page <= s.internalSize
    requires denied' == denied - Addresses(s) + GuardPage(s, cf) && freed' == freed - Addresses(s)
    ensures Mem(Carved(slots, f, e, s), created, denied', freed', cf)
  {
    hide Mem, Placed, Multiple, InGuard;
    if s.internalSize == slots[f].internalSize {
      PlaceLive(slots, created, denied, freed, cf, f, s, denied', freed');
    } else {
      SplitFree(slots, created, denied, freed, cf, f, e, s.internalSize);
      var front := slots[f].(userAddress := 0, internalSize := s.internalSize);
      var rest := Slot(0, slots[f].internalAddress + s.internalSize, 0, slots[f].internalSize - s.internalSize, Free);
      PlaceLive(slots[f := front][e := rest], created, denied, freed, cf, f, s, denied', freed');
      assert slots[f := front][e := rest][f := s] == Carved(slots, f, e, s);
    }
  }

  /** Counts of a carved table, and what it leaves alone. */
  lemma CarveCounts(slots: seq<Slot>, f: nat, e: nat, s: Slot)
    requires CanCarve(slots, f, e, s)
    ensures TotalSize(Carved(slots, f, e, s)) == TotalSize(slots)
    ensures Unused(Carved(slots, f, e, s)) == Unused(slots) - (if s.internalSize < slots[f].internalSize then 1 else 0)
    ensures SameElsewhere(slots, Carved(slots, f, e, s), f)
  {
    TotalUpdate(slots, f, s);
    UnusedUpdate(slots, f, s);
    if s.internalSize < slots[f].internalSize {
      var rest := Slot(0, s.End(), 0, slots[f].internalSize - s.internalSize, Free);
      TotalUpdate(slots[f := s], e, rest);
      UnusedUpdate(slots[f := s], e, rest);
    }
  }

  lemma JoinCounts(slots: seq<Slot>, i: nat, j: nat)
    requires i < |slots| && j < |slots| && i != j && slots[i].Used() && slots[j].Used()
    ensures TotalSize(Joined(slots, i, j)) == TotalSize(slots)
    ensures Unused(Joined(slots, i, j)) == Unused(slots) + 1
  {
    var whole := slots[i].(internalSize := slots[i].internalSize + slots[j].internalSize);
    TotalUpdate(slots, i, whole);
    UnusedUpdate(slots, i, whole);
    TotalUpdate(slots[i := whole], j, EMPTY);
    UnusedUpdate(slots[i := whole], j, EMPTY);
  }

  /** Live slots other than f are the same in both tables. */
  ghost predicate SameElsewhere(slots: seq<Slot>, slots': seq<Slot>, f: nat) {
    |slots| == |slots'| &&
    forall i :: 0 <= i < |slots| && i != f && (Live(slots[i]) || Live(slots'[i])) ==> slots[i] == slots'[i]
  }

  /** The buffers handed out and not yet freed. */
  ghost function Buffers(slots: seq<Slot>): set<Slot> { set s | s in slots && s.mode == Allocated }

  /** One slot changed: what that does to the set of live buffers. */
  lemma BuffersChange(slots: seq<Slot>, slots': seq<Slot>, created: seq<Region>, f: nat)
    requires Partition(slots, created) && f < |slots| && SameElsewhere(slots, slots', f)
    ensures Buffers(slots') == (if slots[f].mode == Allocated then Buffers(slots) - {slots[f]} else Buffers(slots))
                               + (if slots'[f].mode == Allocated then {slots'[f]} else {})
  {
    hide Partition;
    var kept := if slots[f].mode == Allocated then Buffers(slots) - {slots[f]} else Buffers(slots);
    var added := if slots'[f].mode == Allocated then {slots'[f]} else {};
    forall s | s in Buffers(slots') ensures s in kept + added {
      var i :| 0 <= i < |slots'| && slots'[i] == s;
      if i != f {
        assert slots[i] == s;
        if slots[f] == s { OneEndsAt(slots, created, i, f); }
      }
    }
    forall s | s in kept ensures s in Buffers(slots') {
      var i :| 0 <= i < |slots| && slots[i] == s;
      assert slots'[i] == s;
    }
    if slots'[f].mode == Allocated { assert slots'[f] in slots'; }
  }

  // ---------- The first two slots ----------

  /** The table that initialize sets up. */
  function InitialSlots(address: nat, size: nat, page: nat): seq<Slot>
    requires 2 * SLOT_SIZE <= page < size
  {
    [Slot(address, address, page, page, InternalUse),
     Slot(address + page, address + page, size - page, size - page, Free)] + seq(page / SLOT_SIZE - 2, _ => EMPTY)
  }

  lemma InitialMem(cf: Config, size: nat)
    requires GoodConfig(cf) && size > cf.page && Multiple(size, cf.page)
    ensures var a := cf.mmap([], size); var slots := InitialSlots(a, size, cf.page);
            && Mem(slots, [Region(a, size)], Range(a + cf.page, size - cf.page), {}, cf) && TidyIf(cf, slots)
            && Unused(slots) == cf.page / SLOT_SIZE - 2 && TotalSize(slots) == size && Buffers(slots) == {}
  {
    hide Multiple, WellPlaced;
    var a := cf.mmap([], size);
    var used := [Slot(a, a, cf.page, cf.page, InternalUse),
                 Slot(a + cf.page, a + cf.page, size - cf.page, size - cf.page, Free)];
    var more := seq(cf.page / SLOT_SIZE - 2, _ => EMPTY);
    var created := [Region(a, size)];
    assert created == [] + [Region(a, size)];
    forall x: int ensures Covered(used, x) <==> Obtained(created, x) {
      if used[0].Contains(x) || used[1].Contains(x) { assert created[0].Contains(x); }
      if created[0].Contains(x) { assert used[0].Contains(x) || used[1].Contains(x); }
    }
    CountsPair(used[0], used[1]);
    AddEmpty(used, created, more);
    InitialPages(cf, size);
    assert Buffers(used + more) == {};
  }

  lemma CountsPair(a: Slot, b: Slot)
    requires a.Used() && b.Used()
    ensures TotalSize([a, b]) == a.internalSize + b.internalSize && Unused([a, b]) == 0
  {
    assert [a, b] == [a] + [b];
    CountsConcat([a], [b]);
  }

  lemma InitialPages(cf: Config, size: nat)
    requires GoodConfig(cf) && size > cf.page && Multiple(size, cf.page)
    ensures WellPlaced(InitialSlots(cf.mmap([], size), size, cf.page), cf)
  {
    hide Multiple;
    var a := cf.mmap([], size);
    OneMultiple(cf.page);
    SumMultiple(a, cf.page, cf.page);
    SumMultiple(size, cf.page, cf.page);
    var slots := InitialSlots(a, size, cf.page);
    assert slots[0] == Slot(a, a, cf.page, cf.page, InternalUse);
    assert slots[1] == Slot(a + cf.page, a + cf.page, size - cf.page, size - cf.page, Free);
    assert forall i :: 2 <= i < |slots| ==> slots[i] == EMPTY;
  }

  lemma CarveKeeps(slots: seq<Slot>, created: seq<Region>, denied: set<int>, freed: set<int>, cf: Config,
                   f: nat, e: nat, s: Slot, denied': set<int>, freed': set<int>)
    requires cf.page > 0 && Mem(slots, created, denied, freed, cf) && CanCarve(slots, f, e, s)
    requires Placed(s, cf) && Multiple(s.internalSize, cf.page) && cf.page <= s.internalSize
    requires denied' == denied - Addresses(s) + GuardPage(s, cf) && freed' == freed - Addresses(s)
    requires Increasing(cf) ==> CoalescedAbove(slots, f)
    ensures Mem(Carved(slots, f, e, s), created, denied', freed', cf) && TidyIf(cf, Carved(slots, f, e, s))
    ensures TotalSize(Carved(slots, f, e, s)) == TotalSize(slots)
    ensures Unused(Carved(slots, f, e, s)) == Unused(slots) - (if s.internalSize < slots[f].internalSize then 1 else 0)
    ensures SameElsewhere(slots, Carved(slots, f, e, s), f)
  {
    hide Placed, Multiple, CoalescedAbove, WellPlaced, Protection, Increasing;
    CarveKeepsMem(slots, created, denied, freed, cf, f, e, s, denied', freed');
    CarveCounts(slots, f, e, s);
    if Increasing(cf) { CarveCoalesced(slots, created, f, e, s); }
  }

  /** The slot chosen for a buffer was the smallest free slot that is large enough, if there was one. */
  ghost predicate BestFit(slots: seq<Slot>, slots': seq<Slot>, f: nat, size: nat) {
    f < |slots| && f < |slots'| && forall j :: 0 <= j < |slots| && Fits(slots[j], size) ==>
      && Fits(slots[f], size) && slots[f].internalSize <= slots[j].internalSize
      && slots'[f].internalAddress == slots[f].internalAddress
  }

  /** With two unused slots the scan finds what it needs. */
  lemma UnusedSlotsFound(slots: seq<Slot>, created: seq<Region>, denied: set<int>, freed: set<int>, cf: Config,
                         full: int, e0: int, e1: int)
    requires Unused(slots) >= 2 && cf.page > 0 && Mem(slots, created, denied, freed, cf)
    requires e0 >= 0 ==> FirstUnused(slots, e0)
    requires e0 < 0 ==> forall j :: 0 <= j < |slots| ==> slots[j].Used()
    requires e1 >= 0 ==> SecondUnused(slots, e0, e1)
    requires full < 0 && e1 < 0 ==> forall j :: 0 <= j < |slots| && j != e0 ==> slots[j].Used()
    ensures e0 >= 0 && (full < 0 ==> e1 >= 0)
    ensures slots[e0] == EMPTY && (e1 >= 0 ==> slots[e1] == EMPTY)
  {
    hide Disjoint, Covered, Obtained, WellPlaced, Protection;
    var i := UnusedExists(slots);
    if e0 >= 0 {
      var k := TwoUnusedExist(slots, e0);
    }
  }

  /**
   * The chosen slot f, taken from the scan or filled with a new chunk, was best, and no live slot changed meanwhile.
   */
  lemma ChosenIsBest(before: seq<Slot>, ready: seq<Slot>, after: seq<Slot>, full: int, f: nat, size: nat)
    requires f < |before| && !Live(before[f]) && |ready| == |before| && ready == before[f := ready[f]]
    requires full >= 0 ==> full == f && ready == before && Fits(before[f], size)
    requires full >= 0 ==> forall j :: 0 <= j < |before| && Fits(before[j], size) ==>
        before[f].internalSize <= before[j].internalSize
    requires full < 0 ==> forall j :: 0 <= j < |before| ==> !Fits(before[j], size)
    requires SameElsewhere(ready, after, f) && after[f].internalAddress == ready[f].internalAddress
    ensures SameElsewhere(before, after, f) && BestFit(before, after, f, size)
  {
  }

  lemma TidyAbove(cf: Config, slots: seq<Slot>, f: nat)
    requires TidyIf(cf, slots)
    ensures Increasing(cf) ==> CoalescedAbove(slots, f)
  {
    hide Increasing;
  }

  /** All live slots are the same in both tables. */
  ghost predicate SameLive(slots: seq<Slot>, slots': seq<Slot>) {
    |slots| == |slots'| &&
    forall i :: 0 <= i < |slots| && (Live(slots[i]) || Live(slots'[i])) ==> slots[i] == slots'[i]
  }

  lemma JoinKeeps(slots: seq<Slot>, created: seq<Region>, denied: set<int>, freed: set<int>, cf: Config, i: nat, j: nat)
    requires cf.page > 0 && Mem(slots, created, denied, freed, cf)
    requires i < |slots| && j < |slots| && Released(slots[i].mode) && slots[j].mode == slots[i].mode
    requires slots[i].End() == slots[j].internalAddress
    ensures Mem(Joined(slots, i, j), created, denied, freed, cf) && SameLive(slots, Joined(slots, i, j)) && i != j
    ensures TotalSize(Joined(slots, i, j)) == TotalSize(slots) && Unused(Joined(slots, i, j)) == Unused(slots) + 1
  {
    hide Mem, SameLive;
    JoinedApart(slots, created, denied, freed, cf, i, j);
    JoinReleased(slots, created, denied, freed, cf, i, j);
    JoinCounts(slots, i, j);
  }

  lemma JoinedApart(slots: seq<Slot>, created: seq<Region>, denied: set<int>, freed: set<int>, cf: Config, i: nat,
                    j: nat)
    requires cf.page > 0 && Mem(slots, created, denied, freed, cf) && i < |slots| && j < |slots|
    requires Released(slots[i].mode) && slots[j].mode == slots[i].mode && slots[i].End() == slots[j].internalAddress
    ensures i != j && SameLive(slots, Joined(slots, i, j))
  {
    hide Mem, SameLive;
    ReleasedShape(slots, created, denied, freed, cf, j);
    JoinedSame(slots, i, j);
  }

  lemma JoinedSame(slots: seq<Slot>, i: nat, j: nat)
    requires i < |slots| && j < |slots| && Released(slots[i].mode) && Released(slots[j].mode)
    ensures SameLive(slots, Joined(slots, i, j))
  {
  }

  lemma ReleaseKeeps(slots: seq<Slot>, created: seq<Region>, denied: set<int>, freed: set<int>, cf: Config, i: nat,
                     m: Mode)
    requires cf.page > 0 && Mem(slots, created, denied, freed, cf) && i < |slots| && Live(slots[i]) && Released(m)
    requires TidyIf(cf, slots)
    ensures var slots' := slots[i := slots[i].(mode := m)];
            && Mem(slots', created, denied + Addresses(slots[i]), freed + Addresses(slots[i]), cf)
            && (Increasing(cf) ==> CoalescedBut(slots', i)) && SameElsewhere(slots, slots', i)
            && TotalSize(slots') == TotalSize(slots) && Unused(slots') == Unused(slots)
  {
    hide Mem, Increasing, Coalesced, CoalescedBut;
    ReleaseLive(slots, created, denied, freed, cf, i, m, denied + Addresses(slots[i]), freed + Addresses(slots[i]));
    TotalUpdate(slots, i, slots[i].(mode := m));
    UnusedUpdate(slots, i, slots[i].(mode := m));
  }

  lemma ResetKeeps(slots: seq<Slot>, created: seq<Region>, denied: set<int>, freed: set<int>, cf: Config, i: nat)
    requires cf.page > 0 && Mem(slots, created, denied, freed, cf) && i < |slots| && Released(slots[i].mode)
    requires Increasing(cf) ==>
        CoalescedBut(slots, i) && (slots[i].mode == Free ==> NoFreeBelow(slots, i) && NoFreeAbove(slots, i))
    ensures var s := slots[i].(userAddress := slots[i].internalAddress, userSize := slots[i].internalSize);
            var slots' := slots[i := s];
            && Mem(slots', created, denied, freed, cf) && TidyIf(cf, slots') && SameLive(slots, slots')
            && TotalSize(slots') == TotalSize(slots) && Unused(slots') == Unused(slots)
  {
    hide Increasing, WellPlaced, Protection;
    var s := slots[i].(userAddress := slots[i].internalAddress, userSize := slots[i].internalSize);
    ResetUser(slots, created, denied, freed, cf, i);
    TotalUpdate(slots, i, s);
    UnusedUpdate(slots, i, s);
    if Increasing(cf) { AllCoalesced(slots, created, i); }
  }

  lemma SameThenLive(a: seq<Slot>, b: seq<Slot>, c: seq<Slot>, f: nat)
    requires f < |a| && SameElsewhere(a, b, f) && !Live(b[f]) && SameLive(b, c)
    ensures SameElsewhere(a, c, f) && !Live(c[f])
  {
  }

  lemma SameLiveTwice(a: seq<Slot>, b: seq<Slot>, c: seq<Slot>)
    requires SameLive(a, b) && SameLive(b, c)
    ensures SameLive(a, c)
  {
  }

  lemma LiveStays(a: seq<Slot>, b: seq<Slot>, i: nat)
    requires SameLive(a, b) && i < |a| && Live(a[i])
    ensures |b| == |a| && b[i] == a[i]
  {
  }

  lemma ReleasedShape(slots: seq<Slot>, created: seq<Region>, denied: set<int>, freed: set<int>, cf: Config, i: nat)
    requires cf.page > 0 && Mem(slots, created, denied, freed, cf) && i < |slots| && slots[i].Used()
    ensures slots[i].internalAddress > 0 && slots[i].internalSize > 0
  {
    hide Disjoint, Covered, Obtained, WellPlaced, Protection;
    assert Shape(slots[i]);
  }

  /** Joining a slot to the one below it does not change which slot is found above it. */
  lemma NextAfterJoin(slots: seq<Slot>, joined: seq<Slot>, p: nat, i: nat, n: nat, end: nat)
    requires i < |slots| && slots[i].internalAddress < end && n <= |slots|
    requires n < |slots| ==> slots[n].internalAddress == end
    requires forall j :: 0 <= j < n ==> slots[j].internalAddress != end
    requires joined == slots ||
             (p < |slots| && p != i && slots[p].End() == slots[i].internalAddress && joined == Joined(slots, p, i))
    ensures n <= |joined| && (n < |joined| ==> joined[n].internalAddress == end)
    ensures forall j :: 0 <= j < n ==> joined[j].internalAddress != end
  {
  }

  // ---------- What a caller of the allocator relies on ----------

  /** An address that UdmFree accepts. */
  ghost predicate Owned(slots: seq<Slot>, address: nat, internalUse: bool) {
    exists i :: 0 <= i < |slots| && Freeable(slots[i], internalUse) && slots[i].userAddress == address
  }

  predicate Freeable(s: Slot, internalUse: bool) { s.mode == Allocated || (internalUse && s.mode == InternalUse) }

  /** A slot that may not be freed has the address of a live buffer and comes before it in the table. */
  ghost predicate Shadowed(slots: seq<Slot>, address: nat) {
    exists i, j :: 0 <= j < i < |slots| && slots[i].mode == Allocated && slots[j].mode != Allocated
                   && slots[i].userAddress == address && slots[j].userAddress == address
  }

  /** The lookup finds the live buffer of an address if and only if there is one and no such slot hides it. */
  lemma LookupSucceedsIff(slots: seq<Slot>, created: seq<Region>, denied: set<int>, freed: set<int>, cf: Config,
                          address: nat, i: nat)
    requires cf.page > 0 && Mem(slots, created, denied, freed, cf) && address != 0 && i <= |slots|
    requires i < |slots| ==> slots[i].userAddress == address
    requires forall j :: 0 <= j < i ==> slots[j].userAddress != address
    ensures i < |slots| && slots[i].mode == Allocated <==> Owned(slots, address, false) && !Shadowed(slots, address)
  {
    hide Mem;
    if Owned(slots, address, false) {
      var k: nat :| k < |slots| && Freeable(slots[k], false) && slots[k].userAddress == address;
      assert i <= k;
    }
    if i < |slots| && slots[i].mode == Allocated && Shadowed(slots, address) {
      var k: nat, j: nat :| j < k < |slots| && slots[k].mode == Allocated && slots[j].mode != Allocated
                            && slots[k].userAddress == address && slots[j].userAddress == address;
      OneLiveOwner(slots, created, denied, freed, cf, i, k);
    }
    if i < |slots| && slots[i].mode == Allocated { assert Freeable(slots[i], false); }
  }

  /** The condition in terms of the buffer: it is empty, its guard page lies below, and the slot behind it hides it. */
  lemma ShadowedIff(slots: seq<Slot>, created: seq<Region>, denied: set<int>, freed: set<int>, cf: Config, i: nat)
    requires cf.page > 0 && Mem(slots, created, denied, freed, cf) && i < |slots| && slots[i].mode == Allocated
    requires slots[i].userAddress != 0
    ensures Shadowed(slots, slots[i].userAddress) <==>
              cf.protectBelow && slots[i].userSize == 0 &&
              exists j :: 0 <= j < i && slots[j].mode != Allocated && slots[j].userAddress == slots[i].userAddress
                          && slots[j].internalAddress == slots[i].End()
  {
    hide Mem;
    var a := slots[i].userAddress;
    if Shadowed(slots, a) {
      var k: nat, j: nat :| j < k < |slots| && slots[k].mode == Allocated && slots[j].mode != Allocated
                            && slots[k].userAddress == a && slots[j].userAddress == a;
      OneLiveOwner(slots, created, denied, freed, cf, i, k);
      HidingSlot(slots, created, denied, freed, cf, i, j);
    }
  }

  /** A slot that is not allocated and has the address of a live buffer starts behind its guard page. */
  lemma HidingSlot(slots: seq<Slot>, created: seq<Region>, denied: set<int>, freed: set<int>, cf: Config, i: nat,
                   j: nat)
    requires cf.page > 0 && Mem(slots, created, denied, freed, cf) && i < |slots| && j < |slots| && i != j
    requires slots[i].mode == Allocated && slots[i].userAddress == slots[j].userAddress != 0
    ensures cf.protectBelow && slots[i].userSize == 0 && slots[j].internalAddress == slots[i].End()
  {
    hide Partition, Protection, AtHome, PageAligned;
    LookupFindsOwner(slots, created, cf, i, j);
    assert Placed(slots[i], cf);
  }

  /** The slot table is found under its address: it is the first slot, or its address lies inside its slot. */
  lemma TableIsFound(slots: seq<Slot>, created: seq<Region>, denied: set<int>, freed: set<int>, cf: Config, t: nat,
                     i: nat)
    requires cf.page > 0 && Mem(slots, created, denied, freed, cf) && t < |slots| && i <= t
    requires slots[t].Contains(slots[t].userAddress) && slots[i].userAddress == slots[t].userAddress != 0
    requires t == 0 || !cf.protectBelow || slots[t].internalAddress < slots[t].userAddress
    ensures i == t
  {
    hide Partition, Protection, WellPlaced;
    LookupFindsOwner(slots, created, cf, i, t);
  }

  /** Live buffers: apart, accessible, never among freed memory, and shut off at the guarded end, on a page boundary. */
  lemma LiveBuffersAreSafe(slots: seq<Slot>, created: seq<Region>, denied: set<int>, freed: set<int>, cf: Config,
                           s: Slot)
    requires cf.page > 0 && Mem(slots, created, denied, freed, cf) && s in Buffers(slots)
    ensures forall t :: t in Buffers(slots) && t != s ==> Apart(s, t)
    ensures forall a: int :: s.userAddress <= a < s.userAddress + s.userSize ==>
        s.Contains(a) && a !in denied && a !in freed
    ensures !cf.protectBelow ==>
              Multiple(s.userAddress + s.userSize, cf.page) &&
              forall a: int :: s.userAddress + s.userSize <= a < s.userAddress + s.userSize + cf.page ==> a in denied
    ensures cf.protectBelow ==>
              Multiple(s.userAddress, cf.page) && forall a: int :: s.userAddress - cf.page <= a < s.userAddress ==>
                a in denied
  {
    hide Multiple, Covered, Obtained;
    var i: nat :| i < |slots| && slots[i] == s;
    forall t | t in Buffers(slots) && t != s ensures Apart(s, t) {
      var j: nat :| j < |slots| && slots[j] == t;
    }
    OneMultiple(cf.page);
    SumMultiple(s.internalAddress, s.internalSize, cf.page);
    SumMultiple(s.internalAddress + s.internalSize, cf.page, cf.page);
    SumMultiple(s.internalAddress, cf.page, cf.page);
    forall a: int | s.Contains(a) ensures (a in denied <==> InGuard(s, a, cf)) && a !in freed {
      assert slots[i].Contains(a);
    }
  }

  /** Empty slots at the end of the table change nothing else. */
  lemma GrowKeeps(slots: seq<Slot>, created: seq<Region>, denied: set<int>, freed: set<int>, cf: Config, n: nat)
    requires cf.page > 0 && Mem(slots, created, denied, freed, cf) && TidyIf(cf, slots)
    ensures var slots' := slots + seq(n, _ => EMPTY);
            && Mem(slots', created, denied, freed, cf) && TidyIf(cf, slots') && Buffers(slots') == Buffers(slots)
            && Unused(slots') == Unused(slots) + n && TotalSize(slots') == TotalSize(slots)
  {
    hide Partition, Increasing, Multiple;
    var more := seq(n, _ => EMPTY);
    AddEmpty(slots, created, more);
    var slots' := slots + more;
    forall i: nat | i < |slots'| ensures slots'[i] == if i < |slots| then slots[i] else EMPTY { }
    forall s | s in Buffers(slots') ensures s in Buffers(slots) { }
    forall s | s in Buffers(slots) ensures s in slots' { }
  }

  /** With a page size that is a multiple of the alignment, aligned sizes give aligned addresses. */
  lemma AlignedAddress(slots: seq<Slot>, created: seq<Region>, denied: set<int>, freed: set<int>, cf: Config, f: nat,
                       internalAddress: nat, userSize: nat, internalSize: nat, alignment: nat)
    requires cf.page > 0 && Mem(slots, created, denied, freed, cf) && f < |slots| && slots[f].Used()
    requires slots[f].internalAddress == internalAddress && slots[f].internalSize == internalSize
    requires alignment > 0 && Multiple(cf.page, alignment) && Multiple(userSize, alignment)
        && userSize + cf.page <= internalSize
    requires !cf.protectBelow
    ensures Multiple(UserAddress(internalAddress, userSize, internalSize, cf), alignment)
  {
    assert Multiple(internalAddress, cf.page) && Multiple(internalSize, cf.page);
    hide Multiple;
    MultipleTwice(internalAddress, cf.page, alignment);
    MultipleTwice(internalSize, cf.page, alignment);
    SumMultiple(internalAddress, internalSize, alignment);
    SumMultiple(internalAddress + internalSize, cf.page, alignment);
    SumMultiple(internalAddress + internalSize - cf.page, userSize, alignment);
  }

  // ---------- Contracts of the calls ----------

  /** Slot f holds a buffer of this size at this address. */
  ghost predicate Made(slots: seq<Slot>, f: nat, address: nat, size: nat, m: Mode) {
    && f < |slots| && slots[f].userAddress == address != 0 && slots[f].userSize == size && slots[f].mode == m
    && slots[f].internalAddress <= address && address + size <= slots[f].End()
  }

  /** Slot f became live and no other live slot changed. */
  ghost predicate OnlyNew(slots: seq<Slot>, slots': seq<Slot>, f: nat) {
    f < |slots| && SameElsewhere(slots, slots', f) && !Live(slots[f])
  }

  /** The live buffers are those of before and the new one, which was not among them. */
  ghost predicate Handed(before: set<Slot>, slots: seq<Slot>, f: nat) {
    f < |slots| && slots[f] !in before && Buffers(slots) == before + {slots[f]}
  }

  lemma NewIsHanded(slots: seq<Slot>, slots': seq<Slot>, created: seq<Region>, denied: set<int>, freed: set<int>,
                    cf: Config, f: nat)
    requires cf.page > 0 && Mem(slots', created, denied, freed, cf) && OnlyNew(slots, slots', f)
        && slots'[f].mode == Allocated
    ensures Handed(Buffers(slots), slots', f)
  {
    hide WellPlaced, Protection;
    forall s | s in Buffers(slots') ensures s in Buffers(slots) + {slots'[f]} {
      var i: nat :| i < |slots'| && slots'[i] == s;
      assert i != f ==> slots[i] == s;
    }
    forall s | s in Buffers(slots) ensures s in Buffers(slots') && s != slots'[f] {
      var i: nat :| i < |slots| && slots[i] == s;
      assert slots'[i] == s && i != f;
      if s == slots'[f] { OneEndsAt(slots', created, i, f); }
    }
    assert slots'[f] in slots';
  }

  /** At most slot t is in internal use. */
  ghost predicate OnlyTable(slots: seq<Slot>, t: nat) {
    forall i :: 0 <= i < |slots| && slots[i].mode == InternalUse ==> i == t
  }

  lemma OnlyTableStays(slots: seq<Slot>, slots': seq<Slot>, f: nat, t: nat)
    requires OnlyTable(slots, t) && OnlyNew(slots, slots', f) && slots'[f].mode == Allocated
    ensures OnlyTable(slots', t)
  {
  }

  /** The table moved: from s0 a new table f was made, empty slots were added, the old table t was freed. */
  lemma TableMoved(s0: seq<Slot>, s1: seq<Slot>, s2: seq<Slot>, s3: seq<Slot>, f: nat, t: nat)
    requires t < |s0| && s0[t].mode == InternalUse && OnlyTable(s0, t) && OnlyNew(s0, s1, f)
        && s1[f].mode == InternalUse
    requires |s1| <= |s2| && s2[..|s1|] == s1 && forall i :: |s1| <= i < |s2| ==> s2[i] == EMPTY
    requires SameElsewhere(s2, s3, t) && !Live(s3[t])
    ensures OnlyTable(s3, f) && Buffers(s3) == Buffers(s0)
  {
    forall i: nat | i < |s2| ensures s2[i] == if i < |s1| then s1[i] else EMPTY {
      if i < |s1| { assert s2[..|s1|][i] == s1[i]; }
    }
    forall s | s in Buffers(s0) ensures s in Buffers(s3) {
      var i: nat :| i < |s0| && s0[i] == s;
      assert s1[i] == s && s2[i] == s && s3[i] == s;
    }
    forall s | s in Buffers(s3) ensures s in Buffers(s0) {
      var i: nat :| i < |s3| && s3[i] == s;
      assert s2[i] == s && s1[i] == s && s0[i] == s;
    }
  }

  lemma LiveIsKept(slots: seq<Slot>, slots': seq<Slot>, f: nat, t: nat)
    requires OnlyNew(slots, slots', f) && t < |slots| && Live(slots[t])
    ensures |slots'| == |slots| && slots'[t] == slots[t] && f != t
  {
  }

  lemma FreedIsGone(slots: seq<Slot>, slots': seq<Slot>, created: seq<Region>, denied: set<int>, freed: set<int>,
                    cf: Config,
                    i: nat, t: nat)
    requires cf.page > 0 && Mem(slots, created, denied, freed, cf) && i < |slots| && slots[i].mode == Allocated
    requires SameElsewhere(slots, slots', i) && !Live(slots'[i])
    ensures slots[i] in Buffers(slots) && Buffers(slots') == Buffers(slots) - {slots[i]}
    ensures OnlyTable(slots, t) ==> OnlyTable(slots', t)
  {
    hide WellPlaced, Protection;
    BuffersChange(slots, slots', created, i);
    assert slots[i] in slots;
  }

  /** The byte at a after a move: the first kept bytes are copied, the others are zero, no byte elsewhere changes. */
  function MovedByte(before: int -> int, from: nat, to: nat, kept: nat, size: nat, a: int): int {
    if to <= a < to + kept then before(a - to + from) else if to <= a < to + size then 0 else before(a)
  }

  ghost predicate Moved(before: int -> int, after: int -> int, from: nat, to: nat, kept: nat, size: nat) {
    forall a: int :: after(a) == MovedByte(before, from, to, kept, size, a)
  }

  /** memcpy of two buffers that do not overlap. */
  function Copied(m: int -> int, from: nat, to: nat, n: nat): int -> int {
    (a: int) => if to <= a < to + n then m(a - to + from) else m(a)
  }

  /** memset to zero. */
  function Zeroed(m: int -> int, to: nat, n: nat): int -> int {
    (a: int) => if to <= a < to + n then 0 else m(a)
  }

  lemma ByteAfter(m: int -> int, from: nat, to: nat, kept: nat, size: nat, a: int)
    requires kept <= size
    ensures Zeroed(Copied(m, from, to, kept), to + kept, size - kept)(a) == MovedByte(m, from, to, kept, size, a)
    ensures kept == size ==> Copied(m, from, to, kept)(a) == MovedByte(m, from, to, kept, size, a)
  {
    CopiedByte(m, from, to, kept, a);
    ZeroedByte(Copied(m, from, to, kept), to + kept, size - kept, a);
    hide Copied, Zeroed;
  }

  lemma CopiedByte(m: int -> int, from: nat, to: nat, n: nat, a: int)
    ensures Copied(m, from, to, n)(a) == if to <= a < to + n then m(a - to + from) else m(a)
  {
  }

  lemma ZeroedByte(m: int -> int, to: nat, n: nat, a: int)
    ensures Zeroed(m, to, n)(a) == if to <= a < to + n then 0 else m(a)
  {
  }

  lemma CopyThenZero(m: int -> int, from: nat, to: nat, kept: nat, size: nat)
    requires kept <= size
    ensures Moved(m, Zeroed(Copied(m, from, to, kept), to + kept, size - kept), from, to, kept, size)
    ensures kept == size ==> Moved(m, Copied(m, from, to, kept), from, to, kept, size)
  {
    hide Copied, Zeroed, MovedByte;
    forall a: int
      ensures Zeroed(Copied(m, from, to, kept), to + kept, size - kept)(a) == MovedByte(m, from, to, kept, size, a)
      ensures kept == size ==> Copied(m, from, to, kept)(a) == MovedByte(m, from, to, kept, size, a)
    {
      ByteAfter(m, from, to, kept, size, a);
    }
  }

  function Min(a: nat, b: nat): nat { if a < b then a else b }

  /** Reallocation of a live buffer: which buffer was found and freed. */
  lemma OldIsReplaced(s0: seq<Slot>, s1: seq<Slot>, created: seq<Region>, denied: set<int>, freed: set<int>, cf: Config,
                      f: nat, i: nat, address: nat)
    requires cf.page > 0 && Mem(s1, created, denied, freed, cf) && Handed(Buffers(s0), s1, f) && f < |s1|
        && address != 0
    requires i < |s1| && s1[i].mode == Allocated && s1[i].userAddress == address
    ensures Owned(s0, address, false) ==> s1[i] in Buffers(s0) && s1[i] != s1[f]
    ensures !Owned(s0, address, false) ==> s1[i] == s1[f]
  {
    hide Mem;
    assert s1[i] in Buffers(s1);
    if Owned(s0, address, false) {
      var j: nat :| j < |s0| && Freeable(s0[j], false) && s0[j].userAddress == address;
      assert s0[j] in Buffers(s0) && s0[j] in Buffers(s1);
      var k: nat :| k < |s1| && s1[k] == s0[j];
      OneLiveOwner(s1, created, denied, freed, cf, k, i);
    } else {
      assert forall j :: 0 <= j < |s0| && s0[j].mode == Allocated ==> Freeable(s0[j], false);
    }
  }

  lemma OwnedIsBuffer(slots: seq<Slot>, address: nat)
    ensures Owned(slots, address, false) <==> exists s :: s in Buffers(slots) && s.userAddress == address
  {
    if Owned(slots, address, false) {
      var j: nat :| j < |slots| && Freeable(slots[j], false) && slots[j].userAddress == address;
      assert slots[j] in Buffers(slots);
    }
    if exists s :: s in Buffers(slots) && s.userAddress == address {
      var s :| s in Buffers(slots) && s.userAddress == address;
      var k: nat :| k < |slots| && slots[k] == s;
      assert Freeable(slots[k], false);
    }
  }

  /** When a buffer was handed out its address is owned, and those that were owned before. */
  lemma OwnedAfter(s0: seq<Slot>, s1: seq<Slot>, f: nat, address: nat)
    requires Handed(Buffers(s0), s1, f)
    ensures f < |s1| && (Owned(s1, address, false) <==> Owned(s0, address, false) || s1[f].userAddress == address)
  {
    hide Buffers, Owned;
    OwnedIsBuffer(s0, address);
    OwnedIsBuffer(s1, address);
    assert s1[f] in Buffers(s1);
  }

  /**
   * A buffer's address lies in its own slot except for an empty buffer behind its guard page, whose address is where
   * the next slot starts: there a lookup can find the neighbour instead, as ShadowedIff says.
   */
  lemma AddressInOwnSlotIff(address: nat, userSize: nat, m: Mode, cf: Config)
    requires cf.page > 0
    ensures var s := NewBuffer(address, userSize, RoundUp(userSize + cf.page, cf.page), m, cf);
            && (s.Contains(s.userAddress) <==> !(cf.protectBelow && userSize == 0))
            && (cf.protectBelow && userSize == 0 ==> s.userAddress == s.End())
  {
    if userSize == 0 {
      OneMultiple(cf.page);
    } else {
      RoundUpIsMultiple(userSize + cf.page, cf.page);
    }
  }

  // ---------- A system that meets the assumptions ----------

  function Top(created: seq<Region>): (t: nat)
    ensures forall i :: 0 <= i < |created| ==> created[i].address + created[i].size <= t
  {
    if created == [] then 0
    else
      var rest, last := Top(created[..|created| - 1]), created[|created| - 1];
      assert forall i :: 0 <= i < |created| - 1 ==> created[..|created| - 1][i] == created[i];
      if rest < last.address + last.size then last.address + last.size else rest
  }

  /** Handing out the next page-aligned address above all earlier memory is such a system. */
  lemma BumpSystem(page: nat, alignment: nat, protectFree: bool)
    requires 7 * SLOT_SIZE <= page < CREATION
    ensures var mmap := (created, size) => RoundUp(Top(created), page) + page;
            var cf := Config(page, alignment, protectFree, false, true, mmap);
            GoodConfig(cf) && Increasing(cf)
  {
    hide Top, Multiple, RoundUp;
    var mmap := (created, size) => RoundUp(Top(created), page) + page;
    var cf := Config(page, alignment, protectFree, false, true, mmap);
    forall created: seq<Region>, size: nat
      ensures Multiple(cf.mmap(created, size), page) && cf.mmap(created, size) >= Top(created) + page
      ensures forall a: int :: cf.mmap(created, size) <= a < cf.mmap(created, size) + size ==> !Obtained(created, a)
    {
      OneMultiple(page);
      RoundUpIsMultiple(Top(created), page);
      SumMultiple(RoundUp(Top(created), page), page, page);
    }
    assert GoodSystem(cf);
  }
}
