// The demand-grown kernel heap: `map_and_commit`, `init`, `grow`, and whole runs
// in which page faults, drivers, mappings elsewhere and stores interleave.
module Heap {
  import opened Wrappers
  import opened Bits
  import opened Bitmaps
  import opened FrameAllocator
  import opened PageTables
  import opened TableEdits
  import opened Paging
  import opened HeapWindow

  // Frames that must be left over for the window's tables and one unfinished mapping.
  const RESERVE: nat := WINDOW_TABLES + 3

  datatype BackResult = Backing | NoFrame | BackPanic

  datatype GrowResult = Grown | Refused | GrowPanic

  // What can happen while the system runs: the program stores a word into the heap window, a driver
  // takes frames, something is mapped or unmapped elsewhere, the processor caches a walk.
  datatype Event =
    | Touch(addr: nat, word: Word)
    | TakeFrames(count: nat)
    | MapElsewhere(virt: nat, phys: nat, flags: nat)
    | UnmapElsewhere(virt: nat)
    | Fill(virt: nat)

  ghost predicate Allowed(m: seq<Table>, root: nat, e: Event) {
    match e
    case Touch(addr, _) => HEAP_START <= addr < HEAP_START + HEAP_MAX
    case TakeFrames(_) => true
    case MapElsewhere(virt, phys, flags) =>
      Outside(Key(virt)) && NoHuge(m, root, Key(virt)) && phys < WORD_LIMIT && flags < WORD_LIMIT
    case UnmapElsewhere(virt) => Outside(Key(virt)) && NoHuge(m, root, Key(virt))
    case Fill(_) => true
  }

  // Word `addr / 8 % 512` of the window page that `addr` falls in holds w.
  ghost predicate Remembers(m: seq<Table>, root: nat, addr: nat, w: Word) {
    && HEAP_START <= addr < HEAP_START + HEAP_MAX
    && var n := (addr - HEAP_START) / FRAME_SIZE;
       n in HeapPages(m, root) && BackingFrame(m, root, n) < |m| && m[BackingFrame(m, root, n)][addr / 8 % 512] == w
  }

  predicate SameWord(a: nat, b: nat) {
    a >= HEAP_START && b >= HEAP_START
    && (a - HEAP_START) / FRAME_SIZE == (b - HEAP_START) / FRAME_SIZE && a / 8 % 512 == b / 8 % 512
  }

  // The pages of the window keep their contents.
  ghost predicate KeepsWords(m0: seq<Table>, m1: seq<Table>, root: nat) {
    && |m1| == |m0|
    && forall n | n in HeapPages(m0, root) ::
         n in HeapPages(m1, root) && BackingFrame(m1, root, n) == BackingFrame(m0, root, n)
         && (BackingFrame(m0, root, n) < |m0| ==> m1[BackingFrame(m0, root, n)] == m0[BackingFrame(m0, root, n)])
  }

  lemma StillRemembers(m0: seq<Table>, m1: seq<Table>, root: nat, addr: nat, w: Word)
    requires KeepsWords(m0, m1, root) && Remembers(m0, root, addr, w)
    ensures Remembers(m1, root, addr, w)
  {
    hide HeapPages, BackingFrame;
  }

  lemma StoreRemembers(m0: seq<Table>, m1: seq<Table>, root: nat, addr: nat, w: Word, free: set<nat>,
                       reserved: set<nat>)
    requires HEAP_START <= addr < HEAP_START + HEAP_MAX && Backed(m0, root, free, reserved) && Unaffected(m0, m1, root)
    requires var n := (addr - HEAP_START) / FRAME_SIZE; n in HeapPages(m0, root)
    requires var f := BackingFrame(m0, root, (addr - HEAP_START) / FRAME_SIZE);
             f < |m0| && m1 == m0[f := m0[f][addr / 8 % 512 := w]]
    ensures Remembers(m1, root, addr, w)
    ensures forall a, v :: Remembers(m0, root, a, v) && !SameWord(a, addr) ==> Remembers(m1, root, a, v)
  {
    hide HeapPages, BackingFrame, TableAt, NoHuge, IsTable;
  }

  // Events i is the last of the first n to store into its word.
  ghost predicate LastStore(events: seq<Event>, n: nat, i: nat) {
    && i < n <= |events| && events[i].Touch?
    && forall j | i < j < n :: events[j].Touch? ==> !SameWord(events[i].addr, events[j].addr)
  }

  // Of the first n events, every store that no later one overwrote can be read back.
  ghost predicate AllRemembered(m: seq<Table>, root: nat, events: seq<Event>, n: nat) {
    forall i: nat :: LastStore(events, n, i) ==> Remembers(m, root, events[i].addr, events[i].word)
  }

  lemma NothingToRemember(m: seq<Table>, root: nat, events: seq<Event>)
    ensures AllRemembered(m, root, events, 0)
  {
  }

  lemma RememberStep(m0: seq<Table>, m1: seq<Table>, root: nat, events: seq<Event>, i: nat)
    requires i < |events| && AllRemembered(m0, root, events, i)
    requires events[i].Touch? ==> Remembers(m1, root, events[i].addr, events[i].word)
    requires events[i].Touch? ==>
               forall a, v :: Remembers(m0, root, a, v) && !SameWord(a, events[i].addr) ==> Remembers(m1, root, a, v)
    requires !events[i].Touch? ==> m1 == m0 || KeepsWords(m0, m1, root)
    ensures AllRemembered(m1, root, events, i + 1)
  {
    hide Remembers, KeepsWords, SameWord;
    forall j: nat | LastStore(events, i + 1, j) ensures Remembers(m1, root, events[j].addr, events[j].word) {
      if j < i {
        assert LastStore(events, i, j);
        if !events[i].Touch? && m1 != m0 { StillRemembers(m0, m1, root, events[j].addr, events[j].word); }
      }
    }
  }

  // The most frames an event asks for, besides the window's tables.
  function Cost(e: Event): nat {
    match e
    case Touch(_, _) => 1
    case TakeFrames(count) => count
    case MapElsewhere(_, _, _) => 3
    case UnmapElsewhere(_) => 0
    case Fill(_) => 0
  }

  function Demand(events: seq<Event>): nat {
    if events == [] then 0 else Demand(events[..|events| - 1]) + Cost(events[|events| - 1])
  }

  lemma NoDemand()
    ensures forall events: seq<Event> :: Demand(events[..0]) == 0
  {
  }

  lemma {:induction false} DemandStep(events: seq<Event>, i: nat)
    requires i < |events|
    ensures Demand(events[..i + 1]) == Demand(events[..i]) + Cost(events[i])
    ensures Demand(events[..i + 1]) <= Demand(events)
    decreases |events| - i
  {
    assert events[..i + 1][..i] == events[..i];
    if i + 1 < |events| {
      DemandStep(events, i + 1);
    } else {
      assert events[..i + 1] == events;
    }
  }

  lemma AtMostThree(m: seq<Table>, root: nat, k: seq<nat>)
    requires IsKey(k)
    ensures Missing(m, root, k) <= 3 && |TablesAbove(m, root, k)| <= 3
  {
    PrefixesOfKey(k);
  }

  lemma AtMostFewer(a: set<nat>, b: set<nat>)
    ensures |a| - |b| <= |a - b|
  {
    UnionSize(a - b, b);
    SubsetSize(a, a - b + b);
  }

  lemma TakenAtMost(a: set<nat>, start: nat, count: nat)
    ensures |a| - count <= |a - Range(start, count)|
  {
    RangeSize(start, count);
    AtMostFewer(a, Range(start, count));
  }

  // What every event keeps: pages once backed stay backed by the same frames, and the bitmap's frames
  // are never written.
  ghost predicate Evolves(m0: seq<Table>, m1: seq<Table>, root: nat, reserved: set<nat>) {
    && |m1| == |m0| && HeapPages(m0, root) <= HeapPages(m1, root)
    && (forall i | i in HeapPages(m0, root) :: BackingFrame(m1, root, i) == BackingFrame(m0, root, i))
    && (forall g | g in reserved && g < |m0| :: m1[g] == m0[g])
    && (forall l | IsKey(l) && NoHuge(m0, root, l) :: NoHuge(m1, root, l))
  }

  lemma EvolvesTrans(m0: seq<Table>, m1: seq<Table>, m2: seq<Table>, root: nat, reserved: set<nat>)
    requires Evolves(m0, m1, root, reserved) && Evolves(m1, m2, root, reserved)
    ensures Evolves(m0, m2, root, reserved)
  {
    hide NoHuge, HeapPages, BackingFrame;
    forall l | IsKey(l) && NoHuge(m0, root, l) ensures NoHuge(m2, root, l) {
      assert NoHuge(m1, root, l);
    }
    forall i | i in HeapPages(m0, root) ensures BackingFrame(m2, root, i) == BackingFrame(m0, root, i) {
      assert BackingFrame(m1, root, i) == BackingFrame(m0, root, i);
    }
  }

  // One more window page is backed; every other page keeps its walk, earlier heap pages keep their
  // frame and their contents, and the bitmap's frames are not written.
  ghost predicate WindowGrown(m0: seq<Table>, m1: seq<Table>, root: nat, n: nat, free0: set<nat>, reserved: set<nat>) {
    && n < WINDOW_PAGES && |m1| == |m0| && n !in HeapPages(m0, root)
    && HeapPages(m1, root) == HeapPages(m0, root) + {n}
    && BackingFrame(m1, root, n) in free0
    && (forall i | i in HeapPages(m0, root) :: BackingFrame(m1, root, i) == BackingFrame(m0, root, i))
    && (forall i | i in HeapPages(m0, root) && BackingFrame(m0, root, i) < |m0| ::
          m1[BackingFrame(m0, root, i)] == m0[BackingFrame(m0, root, i)])
    && (forall g | g in reserved && g < |m0| :: m1[g] == m0[g])
    && (forall l | IsKey(l) && l != PageKey(n) :: Walk(m1, root, l) == Walk(m0, root, l))
    && (forall l | IsKey(l) && NoHuge(m0, root, l) :: NoHuge(m1, root, l))
  }

  // Pages of the window that were backed stay backed by the same frames with the same contents, walks
  // outside the window and the bitmap's frames are unchanged.
  ghost predicate WindowKept(m0: seq<Table>, m1: seq<Table>, root: nat, reserved: set<nat>) {
    && |m1| == |m0| && HeapPages(m0, root) <= HeapPages(m1, root)
    && (forall i | i in HeapPages(m0, root) :: BackingFrame(m1, root, i) == BackingFrame(m0, root, i))
    && (forall i | i in HeapPages(m0, root) && BackingFrame(m0, root, i) < |m0| ::
          m1[BackingFrame(m0, root, i)] == m0[BackingFrame(m0, root, i)])
    && (forall g | g in reserved && g < |m0| :: m1[g] == m0[g])
    && (forall l | Outside(l) :: Walk(m1, root, l) == Walk(m0, root, l))
    && (forall l | IsKey(l) && NoHuge(m0, root, l) :: NoHuge(m1, root, l))
  }

  lemma KeptRefl(m: seq<Table>, root: nat, reserved: set<nat>)
    ensures WindowKept(m, m, root, reserved)
  {
  }

  lemma KeptTrans(m0: seq<Table>, m1: seq<Table>, m2: seq<Table>, root: nat, reserved: set<nat>)
    requires WindowKept(m0, m1, root, reserved) && WindowKept(m1, m2, root, reserved)
    ensures WindowKept(m0, m2, root, reserved)
  {
    hide Walk, NoHuge, HeapPages, BackingFrame;
    forall l | Outside(l) ensures Walk(m2, root, l) == Walk(m0, root, l) {
      assert Walk(m1, root, l) == Walk(m0, root, l);
    }
    forall l | IsKey(l) && NoHuge(m0, root, l) ensures NoHuge(m2, root, l) {
      assert NoHuge(m1, root, l);
    }
    forall i | i in HeapPages(m0, root) ensures BackingFrame(m2, root, i) == BackingFrame(m0, root, i) {
      assert BackingFrame(m1, root, i) == BackingFrame(m0, root, i);
    }
  }

  lemma GrownKeeps(m0: seq<Table>, m1: seq<Table>, root: nat, n: nat, free0: set<nat>, reserved: set<nat>)
    requires WindowGrown(m0, m1, root, n, free0, reserved)
    ensures WindowKept(m0, m1, root, reserved)
    ensures HeapPages(m1, root) == HeapPages(m0, root) + {n} && n !in HeapPages(m0, root)
  {
    hide Walk, NoHuge, HeapPages, BackingFrame;
  }

  lemma GrownKeepsWords(m0: seq<Table>, m1: seq<Table>, root: nat, n: nat, free0: set<nat>, reserved: set<nat>)
    requires WindowGrown(m0, m1, root, n, free0, reserved)
    ensures KeepsWords(m0, m1, root)
  {
    hide HeapPages, BackingFrame, Walk, NoHuge;
  }

  lemma SameMemory(m: seq<Table>, root: nat)
    ensures KeepsWords(m, m, root)
  {
  }

  lemma GrownFrom(m0: seq<Table>, m1: seq<Table>, root: nat, n: nat, e: Word, f: nat,
                  free0: set<nat>, free1: set<nat>, reserved: set<nat>)
    requires MapsWindowPage(m0, m1, root, n, e, f, free0, free1, reserved)
    requires Backed(m0, root, free0, reserved)
    requires forall p | IsPath(p) && TableAt(m0, root, p).Some? :: TableAt(m0, root, p).value !in reserved
    ensures WindowGrown(m0, m1, root, n, free0, reserved)
  {
    WindowPagesAfter(m0, m1, root, n, e, f, free0, free1, reserved);
    TablesArePaths(m1, root, PageKey(n));
    RootIsTableOf(m1, root);
    hide HeapPages, BackingFrame, Tree, Unfree, NoHuge, IsTable, Pages, Walk, HeapFrames, TableAt, TablesAbove;
    forall g | 0 <= g < |m0|
        && (g in reserved || exists i :: i in HeapPages(m0, root) && BackingFrame(m0, root, i) == g)
      ensures m1[g] == m0[g]
    {
      if IsTable(m1, root, g) { WrittenFrame(m0, m1, root, n, e, f, free0, free1, reserved, g); }
    }
  }

  lemma WrittenFrame(m0: seq<Table>, m1: seq<Table>, root: nat, n: nat, e: Word, f: nat,
                     free0: set<nat>, free1: set<nat>, reserved: set<nat>, g: nat)
    requires MapsWindowPage(m0, m1, root, n, e, f, free0, free1, reserved) && IsTable(m1, root, g)
    requires Backed(m0, root, free0, reserved)
    requires forall p | IsPath(p) && TableAt(m0, root, p).Some? :: TableAt(m0, root, p).value !in reserved
    ensures g !in reserved && forall i | i in HeapPages(m0, root) :: BackingFrame(m0, root, i) != g
  {
    TablesAfter(m0, m1, root, n, e, f, free0, free1, reserved, g);
    if IsTable(m0, root, g) { TableNotReserved(m0, root, g, reserved); }
  }

  lemma TableNotReserved(m: seq<Table>, root: nat, g: nat, reserved: set<nat>)
    requires IsTable(m, root, g)
    requires forall p | IsPath(p) && TableAt(m, root, p).Some? :: TableAt(m, root, p).value !in reserved
    ensures g !in reserved
  {
  }

  lemma TablesArePaths(m: seq<Table>, root: nat, k: seq<nat>)
    requires IsKey(k)
    ensures forall g | g in TablesAbove(m, root, k) :: IsTable(m, root, g)
  {
    PrefixesOfKey(k);
  }

  lemma RootIsTableOf(m: seq<Table>, root: nat)
    ensures IsTable(m, root, root)
  {
    assert IsPath([]) && TableAt(m, root, []) == Some(root);
  }

  class KernelHeap {
    const vm: AddressSpace
    var committed: nat  // COMMITTED
    var dynamic: bool   // DYNAMIC
    ghost var budget: set<nat>  // the frames that would be free had the window taken none

    // Before `init`: nothing is mapped in the window.
    constructor (vm: AddressSpace)
      requires vm.Valid() && HeapPages(vm.mem[..], vm.Root()) == {}
      requires forall n: nat | n < WINDOW_PAGES ::
                 NoHuge(vm.mem[..], vm.Root(), PageKey(n)) && LinkRights(vm.mem[..], vm.Root(), PageKey(n)).write
      ensures Valid() && this.vm == vm && !dynamic && committed == 0 && budget == vm.fa.Free()
    {
      hide Walk, TableAt, Tree, NoHuge, WindowTables, HeapFrames;
      this.vm, committed, dynamic, budget := vm, 0, false, vm.fa.Free();
      new;
      StartAccounted();
    }

    lemma StartAccounted()
      requires vm.Valid() && HeapPages(vm.mem[..], vm.Root()) == {} && budget == vm.fa.Free()
      ensures Accounted(vm.mem[..], vm.Root(), vm.fa.Free(), budget)
    {
      hide HeapPages, WindowTables, TableAt, WindowPath, Tree, WalkFrom;
      var m, root := vm.mem[..], vm.Root();
      forall f | f in WindowTables(m, root, WINDOW_TABLES) ensures f !in vm.fa.Free() {
        InWindowTables(m, root, WINDOW_TABLES, f);
        var i :| 0 <= i < WINDOW_TABLES && TableAt(m, root, WindowPath(i)) == Some(f);
        WindowPathIsPath(i);
        assert vm.TableOf(WindowPath(i)) == Some(f);
      }
    }

    ghost function PagesBacked(): set<nat>
      reads vm, vm.mem
    {
      HeapPages(vm.mem[..], vm.Root())
    }

    // Holds also half-way through `init`.
    ghost predicate Consistent()
      reads `budget, vm, vm.fa, vm.fa.bits, vm.mem
    {
      && vm.Valid()
      && Backed(vm.mem[..], vm.Root(), vm.fa.Free(), vm.fa.reserved)
      && Accounted(vm.mem[..], vm.Root(), vm.fa.Free(), budget)
      && WindowWritable(vm.mem[..], vm.Root())
    }

    ghost predicate Valid()
      reads this, vm, vm.fa, vm.fa.bits, vm.mem
    {
      && Consistent()
      && (dynamic ==> vm.OwnsTables() && committed == FRAME_SIZE * |PagesBacked()|)
      && (!dynamic ==> PagesBacked() == {})
    }

    // Take a frame and map it at page n of the window.
    method BackPage(page: nat, ghost n: nat) returns (r: BackResult)
      requires Consistent() && vm.rootPml4 != 0
      requires n < WINDOW_PAGES && page == HEAP_START + n * FRAME_SIZE && n !in PagesBacked()
      modifies vm`tlb, vm.fa.bits, vm.mem
      ensures r.NoFrame? <==> old(vm.fa.Free()) == {}
      ensures r.NoFrame? ==> vm.mem[..] == old(vm.mem[..]) && vm.fa.Free() == old(vm.fa.Free()) && vm.tlb == old(vm.tlb)
      ensures r.BackPanic? <==> 0 < |old(vm.fa.Free())| <= old(Missing(vm.mem[..], vm.Root(), PageKey(n)))
      ensures !r.BackPanic? ==> Consistent()
      ensures r.Backing? ==> WindowGrown(old(vm.mem[..]), vm.mem[..], vm.Root(), n, old(vm.fa.Free()), vm.fa.reserved)
      ensures r.Backing? ==> n in PagesBacked() && RightsOfPage(n) == Some(HEAP_RIGHTS)
    {
      hide Tree, WindowWritable, RightsOf, LinkRights, PageRights, Walk, TableAt, HeapPages, NoHuge, Pages,
           PageMapped, WindowGrown, Backed, Missing, Key, PageKey, Accounted, SameSpace, Followed, EndsIn, RunFree,
           MapsWindowPage, Unfree, And, Or, LeafEntry, Target, IsPresent, FreeSet, AddressSpace.Harmless,
           AddressSpace.Valid;
      ghost var m0, free0, root := vm.mem[..], vm.fa.Free(), vm.Root();
      BeforeMap(n);
      vm.NothingDiffers();
      var phys := vm.fa.AllocFrames(1);
      if phys.None? {
        vm.NoSingleRun();
        vm.StillValid(m0);
        return NoFrame;
      }
      ghost var f := phys.value / FRAME_SIZE;
      vm.SingleRun(f);
      assert free0 == vm.fa.Free() + {f};
      KeyOfWindowAddress(page);
      HeapFlags();
      vm.StillValid(m0);
      vm.NoHugeHarmless(Key(page));
      var result := vm.Map(page, phys.value, Or(WRITABLE, NO_EXECUTE));
      if result.Panicked? { return BackPanic; }
      LeafEntryMeans(phys.value, HEAP_FLAGS);
      ghost var e := LeafEntry(phys.value, HEAP_FLAGS);
      MapsIt(m0, vm.mem[..], root, n, e, f, free0, vm.fa.Free(), vm.fa.reserved);
      GrownFrom(m0, vm.mem[..], root, n, e, f, free0, vm.fa.Free(), vm.fa.reserved);
      BackedAfter(m0, vm.mem[..], root, n, e, f, free0, vm.fa.Free(), vm.fa.reserved);
      AccountedAfter(m0, vm.mem[..], root, n, e, f, free0, vm.fa.Free(), vm.fa.reserved, budget);
      HeapFlagsRights();
      LeafRights(phys.value, HEAP_FLAGS);
      WritableAfter(m0, vm.mem[..], root, n, e, f, free0, vm.fa.Free(), vm.fa.reserved);
      MayUse(n);
      return Backing;
    }

    // What the processor may do with page n of the window.
    ghost function RightsOfPage(n: nat): Option<Rights>
      reads vm, vm.mem
    {
      if n < WINDOW_PAGES then PageRights(vm.mem[..], vm.Root(), PageKey(n)) else None
    }

    ghost predicate MayWrite(n: nat)
      reads vm, vm.mem
    {
      RightsOfPage(n).Some? && RightsOfPage(n).value.write
    }

    lemma MayUse(n: nat)
      requires WindowWritable(vm.mem[..], vm.Root()) && n in PagesBacked()
      ensures RightsOfPage(n) == Some(HEAP_RIGHTS) && MayWrite(n)
    {
      InHeapPages(vm.mem[..], vm.Root(), n);
      hide HeapPages, PageRights, Pages, LinkRights, RightsOf;
    }

    lemma BeforeMap(n: nat)
      requires Consistent() && n < WINDOW_PAGES
      ensures vm.Valid() && NoHuge(vm.mem[..], vm.Root(), PageKey(n)) && Tree(vm.mem[..], vm.Root())
      ensures Unfree(vm.mem[..], vm.Root(), vm.fa.Free())
      ensures vm.fa.reserved !! vm.fa.Free() && vm.mem.Length * FRAME_SIZE <= PHYS_LIMIT
      ensures forall f | f in vm.fa.Free() :: f < vm.mem.Length
      ensures forall p | IsPath(p) && TableAt(vm.mem[..], vm.Root(), p).Some? ::
                TableAt(vm.mem[..], vm.Root(), p).value !in vm.fa.reserved
    {
      forall p | IsPath(p) && TableAt(vm.mem[..], vm.Root(), p).Some?
        ensures TableAt(vm.mem[..], vm.Root(), p).value !in vm.fa.reserved
      {
        assert vm.TableOf(p).Some?;
      }
    }

    // One page of `map_and_commit`.
    method BackNext(page: nat, ghost n: nat) returns (ok: bool)
      requires Consistent() && vm.rootPml4 != 0
      requires n < WINDOW_PAGES && page == HEAP_START + n * FRAME_SIZE && n !in PagesBacked()
      modifies vm`tlb, vm.fa.bits, vm.mem
      ensures ok ==> Consistent() && PagesBacked() == old(PagesBacked()) + {n}
      ensures ok ==> WindowKept(old(vm.mem[..]), vm.mem[..], vm.Root(), vm.fa.reserved)
      ensures !ok ==> |budget| <= |old(PagesBacked())| + RESERVE
    {
      hide WindowGrown, WindowKept, HeapPages, Backed, Accounted, Walk, TableAt, Tree, NoHuge, Missing, PageKey;
      ghost var m0, free0 := vm.mem[..], vm.fa.Free();
      Bill(m0, vm.Root(), free0, budget);
      AtMostThree(m0, vm.Root(), PageKey(n));
      var r := BackPage(page, n);
      if !r.Backing? { return false; }
      GrownKeeps(m0, vm.mem[..], vm.Root(), n, free0, vm.fa.reserved);
      return true;
    }

    // `map_and_commit` over pages first .. first + count; false is the panic of either `expect`.
    method MapAndCommit(start: nat, len: nat, ghost first: nat, ghost count: nat) returns (ok: bool)
      requires Consistent() && vm.rootPml4 != 0 && first + count <= WINDOW_PAGES
      requires start == HEAP_START + first * FRAME_SIZE && len == count * FRAME_SIZE
      requires forall n | first <= n < first + count :: n !in PagesBacked()
      modifies this`committed, vm`tlb, vm.fa.bits, vm.mem
      ensures ok ==> Consistent() && committed == old(committed) + len
      ensures ok ==> PagesBacked() == old(PagesBacked()) + Range(first, count)
      ensures ok ==> WindowKept(old(vm.mem[..]), vm.mem[..], vm.Root(), vm.fa.reserved)
      ensures |budget| >= |old(PagesBacked())| + count + RESERVE ==> ok
    {
      hide WindowGrown, Consistent, PagesBacked, WindowKept, HeapPages, Range;
      NothingInRange(first);
      var addr := start;
      var end := start + len;
      ghost var i := 0;
      ghost var p0 := PagesBacked();
      KeptRefl(vm.mem[..], vm.Root(), vm.fa.reserved);
      while addr < end
        invariant i <= count && addr == HEAP_START + (first + i) * FRAME_SIZE
        invariant Consistent() && committed == old(committed)
        invariant PagesBacked() == p0 + Range(first, i)
        invariant WindowKept(old(vm.mem[..]), vm.mem[..], vm.Root(), vm.fa.reserved)
        decreases end - addr
      {
        ghost var m0 := vm.mem[..];
        NextPage(p0, first, i);
        var backed := BackNext(addr, first + i);
        if !backed { return false; }
        KeptTrans(old(vm.mem[..]), m0, vm.mem[..], vm.Root(), vm.fa.reserved);
        addr := addr + FRAME_SIZE;
        i := i + 1;
      }
      committed := committed + len;
      return true;
    }

    // `init`: without an allocator or tables of our own the heap is the static emergency block.
    method Init() returns (ok: bool)
      requires Valid() && !dynamic && committed == 0
      modifies this`committed, this`dynamic, vm`tlb, vm.fa.bits, vm.mem
      ensures ok ==> Valid() && (dynamic <==> vm.OwnsTables())
      ensures !vm.OwnsTables() ==> ok && committed == EMERGENCY_HEAP_SIZE && vm.mem[..] == old(vm.mem[..])
      ensures ok && dynamic ==> PagesBacked() == Range(0, HEAP_INITIAL / FRAME_SIZE) && committed == HEAP_INITIAL
      ensures ok ==> WindowKept(old(vm.mem[..]), vm.mem[..], vm.Root(), vm.fa.reserved)
      ensures |budget| >= HEAP_INITIAL / FRAME_SIZE + RESERVE ==> ok
    {
      hide WindowGrown, WindowKept, HeapPages, Backed, Accounted, Walk, TableAt, Tree, NoHuge, Pages, Unfree, Range,
           WindowWritable, LinkRights;
      KeptRefl(vm.mem[..], vm.Root(), vm.fa.reserved);
      if !vm.fa.up || !vm.OwnsTables() {
        committed := EMERGENCY_HEAP_SIZE;
        return true;
      }
      ok := MapAndCommit(HEAP_START, HEAP_INITIAL, 0, HEAP_INITIAL / FRAME_SIZE);
      if !ok { return; }
      RangeSize(0, HEAP_INITIAL / FRAME_SIZE);
      dynamic := true;
    }

    // The window page a faulting address falls in.
    static function PageOf(addr: nat): Option<nat> {
      if addr < HEAP_START || addr >= HEAP_START + HEAP_MAX then None
      else Some((addr - HEAP_START) / FRAME_SIZE)
    }

    // `grow`.
    method Grow(faultAddr: nat) returns (r: GrowResult)
      requires Valid()
      modifies this`committed, vm`tlb, vm.fa.bits, vm.mem
      ensures r.Refused? <==> !dynamic || PageOf(faultAddr).None? || PageOf(faultAddr).value in old(PagesBacked())
                              || old(vm.fa.Free()) == {}
      ensures r.Refused? ==> vm.mem[..] == old(vm.mem[..]) && vm.fa.Free() == old(vm.fa.Free())
                             && vm.tlb == old(vm.tlb) && committed == old(committed)
      ensures !r.GrowPanic? ==> Valid()
      ensures r.Grown? ==> committed == old(committed) + FRAME_SIZE
      ensures r.Grown? ==> WindowGrown(old(vm.mem[..]), vm.mem[..], vm.Root(), PageOf(faultAddr).value,
                                       old(vm.fa.Free()), vm.fa.reserved)
      ensures r.Grown? ==> RightsOfPage(PageOf(faultAddr).value) == Some(HEAP_RIGHTS)
      ensures r.GrowPanic? <==>
                && dynamic && PageOf(faultAddr).Some? && PageOf(faultAddr).value !in old(PagesBacked())
                && 0 < |old(vm.fa.Free())| <= old(Missing(vm.mem[..], vm.Root(), PageKey(PageOf(faultAddr).value)))
    {
      hide WindowKept, WindowGrown, HeapPages, Backed, Accounted, Walk, TableAt, Tree, NoHuge, Missing,
           WindowWritable, PageRights, PageKey, Pages, Key, Unfree, And, Or, AlignDown, SameSpace, FreeSet,
           AddressSpace.Harmless;
      if !dynamic { return Refused; }
      if faultAddr < HEAP_START || faultAddr >= HEAP_START + HEAP_MAX { return Refused; }
      ghost var m0, n := vm.mem[..], (faultAddr - HEAP_START) / FRAME_SIZE;
      KeyOfWindowAddress(faultAddr);
      BeforeMap(n);
      BackedIsMapped(n);
      vm.NoHugeHarmless(Key(faultAddr));
      var mapped := vm.IsMapped(faultAddr);
      if mapped { return Refused; }
      var b := BackPage(AlignDown(faultAddr), n);
      if b.NoFrame? { return Refused; }
      if b.BackPanic? { return GrowPanic; }
      GrownKeeps(m0, vm.mem[..], vm.Root(), n, old(vm.fa.Free()), vm.fa.reserved);
      CountOneMore(HeapPages(m0, vm.Root()), n);
      committed := committed + FRAME_SIZE;
      return Grown;
    }

    lemma BackedIsMapped(n: nat)
      requires n < WINDOW_PAGES
      ensures n in PagesBacked() <==> PageKey(n) in vm.View()
    {
    }

    // A store by the processor to word i of the frame f that backs page n: no translation changes, and
    // no table, bitmap frame or other heap page is written.  The processor lets it through only where
    // the page may be written.
    method StoreWord(ghost n: nat, f: nat, i: nat, w: Word)
      requires Valid() && n in PagesBacked() && i < 512 && f == BackingFrame(vm.mem[..], vm.Root(), n)
      requires MayWrite(n)
      modifies vm.mem
      ensures Valid() && f < vm.mem.Length && f !in vm.fa.reserved && !IsTable(vm.mem[..], vm.Root(), f)
      ensures vm.mem[..] == old(vm.mem[..])[f := old(vm.mem[f])[i := w]]
      ensures Unaffected(old(vm.mem[..]), vm.mem[..], vm.Root())
      ensures forall k | IsKey(k) :: vm.WalkOf(k) == old(vm.WalkOf(k))
    {
      hide WindowKept, HeapPages, Accounted, Walk, TableAt, Tree, NoHuge, BackingFrame, IsTable, WindowWritable,
           LinkRights, PageRights;
      ghost var m0, root := vm.mem[..], vm.Root();
      BeforeMap(0);
      FrameIsData(n);
      ghost var data := m0[f][i := w];
      vm.mem[f] := vm.mem[f][i := w];
      assert vm.mem[..] == m0[f := data];
      StoredInWindow(m0, root, f, data);
      DataKeepsAll(m0, root, f, data);
      UnaffectedKeeps(m0, vm.mem[..], root, vm.fa.Free(), vm.fa.reserved, budget);
      DataSame(m0, root, f, data);
      SameUseKeeps(m0, vm.mem[..], root);
      vm.StillValid(m0);
      FrameIsData(n);
    }

    lemma FrameIsData(n: nat)
      requires Consistent() && n in PagesBacked()
      ensures var f := BackingFrame(vm.mem[..], vm.Root(), n);
              f < vm.mem.Length && f !in vm.fa.reserved && !IsTable(vm.mem[..], vm.Root(), f)
    {
    }

    // Where the processor comes out, by a cached walk or a fresh one: what it caches is coherent, so it
    // is the page's own frame.  An access that meets a page is never denied.
    method Reach(addr: nat, write: bool) returns (a: Outcome)
      requires Valid() && dynamic && HEAP_START <= addr < HEAP_START + HEAP_MAX
      modifies vm`tlb
      ensures Valid() && !a.Denied?
      ensures a.Through? <==> PageOf(addr).value in PagesBacked()
      ensures a.Through? ==> Target(a.entry) == BackingFrame(vm.mem[..], vm.Root(), PageOf(addr).value)
      ensures a.Through? && write ==> MayWrite(PageOf(addr).value)
    {
      hide HeapPages, Backed, Accounted, Walk, TableAt, Tree, NoHuge, PageKey, BackingFrame, Key, Pages, PageRights,
           WindowWritable, Target;
      KeyOfWindowAddress(addr);
      ghost var n := PageOf(addr).value;
      FoundIsBacking(n);
      if n in PagesBacked() { MayUse(n); }
      a := vm.Translate(addr, write);
    }

    // The page of the address is missing and there are no frames for it and the tables above it.
    ghost predicate Starved(addr: nat)
      requires HEAP_START <= addr < HEAP_START + HEAP_MAX
      reads this, vm, vm.fa, vm.fa.bits, vm.mem
    {
      && PageOf(addr).value !in PagesBacked()
      && |vm.fa.Free()| <= Missing(vm.mem[..], vm.Root(), PageKey(PageOf(addr).value))
    }

    // The frame behind an address of the window: on a missing page the fault handler grows the heap and
    // the access is retried; None is the halt or the panic, exactly when a missing page cannot be backed.
    // A page that is there but does not allow the access halts as well; no heap page does that.
    method Access(addr: nat, write: bool) returns (f: Option<nat>, grew: bool)
      requires Valid() && dynamic && HEAP_START <= addr < HEAP_START + HEAP_MAX
      modifies this`committed, vm`tlb, vm.fa.bits, vm.mem
      ensures f.Some? ==> Valid() && Evolves(old(vm.mem[..]), vm.mem[..], vm.Root(), vm.fa.reserved)
      ensures f.Some? ==> PagesBacked() == old(PagesBacked()) + {PageOf(addr).value}
                          && f.value == BackingFrame(vm.mem[..], vm.Root(), PageOf(addr).value)
      ensures f.Some? ==> (grew <==> PageOf(addr).value !in old(PagesBacked()))
      ensures f.None? <==> old(Starved(addr))
      ensures f.None? ==> |old(vm.fa.Free())| <= 3
      ensures f.Some? ==> KeepsWords(old(vm.mem[..]), vm.mem[..], vm.Root())
      ensures f.Some? && write ==> MayWrite(PageOf(addr).value)
    {
      hide Consistent, PageRights, Target, WindowGrown, WindowKept, Evolves, KeepsWords, Unfree, HeapPages, Backed,
           Accounted, Walk, TableAt, Tree, NoHuge, Missing, PageKey, BackingFrame, Key, Pages;
      ghost var m0, n := vm.mem[..], PageOf(addr).value;
      KeyOfWindowAddress(addr);
      BeforeMap(n);
      WindowEvolves(m0, m0, vm.Root(), vm.fa.reserved);
      SameMemory(m0, vm.Root());
      var a := Reach(addr, write);
      if a.Through? { return Some(Target(a.entry)), false; }
      if a.Denied? { return None, false; }
      AtMostThree(m0, vm.Root(), PageKey(n));
      var r := Grow(addr);
      if !r.Grown? { return None, false; }
      GrownKeeps(m0, vm.mem[..], vm.Root(), n, old(vm.fa.Free()), vm.fa.reserved);
      WindowEvolves(m0, vm.mem[..], vm.Root(), vm.fa.reserved);
      GrownKeepsWords(m0, vm.mem[..], vm.Root(), n, old(vm.fa.Free()), vm.fa.reserved);
      a := Reach(addr, write);
      return if a.Through? then Some(Target(a.entry)) else None, true;
    }

    // A store by the program; false is the halt or the panic, on a missing page that cannot be backed.
    method TouchPage(addr: nat, word: Word) returns (ok: bool, grew: bool)
      requires Valid() && dynamic && HEAP_START <= addr < HEAP_START + HEAP_MAX
      modifies this`committed, vm`tlb, vm.fa.bits, vm.mem
      ensures ok ==> Valid() && Evolves(old(vm.mem[..]), vm.mem[..], vm.Root(), vm.fa.reserved)
      ensures ok ==> PagesBacked() == old(PagesBacked()) + {PageOf(addr).value}
      ensures ok ==> (grew <==> PageOf(addr).value !in old(PagesBacked()))
      ensures !ok <==> old(Starved(addr))
      ensures !ok ==> |old(vm.fa.Free())| <= 3
      ensures ok ==> Remembers(vm.mem[..], vm.Root(), addr, word)
      ensures ok ==> forall a, v :: old(Remembers(vm.mem[..], vm.Root(), a, v)) && !SameWord(a, addr)
                                    ==> Remembers(vm.mem[..], vm.Root(), a, v)
    {
      hide Evolves, Unaffected, Remembers, KeepsWords, SameWord, HeapPages, Backed, Accounted, Walk, TableAt,
           Tree, NoHuge, BackingFrame, IsTable, Pages, PageRights, WindowWritable;
      ghost var n := PageOf(addr).value;
      var f;
      f, grew := Access(addr, true);
      if f.None? { return false, grew; }
      ghost var m1 := vm.mem[..];
      forall a, v | old(Remembers(vm.mem[..], vm.Root(), a, v)) ensures Remembers(m1, vm.Root(), a, v) {
        StillRemembers(old(vm.mem[..]), m1, vm.Root(), a, v);
      }
      StoreWord(n, f.value, addr / 8 % 512, word);
      StoreRemembers(m1, vm.mem[..], vm.Root(), addr, word, vm.fa.Free(), vm.fa.reserved);
      StoreEvolves(m1, vm.mem[..], vm.Root(), f.value, vm.fa.reserved);
      EvolvesTrans(old(vm.mem[..]), m1, vm.mem[..], vm.Root(), vm.fa.reserved);
      return true, grew;
    }

    lemma FoundIsBacking(n: nat)
      requires n < WINDOW_PAGES
      ensures n in PagesBacked() <==> PageKey(n) in vm.View()
      ensures n in PagesBacked() ==> BackingFrame(vm.mem[..], vm.Root(), n) == Target(vm.View()[PageKey(n)])
    {
    }

    // A driver takes frames for itself.
    method TakeFrames(count: nat)
      requires Valid()
      modifies this`budget, vm.fa.bits
      ensures Valid() && vm.fa.Free() <= old(vm.fa.Free())
      ensures |old(budget)| - count <= |budget|
    {
      hide HeapPages, Walk, TableAt, Tree, NoHuge, Backed, Accounted, Range, SameSpace, RunFree, AddressSpace.Valid,
           this.Valid;
      Parts();
      BeforeMap(0);
      vm.NothingDiffers();
      ghost var m0, free0 := vm.mem[..], vm.fa.Free();
      var phys := vm.fa.AllocFrames(count);
      if phys.Some? {
        ghost var taken := Range(phys.value / FRAME_SIZE, count);
        TakenAtMost(budget, phys.value / FRAME_SIZE, count);
        TakenFromBoth(vm.mem[..], vm.Root(), free0, vm.fa.reserved, budget, taken);
        budget := budget - taken;
      }
      vm.StillValid(m0);
      StillCounted();
    }

    lemma Parts()
      requires Valid()
      ensures Consistent()
    {
    }

    twostate lemma StillCounted()
      requires old(Valid()) && Consistent() && vm.mem[..] == old(vm.mem[..]) && vm.cr3 == old(vm.cr3)
      requires vm.rootPml4 == old(vm.rootPml4) && dynamic == old(dynamic) && committed == old(committed)
      ensures Valid()
    {
    }

    // Some other part of the kernel maps a page outside the window.
    method MapOutside(virt: nat, phys: nat, flags: nat) returns (ok: bool)
      requires Valid() && dynamic && Allowed(vm.mem[..], vm.Root(), MapElsewhere(virt, phys, flags))
      modifies this`budget, vm`tlb, vm.fa.bits, vm.mem
      ensures ok ==> Valid() && Evolves(old(vm.mem[..]), vm.mem[..], vm.Root(), vm.fa.reserved)
      ensures ok ==> PagesBacked() == old(PagesBacked()) && Key(virt) in vm.View()
      ensures ok ==> KeepsWords(old(vm.mem[..]), vm.mem[..], vm.Root())
      ensures ok ==> |old(budget)| - 3 <= |budget|
      ensures !ok ==> |old(vm.fa.Free())| <= 3
    {
      hide HeapPages, Walk, TableAt, Tree, NoHuge, Backed, Accounted, Key, TablesAbove, Outside, Pages,
           PageMapped, Evolves, Missing, KeepsWords, WindowWritable, LinkRights, PageRights, RightsOf;
      ghost var m0, free0, k := vm.mem[..], vm.fa.Free(), Key(virt);
      BeforeMap(0);
      AtMostThree(m0, vm.Root(), k);
      vm.NoHugeHarmless(Key(virt));
      var r := vm.Map(virt, phys, flags);
      if r.Panicked? { return false; }
      ghost var m1, e := vm.mem[..], LeafEntry(phys, flags);
      MappedElsewhere(m0, m1, vm.Root(), k, e, free0, vm.fa.Free(), vm.fa.reserved, budget);
      AtMostThree(m1, vm.Root(), k);
      AtMostFewer(budget, TablesAbove(m1, vm.Root(), k));
      WritableElsewhere(m0, m1, vm.Root(), k, e, free0, vm.fa.Free());
      budget := budget - TablesAbove(m1, vm.Root(), k);
      return true;
    }

    method UnmapOutside(virt: nat)
      requires Valid() && dynamic && Allowed(vm.mem[..], vm.Root(), UnmapElsewhere(virt))
      modifies vm`tlb, vm.mem
      ensures Valid() && Evolves(old(vm.mem[..]), vm.mem[..], vm.Root(), vm.fa.reserved)
      ensures PagesBacked() == old(PagesBacked()) && Key(virt) !in vm.View()
      ensures KeepsWords(old(vm.mem[..]), vm.mem[..], vm.Root())
    {
      hide HeapPages, Walk, TableAt, Tree, NoHuge, BackingFrame, IsTable, HeapFrames, WindowTables, Backed,
           Accounted, Key, TablesAbove, Outside, SameWindow, Pages, KeepsWords, WindowWritable, LinkRights;
      ghost var m0, k := vm.mem[..], Key(virt);
      BeforeMap(0);
      vm.NoHugeHarmless(Key(virt));
      vm.Unmap(virt);
      ZeroEntry();
      UnmappedElsewhere(m0, vm.mem[..], vm.Root(), k);
      UnaffectedKeeps(m0, vm.mem[..], vm.Root(), vm.fa.Free(), vm.fa.reserved, budget);
      WrittenTableNotReserved(m0, vm.mem[..], vm.Root(), k, vm.fa.reserved);
      HeapFramesApart(m0, vm.Root(), vm.fa.Free(), vm.fa.reserved);
      WrittenTableNotReserved(m0, vm.mem[..], vm.Root(), k, HeapFrames(m0, vm.Root()));
      SameWindowWords(m0, vm.mem[..], vm.Root());
      SameWindowEvolves(m0, vm.mem[..], vm.Root(), vm.fa.reserved);
      WritableAfterUnmap(m0, vm.mem[..], vm.Root(), k);
    }

    // Any interleaving of events keeps every invariant; the pages gained are exactly the faults
    // served, never more than the window holds, and the frames gone from the free set are one for each
    // page, at most 34 tables, and what others took.
    method Run(events: seq<Event>) returns (alive: bool, grown: nat)
      requires Valid() && dynamic
      requires forall i | 0 <= i < |events| :: Allowed(vm.mem[..], vm.Root(), events[i])
      modifies this`committed, this`budget, vm`tlb, vm.fa.bits, vm.mem
      ensures alive ==> Valid() && dynamic && Evolves(old(vm.mem[..]), vm.mem[..], vm.Root(), vm.fa.reserved)
      ensures alive ==> |PagesBacked()| == |old(PagesBacked())| + grown <= WINDOW_PAGES
      ensures alive ==> committed == old(committed) + FRAME_SIZE * grown
      ensures alive ==> |budget| <= |vm.fa.Free()| + |PagesBacked()| + WINDOW_TABLES
      ensures alive && (forall i | 0 <= i < |events| :: !events[i].TakeFrames? && !events[i].MapElsewhere?) ==>
              budget == old(budget)
      ensures |old(budget)| >= |old(PagesBacked())| + Demand(events) + RESERVE ==> alive
      ensures alive ==> AllRemembered(vm.mem[..], vm.Root(), events, |events|)
      ensures alive ==> forall n | n in PagesBacked() :: RightsOfPage(n) == Some(HEAP_RIGHTS)
    {
      hide AllRemembered, Remembers, KeepsWords, SameWord, HeapPages, Walk, TableAt, Tree, NoHuge,
           BackingFrame, Backed, Accounted, Key, Outside, Pages, Evolves, Allowed, Demand;
      NoDemand();
      NothingToRemember(vm.mem[..], vm.Root(), events);
      grown := 0;
      ghost var m0, root := vm.mem[..], vm.Root();
      WindowEvolves(m0, m0, root, vm.fa.reserved);
      for i := 0 to |events|
        invariant Valid() && Evolves(m0, vm.mem[..], root, vm.fa.reserved)
        invariant |PagesBacked()| == |old(PagesBacked())| + grown
        invariant (forall j | 0 <= j < i :: !events[j].TakeFrames? && !events[j].MapElsewhere?) ==>
                  budget == old(budget)
        invariant AllRemembered(vm.mem[..], root, events, i)
        invariant |old(budget)| - |old(PagesBacked())| - Demand(events[..i]) <= |budget| - |PagesBacked()|
      {
        ghost var m1 := vm.mem[..];
        DemandStep(events, i);
        Bill(m1, root, vm.fa.Free(), budget);
        StillAllowed(m0, m1, root, vm.fa.reserved, events[i]);
        WindowEvolves(m1, m1, root, vm.fa.reserved);
        match events[i] {
          case Touch(addr, word) =>
            assert HEAP_START <= addr < HEAP_START + HEAP_MAX by { TouchInWindow(m1, root, events[i]); }
            var ok, grew := TouchPage(addr, word);
            if !ok { return false, grown; }
            CountOneMore(HeapPages(m1, root), PageOf(addr).value);
            if grew { grown := grown + 1; }
          case TakeFrames(count) =>
            TakeFrames(count);
          case MapElsewhere(virt, phys, flags) =>
            var ok := MapOutside(virt, phys, flags);
            if !ok { return false, grown; }
          case UnmapElsewhere(virt) =>
            UnmapOutside(virt);
          case Fill(virt) =>
            vm.TlbFill(virt);
        }
        EvolvesTrans(m0, m1, vm.mem[..], root, vm.fa.reserved);
        RememberStep(m1, vm.mem[..], root, events, i);
      }
      Bill(vm.mem[..], root, vm.fa.Free(), budget);
      forall n | n in PagesBacked() ensures RightsOfPage(n) == Some(HEAP_RIGHTS) { MayUse(n); }
      return true, grown;
    }
  }

  lemma NextPage(pages: set<nat>, start: nat, count: nat)
    ensures pages + Range(start, count) + {start + count} == pages + Range(start, count + 1)
    ensures |pages + Range(start, count)| <= |pages| + count
    ensures start + count !in pages ==> start + count !in pages + Range(start, count)
  {
    RangeSize(start, count);
    UnionSize(pages, Range(start, count));
  }

  lemma NothingInRange(start: nat)
    ensures Range(start, 0) == {}
  {
  }

  lemma TakenFromBoth(m: seq<Table>, root: nat, free: set<nat>, reserved: set<nat>, budget: set<nat>, taken: set<nat>)
    requires Backed(m, root, free, reserved) && Accounted(m, root, free, budget)
    ensures Backed(m, root, free - taken, reserved) && Accounted(m, root, free - taken, budget - taken)
  {
    hide HeapPages, BackingFrame, IsTable, HeapFrames, WindowTables;
  }

  lemma CountOneMore(s: set<nat>, n: nat)
    ensures |s + {n}| == |s| + if n in s then 0 else 1
  {
    if n in s { assert s + {n} == s; }
  }

  lemma MappedElsewhere(m0: seq<Table>, m1: seq<Table>, root: nat, k: seq<nat>, e: Word,
                        free0: set<nat>, free1: set<nat>, reserved: set<nat>, budget: set<nat>)
    requires PageMapped(m0, m1, root, k, e, free0, free1) && Outside(k)
    requires Tree(m0, root) && Unfree(m0, root, free0) && free0 !! reserved
    requires forall p | IsPath(p) && TableAt(m0, root, p).Some? :: TableAt(m0, root, p).value !in reserved
    requires Backed(m0, root, free0, reserved) && Accounted(m0, root, free0, budget)
    ensures Backed(m1, root, free1, reserved) && Accounted(m1, root, free1, budget - TablesAbove(m1, root, k))
    ensures Evolves(m0, m1, root, reserved) && HeapPages(m1, root) == HeapPages(m0, root) && k in Pages(m1, root)
    ensures KeepsWords(m0, m1, root)
  {
    HeapFramesApart(m0, root, free0, reserved);
    TablesNotReserved(m0, m1, root, k, e, free0, free1, HeapFrames(m0, root));
    BackedElsewhere(m0, m1, root, k, e, free0, free1, reserved);
    AccountedElsewhere(m0, m1, root, k, e, free0, free1, budget);
    TablesNotReserved(m0, m1, root, k, e, free0, free1, reserved);
    hide HeapPages, Walk, TableAt, Tree, NoHuge, BackingFrame, IsTable, Backed, Accounted, TablesAbove,
         Outside, SameWindow, Pages;
    SameWindowEvolves(m0, m1, root, reserved);
    SameWindowWords(m0, m1, root);
  }

  lemma WritableElsewhere(m0: seq<Table>, m1: seq<Table>, root: nat, k: seq<nat>, e: Word,
                          free0: set<nat>, free1: set<nat>)
    requires PageMapped(m0, m1, root, k, e, free0, free1) && Outside(k) && WindowWritable(m0, root)
    ensures WindowWritable(m1, root)
  {
    hide HeapPages, Walk, TableAt, Tree, NoHuge, TablesAbove, Outside, SameUse, LinkRights, PageRights, RightsOf,
         WindowWritable;
    UseElsewhere(m0, m1, root, k);
    SameUseKeeps(m0, m1, root);
  }

  lemma WritableAfterUnmap(m0: seq<Table>, m1: seq<Table>, root: nat, k: seq<nat>)
    requires LeafWritten(m0, m1, root, k, 0) && Outside(k) && WindowWritable(m0, root)
    ensures WindowWritable(m1, root)
  {
    hide HeapPages, Walk, TableAt, Tree, NoHuge, Outside, SameUse, LinkRights, PageRights, RightsOf, WindowWritable;
    UseElsewhere(m0, m1, root, k);
    SameUseKeeps(m0, m1, root);
  }

  // The frames behind the window are neither free nor tables.
  lemma HeapFramesApart(m: seq<Table>, root: nat, free: set<nat>, reserved: set<nat>)
    requires Backed(m, root, free, reserved)
    ensures free !! HeapFrames(m, root)
    ensures forall p | IsPath(p) && TableAt(m, root, p).Some? :: TableAt(m, root, p).value !in HeapFrames(m, root)
  {
    hide HeapPages, BackingFrame, TableAt, NoHuge;
  }

  lemma SameWindowWords(m0: seq<Table>, m1: seq<Table>, root: nat)
    requires |m1| == |m0| && SameWindow(m0, m1, root)
    requires forall g | g in HeapFrames(m0, root) && g < |m0| :: m1[g] == m0[g]
    ensures KeepsWords(m0, m1, root)
  {
    hide HeapPages, BackingFrame;
  }

  lemma TouchInWindow(m: seq<Table>, root: nat, e: Event)
    requires e.Touch? && Allowed(m, root, e)
    ensures HEAP_START <= e.addr < HEAP_START + HEAP_MAX
  {
  }

  lemma StillAllowed(m0: seq<Table>, m1: seq<Table>, root: nat, reserved: set<nat>, e: Event)
    requires Allowed(m0, root, e) && Evolves(m0, m1, root, reserved)
    ensures Allowed(m1, root, e)
  {
    hide NoHuge, HeapPages, BackingFrame;
  }

  lemma TablesNotReserved(m0: seq<Table>, m1: seq<Table>, root: nat, k: seq<nat>, e: Word,
                          free0: set<nat>, free1: set<nat>, reserved: set<nat>)
    requires PageMapped(m0, m1, root, k, e, free0, free1) && free0 !! reserved
    requires forall p | IsPath(p) && TableAt(m0, root, p).Some? :: TableAt(m0, root, p).value !in reserved
    ensures forall g | g in reserved && g < |m0| :: m1[g] == m0[g]
  {
    TablesArePaths(m1, root, k);
    RootIsTableOf(m1, root);
    hide Walk, TableAt, Tree, NoHuge, IsTable, TablesAbove, Pages;
    forall g | g in reserved && g < |m0| ensures m1[g] == m0[g] {
      if IsTable(m1, root, g) {
        TablesElsewhere(m0, m1, root, k, e, free0, free1, g);
        if IsTable(m0, root, g) { TableNotReserved(m0, root, g, reserved); }
      }
    }
  }

  lemma WrittenTableNotReserved(m0: seq<Table>, m1: seq<Table>, root: nat, k: seq<nat>, reserved: set<nat>)
    requires LeafWritten(m0, m1, root, k, 0)
    requires forall p | IsPath(p) && TableAt(m0, root, p).Some? :: TableAt(m0, root, p).value !in reserved
    ensures forall g | g in reserved && g < |m0| :: m1[g] == m0[g]
  {
    PrefixesOfKey(k);
    hide Walk, TableAt, Tree, NoHuge, Pages;
  }

  lemma SameWindowEvolves(m0: seq<Table>, m1: seq<Table>, root: nat, reserved: set<nat>)
    requires |m1| == |m0| && SameWindow(m0, m1, root)
    requires forall g | g in reserved && g < |m0| :: m1[g] == m0[g]
    requires forall l | IsKey(l) && NoHuge(m0, root, l) :: NoHuge(m1, root, l)
    ensures Evolves(m0, m1, root, reserved) && HeapPages(m1, root) == HeapPages(m0, root)
  {
    hide HeapPages, BackingFrame, NoHuge;
  }

  lemma WindowEvolves(m0: seq<Table>, m1: seq<Table>, root: nat, reserved: set<nat>)
    requires m1 == m0 || WindowKept(m0, m1, root, reserved)
    ensures Evolves(m0, m1, root, reserved)
  {
    hide NoHuge, HeapPages, BackingFrame, Walk;
  }

  lemma StoreEvolves(m0: seq<Table>, m1: seq<Table>, root: nat, f: nat, reserved: set<nat>)
    requires Unaffected(m0, m1, root) && f !in reserved && forall g | 0 <= g < |m0| && g != f :: m1[g] == m0[g]
    ensures Evolves(m0, m1, root, reserved) && HeapPages(m1, root) == HeapPages(m0, root)
  {
    hide NoHuge, HeapPages, BackingFrame, TableAt;
  }
}
