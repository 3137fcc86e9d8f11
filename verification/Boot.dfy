// `mem::init`: the allocator, the page tables and the heap brought up in order
// on the state the bootloader leaves, then a whole run of the system.
module Boot {
  import opened Wrappers
  import opened Bitmaps
  import opened FrameAllocator
  import opened PageTables
  import opened TableEdits
  import opened Paging
  import opened HeapWindow
  import opened Heap
  import opened BitmapStorage

  // The bootloader's tables form a tree in frames outside USABLE memory, of which the processor has
  // cached what it likes; the heap window is empty, tables already there for it are linked as writable,
  // and the bitmap will stay in frames of its own.
  ghost predicate LimineState(m: seq<Table>, cr3: nat, tlb: map<seq<nat>, seq<Word>>, mmap: seq<MemoryMapEntry>) {
    && |m| * FRAME_SIZE <= PHYS_LIMIT && cr3 % FRAME_SIZE == 0 && TotalFrames(mmap) <= |m|
    && BitmapFits(mmap) && Tree(m, cr3 / FRAME_SIZE)
    && (forall p | IsPath(p) && TableAt(m, cr3 / FRAME_SIZE, p).Some? ::
          TableAt(m, cr3 / FRAME_SIZE, p).value !in UsableFrames(mmap))
    && (forall k | k in tlb :: IsKey(k) && Walk(m, cr3 / FRAME_SIZE, k) == Some(tlb[k]))
    && HeapPages(m, cr3 / FRAME_SIZE) == {}
    && (forall n: nat | n < WINDOW_PAGES :: NoHuge(m, cr3 / FRAME_SIZE, PageKey(n)))
    && (forall n: nat | n < WINDOW_PAGES :: LinkRights(m, cr3 / FRAME_SIZE, PageKey(n)).write)
  }

  lemma {:induction false} UsableFits(mmap: seq<MemoryMapEntry>, n: nat, f: nat)
    requires n <= |mmap| && f in UsableFrames(mmap[..n])
    ensures f < TotalFrames(mmap)
  {
    assert n > 0;
    assert mmap[..n][..n - 1] == mmap[..n - 1];
    if f in UsableFrames(mmap[..n - 1]) {
      UsableFits(mmap, n - 1, f);
    } else {
      var e := mmap[n - 1];
      var b, l := e.base / FRAME_SIZE, e.length / FRAME_SIZE;
      assert b * FRAME_SIZE + l * FRAME_SIZE <= TotalFrames(mmap) * FRAME_SIZE;
    }
  }

  lemma {:induction false} EntryInUsable(mmap: seq<MemoryMapEntry>, i: nat)
    requires i < |mmap|
    ensures EntryFrames(mmap[i]) <= UsableFrames(mmap)
    decreases |mmap|
  {
    var n := |mmap| - 1;
    if i < n {
      EntryInUsable(mmap[..n], i);
      assert mmap[..n][i] == mmap[i];
    }
  }

  // A fresh allocator frees USABLE memory only, so none of the bootloader's tables.
  lemma FreshAllocator(fa: FrameBitmap, mmap: seq<MemoryMapEntry>, m: seq<Table>, cr3: nat,
                       tlb: map<seq<nat>, seq<Word>>)
    requires LimineState(m, cr3, tlb, mmap) && fa.up && fa.Free() == UsableFrames(mmap) - fa.reserved
    requires exists i :: 0 <= i < |mmap| && fa.reserved <= EntryFrames(mmap[i])
    ensures forall f | f in fa.Free() :: f < |m|
    ensures forall p | IsPath(p) && TableAt(m, cr3 / FRAME_SIZE, p).Some? ::
              var f := TableAt(m, cr3 / FRAME_SIZE, p).value; f !in fa.Free() && f !in fa.reserved
  {
    var i :| 0 <= i < |mmap| && fa.reserved <= EntryFrames(mmap[i]);
    EntryInUsable(mmap, i);
    assert mmap[..|mmap|] == mmap;
    forall f | f in fa.Free() ensures f < |m| { UsableFits(mmap, |mmap|, f); }
  }

  // The bitmap lies inside memory.
  lemma BitmapInMemory(mmap: seq<MemoryMapEntry>, vm: AddressSpace)
    requires TotalFrames(mmap) <= vm.mem.Length && vm.fa.up && vm.fa.bits.Length == BitmapBytes(mmap) > 0
    requires Houses(vm.fa.reserved, vm.fa.base, vm.fa.bits.Length)
    requires exists i :: 0 <= i < |mmap| && vm.fa.reserved <= EntryFrames(mmap[i])
    ensures BitmapStored(vm)
  {
    var i :| 0 <= i < |mmap| && vm.fa.reserved <= EntryFrames(mmap[i]);
    EntryInUsable(mmap, i);
    assert mmap[..|mmap|] == mmap;
    var last := FrameOf(vm.fa.base + vm.fa.bits.Length - 1);
    assert last in vm.fa.reserved;
    UsableFits(mmap, |mmap|, last);
  }

  lemma WindowStillEmpty(m0: seq<Table>, root0: nat, m1: seq<Table>, root1: nat)
    requires Pages(m1, root1) == Pages(m0, root0)
    ensures HeapPages(m1, root1) == HeapPages(m0, root0)
  {
    hide Pages;
  }

  lemma KeptOutside(m0: seq<Table>, m1: seq<Table>, root: nat, reserved: set<nat>)
    requires WindowKept(m0, m1, root, reserved)
    ensures forall l | Outside(l) :: Walk(m1, root, l) == Walk(m0, root, l)
    ensures forall l | IsKey(l) && NoHuge(m0, root, l) :: NoHuge(m1, root, l)
    ensures forall g | g in reserved && g < |m0| :: m1[g] == m0[g]
  {
    hide Walk, NoHuge, HeapPages, BackingFrame;
  }

  // What `try_init_from_memory_map` needs.
  ghost predicate CanStart(response: Option<seq<MemoryMapEntry>>, hhdm: bool) {
    && response.Some? && hhdm && HighestAddress(response.value) != 0
    && exists i :: 0 <= i < |response.value| && HoldsBitmap(response.value, response.value[i])
  }

  // The USABLE frames left after the bitmap's own and the root table's.
  ghost function Left(mmap: seq<MemoryMapEntry>): int {
    |UsableFrames(mmap)| - BitmapFrames(mmap) - 1
  }

  lemma FreeAtStart(mmap: seq<MemoryMapEntry>, reserved: set<nat>)
    requires exists i :: 0 <= i < |mmap| && reserved == Range(mmap[i].base / FRAME_SIZE, BitmapFrames(mmap))
    ensures |UsableFrames(mmap) - reserved| >= Left(mmap) + 1
  {
    var i :| 0 <= i < |mmap| && reserved == Range(mmap[i].base / FRAME_SIZE, BitmapFrames(mmap));
    RangeSize(mmap[i].base / FRAME_SIZE, BitmapFrames(mmap));
    AtMostFewer(UsableFrames(mmap), reserved);
  }

  lemma LimineWindow(m: seq<Table>, cr3: nat, tlb: map<seq<nat>, seq<Word>>, mmap: seq<MemoryMapEntry>)
    requires LimineState(m, cr3, tlb, mmap)
    ensures HeapPages(m, cr3 / FRAME_SIZE) == {}
  {
  }

  // The allocator, if it can start, over the bootloader's tables.
  method NewSpace(mem: array<Table>, cr3: nat, tlb: map<seq<nat>, seq<Word>>, response: Option<seq<MemoryMapEntry>>,
                  hhdm: bool)
    returns (vm: AddressSpace)
    requires LimineState(mem[..], cr3, tlb, if response.Some? then response.value else [])
    ensures fresh(vm) && fresh(vm.fa) && fresh(vm.fa.bits) && vm.mem == mem && vm.Valid() && vm.cr3 == cr3
            && vm.rootPml4 == 0
    ensures vm.fa.up <==> CanStart(response, hhdm)
    ensures vm.fa.up ==> BitmapStored(vm) && vm.fa.Free() == UsableFrames(response.value) - vm.fa.reserved
    ensures vm.fa.up ==> vm.fa.reserved == Range(vm.fa.base / FRAME_SIZE, BitmapFrames(response.value))
    ensures vm.fa.up ==> |vm.fa.Free()| >= Left(response.value) + 1
  {
    hide BitmapStored, HeapPages, Walk, TableAt, Tree, NoHuge, BackingFrame, Pages;
    ghost var m0 := mem[..];
    var fa := new FrameBitmap();
    var up := fa.TryInit(response, hhdm);
    if up { FreshAllocator(fa, response.value, m0, cr3, tlb); }
    assert mem[..] == m0;
    vm := new AddressSpace(fa, mem, cr3, tlb);
    if up {
      BitmapInMemory(response.value, vm);
      FreeAtStart(response.value, fa.reserved);
    }
  }

  // The first two steps of `mem::init`: the allocator and our own root table; null stands for a panic.
  method PagingInit(mem: array<Table>, cr3: nat, tlb: map<seq<nat>, seq<Word>>,
                    response: Option<seq<MemoryMapEntry>>, hhdm: bool)
    returns (vm: AddressSpace?)
    requires LimineState(mem[..], cr3, tlb, if response.Some? then response.value else [])
    modifies mem
    ensures vm != null ==> fresh(vm) && fresh(vm.fa) && fresh(vm.fa.bits) && vm.mem == mem && vm.Valid()
    ensures vm != null ==> HeapPages(mem[..], vm.Root()) == {}
    ensures vm != null ==> forall l | IsKey(l) :: vm.WalkOf(l) == old(Walk(mem[..], cr3 / FRAME_SIZE, l))
    ensures vm != null ==>
              forall l | IsKey(l) && old(NoHuge(mem[..], cr3 / FRAME_SIZE, l)) :: NoHuge(mem[..], vm.Root(), l)
    ensures vm != null ==>
              forall l | IsKey(l) :: LinkRights(mem[..], vm.Root(), l) == old(LinkRights(mem[..], cr3 / FRAME_SIZE, l))
    ensures vm == null ==> CanStart(response, hhdm) && Left(response.value) < 0
    ensures vm != null && !CanStart(response, hhdm) ==> !vm.OwnsTables()
    ensures vm != null && CanStart(response, hhdm) ==> BitmapStored(vm)
    ensures vm != null && CanStart(response, hhdm) ==> |vm.fa.Free()| >= Left(response.value)
    ensures vm != null && CanStart(response, hhdm) && 0 !in UsableFrames(response.value) ==> vm.fa.up && vm.OwnsTables()
  {
    hide BitmapStored, HeapPages, Walk, TableAt, Tree, NoHuge, BackingFrame, Pages, LimineState, CanStart;
    ghost var m0, root0 := mem[..], cr3 / FRAME_SIZE;
    vm := NewSpace(mem, cr3, tlb, response, hhdm);
    ghost var free := vm.fa.Free();
    var ok := vm.Init();
    AtMostFewer(free, {vm.Root()});
    if !ok { return null; }
    LimineWindow(m0, cr3, tlb, if response.Some? then response.value else []);
    WindowStillEmpty(m0, root0, mem[..], vm.Root());
  }

  // `mem::init`; null stands for a panic for want of frames.  Every translation outside the window
  // survives the switch to our own tables.
  method MemInit(mem: array<Table>, cr3: nat, tlb: map<seq<nat>, seq<Word>>, response: Option<seq<MemoryMapEntry>>,
                 hhdm: bool)
    returns (heap: KernelHeap?)
    requires LimineState(mem[..], cr3, tlb, if response.Some? then response.value else [])
    modifies mem
    ensures heap != null ==> fresh(heap) && fresh(heap.vm) && fresh(heap.vm.fa) && fresh(heap.vm.fa.bits)
    ensures heap != null ==> heap.vm.mem == mem
    ensures heap != null ==> heap.Valid() && (heap.dynamic <==> heap.vm.OwnsTables())
    ensures heap != null && heap.dynamic ==>
              |heap.PagesBacked()| == HEAP_INITIAL / FRAME_SIZE && heap.committed == HEAP_INITIAL
    ensures heap != null ==> forall l | Outside(l) :: heap.vm.WalkOf(l) == old(Walk(mem[..], cr3 / FRAME_SIZE, l))
    ensures heap != null ==> forall l | IsKey(l) && old(NoHuge(mem[..], cr3 / FRAME_SIZE, l)) ::
                NoHuge(mem[..], heap.vm.Root(), l)
    ensures heap == null ==> CanStart(response, hhdm) && Left(response.value) < HEAP_INITIAL / FRAME_SIZE + RESERVE
    ensures heap != null && heap.dynamic ==> BitmapStored(heap.vm)
    ensures heap != null && CanStart(response, hhdm) ==> |heap.budget| >= Left(response.value)
    ensures heap != null && CanStart(response, hhdm) && 0 !in UsableFrames(response.value) ==> heap.dynamic
  {
    hide BitmapStored, HeapPages, Walk, TableAt, Tree, NoHuge, BackingFrame, Backed, Accounted, Pages, WindowKept,
         CanStart, Left;
    heap := null;
    var vm := PagingInit(mem, cr3, tlb, response, hhdm);
    if vm == null { return; }
    ghost var m1 := mem[..];
    var h := new KernelHeap(vm);
    var ok := h.Init();
    if !ok { return; }
    KeptOutside(m1, mem[..], vm.Root(), vm.fa.reserved);
    if h.dynamic { RangeSize(0, HEAP_INITIAL / FRAME_SIZE); }
    heap := h;
  }

  lemma StillAllowedAfterBoot(m0: seq<Table>, root0: nat, m1: seq<Table>, root1: nat, e: Event)
    requires Allowed(m0, root0, e)
    requires forall l | IsKey(l) && NoHuge(m0, root0, l) :: NoHuge(m1, root1, l)
    ensures Allowed(m1, root1, e)
  {
    hide NoHuge;
  }

  // From power-on through any run: the heap starts with 256 pages and serves at most 16128 faults.
  // With frames enough it never dies, and at its end every word of the heap last stored can be read
  // back through the kernel's own tables.
  method BootAndRun(mem: array<Table>, cr3: nat, tlb: map<seq<nat>, seq<Word>>,
                    response: Option<seq<MemoryMapEntry>>, hhdm: bool, events: seq<Event>)
    returns (alive: bool, grown: nat, heap: KernelHeap?)
    requires LimineState(mem[..], cr3, tlb, if response.Some? then response.value else [])
    requires forall i | 0 <= i < |events| :: Allowed(mem[..], cr3 / FRAME_SIZE, events[i])
    modifies mem
    ensures alive ==> heap != null && heap.vm.mem == mem && heap.Valid() && heap.dynamic && heap.vm.OwnsTables()
    ensures alive ==> heap.committed == HEAP_INITIAL + FRAME_SIZE * grown && grown <= 16128
    ensures alive ==> |heap.PagesBacked()| == HEAP_INITIAL / FRAME_SIZE + grown
    ensures alive ==> forall n | n in heap.PagesBacked() :: heap.RightsOfPage(n) == Some(HEAP_RIGHTS)
    ensures alive ==> AllRemembered(mem[..], heap.vm.cr3 / FRAME_SIZE, events, |events|)
    ensures alive ==> BitmapStored(heap.vm)
                      && AllRemembered(FullMemory(heap.vm), heap.vm.cr3 / FRAME_SIZE, events, |events|)
    ensures (CanStart(response, hhdm) && 0 !in UsableFrames(response.value)
             && Left(response.value) >= HEAP_INITIAL / FRAME_SIZE + Demand(events) + RESERVE) ==> alive
  {
    hide BitmapStored, HeapPages, Walk, TableAt, Tree, NoHuge, Allowed, Evolves, CanStart, Left, Demand, AllRemembered;
    ghost var m0 := mem[..];
    heap := MemInit(mem, cr3, tlb, response, hhdm);
    if heap == null || !heap.dynamic { return false, 0, heap; }
    forall i | 0 <= i < |events| ensures Allowed(mem[..], heap.vm.Root(), events[i]) {
      StillAllowedAfterBoot(m0, cr3 / FRAME_SIZE, mem[..], heap.vm.Root(), events[i]);
    }
    alive, grown := heap.Run(events);
    if alive { RememberedBesideBitmap(heap, events); }
  }
}
