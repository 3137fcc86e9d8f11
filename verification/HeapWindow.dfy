// The 64 MiB heap window as values: which of its pages are backed, by which
// frames, and which tables serve it.
module HeapWindow {
  import opened Wrappers
  import opened Bits
  import opened Bitmaps
  import opened FrameAllocator
  import opened PageTables
  import opened TableEdits
  import opened Paging

  const HEAP_START: nat := 0xFFFF_9000_0000_0000
  const HEAP_INITIAL: nat := 1024 * 1024
  const HEAP_MAX: nat := 64 * 1024 * 1024
  const EMERGENCY_HEAP_SIZE: nat := 1024 * 1024
  const WINDOW_PAGES: nat := 16384
  const WINDOW_TABLES: nat := 34
  const HEAP_FLAGS: nat := 0x8000_0000_0000_0002  // WRITABLE | NO_EXECUTE

  // The key of page n of the window.
  function PageKey(n: nat): (k: seq<nat>)
    requires n < WINDOW_PAGES
    ensures IsKey(k)
  {
    [288, 0, n / 512, n % 512]
  }

  lemma KeyOfWindowAddress(addr: nat)
    requires HEAP_START <= addr < HEAP_START + HEAP_MAX
    ensures var n := (addr - HEAP_START) / FRAME_SIZE;
            n < WINDOW_PAGES && Key(addr) == PageKey(n) && AlignDown(addr) == HEAP_START + n * FRAME_SIZE
            && Key(AlignDown(addr)) == PageKey(n)
  {
    var n := (addr - HEAP_START) / FRAME_SIZE;
    var r := (addr - HEAP_START) % FRAME_SIZE;
    AlignDownIs(addr);
    assert addr / FRAME_SIZE == HEAP_START / FRAME_SIZE + n;
    KeyOfPage(n, r);
    KeyOfPage(n, 0);
  }

  lemma KeyOfPage(n: nat, r: nat)
    requires n < WINDOW_PAGES && r < FRAME_SIZE
    ensures Key(HEAP_START + n * FRAME_SIZE + r) == PageKey(n)
  {
    var a := HEAP_START + n * FRAME_SIZE + r;
    PageNumber(n, r);
    ThreeShifts(a);
    DigitsOfPage(n);
  }

  const FIRST_PAGE: nat := 0xF_FFF9_0000_0000  // HEAP_START / FRAME_SIZE

  lemma PageNumber(n: nat, r: nat)
    requires r < FRAME_SIZE
    ensures (HEAP_START + n * FRAME_SIZE + r) / 0x1000 == FIRST_PAGE + n
  {
    DivModUnique(HEAP_START + n * FRAME_SIZE + r, 0x1000, FIRST_PAGE + n, r);
  }

  lemma DigitsOfPage(n: nat)
    requires n < WINDOW_PAGES
    ensures var v := FIRST_PAGE + n;
            && v % 512 == n % 512 && v / 512 % 512 == n / 512 && v / 512 / 512 % 512 == 0
            && v / 512 / 512 / 512 % 512 == 288
  {
    var q := FIRST_PAGE / 512;
    var a, b := n / 512, n % 512;
    DivModUnique(FIRST_PAGE + n, 512, q + a, b);
    DivModUnique(q + a, 512, q / 512, a);
  }

  lemma PageKeyInjective(n: nat, n': nat)
    requires n < WINDOW_PAGES && n' < WINDOW_PAGES && PageKey(n) == PageKey(n')
    ensures n == n'
  {
    assert PageKey(n)[2] == PageKey(n')[2] && PageKey(n)[3] == PageKey(n')[3];
  }

  lemma HeapFlags()
    ensures Or(WRITABLE, NO_EXECUTE) == HEAP_FLAGS && And(HEAP_FLAGS, ADDR_MASK) == 0
  {
    hide Or, And;
    AddrField(HEAP_FLAGS);
    OrSwaps(WRITABLE, NO_EXECUTE);
    HighPlusLow(NO_EXECUTE, WRITABLE);
  }

  lemma HighPlusLow(a: nat, b: nat)
    requires a % 4 == 0 && b < 4
    ensures Or(a, b) == a + b
  {
    OrDisjoint(a, b, 2);
  }

  lemma {:induction false} OrSwaps(a: nat, b: nat)
    ensures Or(a, b) == Or(b, a)
  {
    if a != 0 && b != 0 { OrSwaps(a / 2, b / 2); }
  }

  // Heap pages are for data: they may be written and not executed.
  const HEAP_RIGHTS: Rights := Rights(true, false)

  lemma HeapFlagsRights()
    ensures RightsOf(HEAP_FLAGS) == HEAP_RIGHTS
  {
    hide Or, Bit;
    HeapFlags();
    TopBit();
    ShiftedOneBit(1, 1);
    ShiftedOneBit(1, 63);
    ShiftedOneBit(63, 1);
    ShiftedOneBit(63, 63);
    OrBit(WRITABLE, NO_EXECUTE, 1);
    OrBit(WRITABLE, NO_EXECUTE, 63);
  }

  lemma TopBit()
    ensures Pow2(1) == WRITABLE && Pow2(63) == NO_EXECUTE
  {
    Constants();
    assert Pow2(64) == 2 * Pow2(63);
  }

  // ---------- what the window holds ----------

  ghost function HeapPages(m: seq<Table>, root: nat): set<nat> {
    set n: nat | n < WINDOW_PAGES && PageKey(n) in Pages(m, root)
  }

  ghost function BackingFrame(m: seq<Table>, root: nat, n: nat): nat
    requires n in HeapPages(m, root)
  {
    Target(Pages(m, root)[PageKey(n)])
  }

  ghost function HeapFrames(m: seq<Table>, root: nat): set<nat> {
    set n | n in HeapPages(m, root) :: BackingFrame(m, root, n)
  }

  // The 34 paths of tables that can serve the window.
  ghost function WindowPath(i: nat): seq<nat> {
    if i == 0 then [288] else if i == 1 then [288, 0] else [288, 0, i - 2]
  }

  ghost function WindowTables(m: seq<Table>, root: nat, n: nat): set<nat>
  {
    if n == 0 then {}
    else
      var t := TableAt(m, root, WindowPath(n - 1));
      WindowTables(m, root, n - 1) + if t.Some? then {t.value} else {}
  }

  ghost predicate OnWindowPath(m: seq<Table>, root: nat, n: nat, f: nat) {
    exists i :: 0 <= i < n && TableAt(m, root, WindowPath(i)) == Some(f)
  }

  lemma NoTable(m: seq<Table>, root: nat, f: nat)
    ensures f !in WindowTables(m, root, 0) && !OnWindowPath(m, root, 0, f)
  {
    hide TableAt, WindowPath;
  }

  lemma OneMoreTable(m: seq<Table>, root: nat, n: nat, f: nat)
    requires n > 0
    ensures f in WindowTables(m, root, n) <==>
              f in WindowTables(m, root, n - 1) || TableAt(m, root, WindowPath(n - 1)) == Some(f)
  {
    hide TableAt, WindowPath, OnWindowPath;
  }

  lemma OneMorePath(m: seq<Table>, root: nat, n: nat, f: nat)
    requires n > 0
    ensures OnWindowPath(m, root, n, f) <==>
              OnWindowPath(m, root, n - 1, f) || TableAt(m, root, WindowPath(n - 1)) == Some(f)
  {
    hide TableAt, WindowPath, WindowTables;
  }

  lemma {:induction false} InWindowTables(m: seq<Table>, root: nat, n: nat, f: nat)
    ensures f in WindowTables(m, root, n) <==> OnWindowPath(m, root, n, f)
  {
    hide TableAt, WindowPath, OnWindowPath, WindowTables;
    if n == 0 {
      NoTable(m, root, f);
    } else {
      InWindowTables(m, root, n - 1, f);
      OneMoreTable(m, root, n, f);
      OneMorePath(m, root, n, f);
    }
  }

  lemma {:induction false} WindowTablesAtMost(m: seq<Table>, root: nat, n: nat)
    ensures |WindowTables(m, root, n)| <= n
  {
    hide TableAt, WindowPath;
    if n > 0 { WindowTablesAtMost(m, root, n - 1); }
  }

  // Window pages are backed by distinct used frames that are neither tables nor bitmap.
  ghost predicate Backed(m: seq<Table>, root: nat, free: set<nat>, reserved: set<nat>) {
    && (forall n | n in HeapPages(m, root) ::
          var f := BackingFrame(m, root, n);
          f < |m| && f !in free && f !in reserved && !IsTable(m, root, f))
    && (forall n, n' | n in HeapPages(m, root) && n' in HeapPages(m, root)
                       && BackingFrame(m, root, n) == BackingFrame(m, root, n') :: n == n')
    && (forall n: nat | n < WINDOW_PAGES :: NoHuge(m, root, PageKey(n)))
  }

  // Every page of the heap may be written, by its own entry and by every link above it, and so may the
  // pages to come, as far as their links are there.
  ghost predicate WindowWritable(m: seq<Table>, root: nat) {
    && (forall n | n in HeapPages(m, root) ::
          PageRights(m, root, PageKey(n)) == Some(HEAP_RIGHTS) && RightsOf(Pages(m, root)[PageKey(n)]) == HEAP_RIGHTS)
    && (forall n: nat | n < WINDOW_PAGES :: LinkRights(m, root, PageKey(n)).write)
  }

  // The window is walked as before.
  ghost predicate SameUse(m0: seq<Table>, m1: seq<Table>, root: nat) {
    forall n: nat | n < WINDOW_PAGES ::
      Walk(m1, root, PageKey(n)) == Walk(m0, root, PageKey(n))
      && LinkRights(m1, root, PageKey(n)) == LinkRights(m0, root, PageKey(n))
  }

  lemma UseElsewhere(m0: seq<Table>, m1: seq<Table>, root: nat, k: seq<nat>)
    requires Outside(k) && forall l | IsKey(l) && l != k :: Walk(m1, root, l) == Walk(m0, root, l)
    requires forall l | IsKey(l) :: LinkRights(m1, root, l) == LinkRights(m0, root, l)
    ensures SameUse(m0, m1, root)
  {
    hide Walk, LinkRights;
  }

  lemma SameUseKeeps(m0: seq<Table>, m1: seq<Table>, root: nat)
    requires SameUse(m0, m1, root) && WindowWritable(m0, root)
    ensures WindowWritable(m1, root)
  {
    hide Walk, LinkRights, RightsOf, RightsAlong;
    forall n: nat | n < WINDOW_PAGES
      ensures PageKey(n) in Pages(m1, root) <==> PageKey(n) in Pages(m0, root)
      ensures PageKey(n) in Pages(m0, root) ==> Pages(m1, root)[PageKey(n)] == Pages(m0, root)[PageKey(n)]
    {
    }
  }

  lemma InHeapPages(m: seq<Table>, root: nat, n: nat)
    ensures n in HeapPages(m, root) ==> n < WINDOW_PAGES && PageKey(n) in Pages(m, root)
  {
  }

  lemma SamePage(m0: seq<Table>, m1: seq<Table>, root: nat, k: seq<nat>)
    requires IsKey(k) && Walk(m1, root, k) == Walk(m0, root, k)
    ensures PageRights(m1, root, k) == PageRights(m0, root, k)
  {
  }

  lemma WritableAfter(m0: seq<Table>, m1: seq<Table>, root: nat, n: nat, e: Word, f: nat,
                      free0: set<nat>, free1: set<nat>, reserved: set<nat>)
    requires MapsWindowPage(m0, m1, root, n, e, f, free0, free1, reserved)
    requires WindowWritable(m0, root) && RightsOf(e) == HEAP_RIGHTS
    ensures WindowWritable(m1, root) && n in HeapPages(m1, root)
  {
    hide Walk, LinkRights, RightsOf, TableAt, Tree, NoHuge, Unfree, TablesAbove, RightsAlong, PageRights, Pages,
         PageKey, HeapPages, HeapFrames, BackingFrame;
    WindowPagesAfter(m0, m1, root, n, e, f, free0, free1, reserved);
    forall i | i in HeapPages(m1, root)
      ensures i < WINDOW_PAGES && PageKey(i) in Pages(m1, root)
      ensures PageRights(m1, root, PageKey(i)) == Some(HEAP_RIGHTS)
      ensures RightsOf(Pages(m1, root)[PageKey(i)]) == HEAP_RIGHTS
    {
      InHeapPages(m1, root, i);
      if i != n {
        InHeapPages(m0, root, i);
        if PageKey(i) == PageKey(n) { PageKeyInjective(i, n); }
        SamePage(m0, m1, root, PageKey(i));
      }
    }
  }

  // Every frame missing from the budget is a heap page's frame or one of the window's tables.
  ghost predicate Accounted(m: seq<Table>, root: nat, free: set<nat>, budget: set<nat>) {
    free == budget - HeapFrames(m, root) - WindowTables(m, root, WINDOW_TABLES)
  }

  // ---------- mapping a page of the window ----------

  ghost predicate MapsWindowPage(m0: seq<Table>, m1: seq<Table>, root: nat, n: nat, e: Word, f: nat,
                                 free0: set<nat>, free1: set<nat>, reserved: set<nat>) {
    && n < WINDOW_PAGES && n !in HeapPages(m0, root)
    && f in free0 && f < |m0| && f !in reserved && Target(e) == f && free0 !! reserved
    && Tree(m0, root) && Unfree(m0, root, free0)
    && PageMapped(m0, m1, root, PageKey(n), e, free0 - {f}, free1)
  }

  lemma MapsIt(m0: seq<Table>, m1: seq<Table>, root: nat, n: nat, e: Word, f: nat,
               free0: set<nat>, free1: set<nat>, reserved: set<nat>)
    requires n < WINDOW_PAGES && n !in HeapPages(m0, root)
    requires f in free0 && f < |m0| && f !in reserved && Target(e) == f && free0 !! reserved
    requires Tree(m0, root) && Unfree(m0, root, free0)
    requires PageMapped(m0, m1, root, PageKey(n), e, free0 - {f}, free1)
    ensures MapsWindowPage(m0, m1, root, n, e, f, free0, free1, reserved)
  {
  }

  lemma WindowPagesAfter(m0: seq<Table>, m1: seq<Table>, root: nat, n: nat, e: Word, f: nat,
                         free0: set<nat>, free1: set<nat>, reserved: set<nat>)
    requires MapsWindowPage(m0, m1, root, n, e, f, free0, free1, reserved)
    ensures HeapPages(m1, root) == HeapPages(m0, root) + {n}
    ensures BackingFrame(m1, root, n) == f
    ensures forall i | i in HeapPages(m0, root) :: BackingFrame(m1, root, i) == BackingFrame(m0, root, i)
    ensures HeapFrames(m1, root) == HeapFrames(m0, root) + {f}
  {
    hide Walk, TableAt, Tree, NoHuge, Unfree, LinkRights, PageRights, RightsOf, TablesAbove, Slot;
    forall i: nat | i < WINDOW_PAGES && i != n ensures PageKey(i) != PageKey(n) {
      if PageKey(i) == PageKey(n) { PageKeyInjective(i, n); }
    }
    var k := PageKey(n);
    assert Pages(m1, root) == Pages(m0, root)[k := e];
    assert HeapPages(m1, root) == HeapPages(m0, root) + {n};
  }

  lemma TablesAfter(m0: seq<Table>, m1: seq<Table>, root: nat, n: nat, e: Word, f: nat,
                    free0: set<nat>, free1: set<nat>, reserved: set<nat>, g: nat)
    requires MapsWindowPage(m0, m1, root, n, e, f, free0, free1, reserved)
    requires IsTable(m1, root, g)
    ensures g != f && (IsTable(m0, root, g) || g in free0)
  {
    var p :| IsPath(p) && TableAt(m1, root, p) == Some(g);
    if TableAt(m0, root, p) == Some(g) {
      assert IsTable(m0, root, g);
    }
  }

  lemma BackedAfter(m0: seq<Table>, m1: seq<Table>, root: nat, n: nat, e: Word, f: nat,
                    free0: set<nat>, free1: set<nat>, reserved: set<nat>)
    requires MapsWindowPage(m0, m1, root, n, e, f, free0, free1, reserved)
    requires Backed(m0, root, free0, reserved)
    ensures Backed(m1, root, free1, reserved)
  {
    WindowPagesAfter(m0, m1, root, n, e, f, free0, free1, reserved);
    hide HeapPages, BackingFrame, Tree, Unfree, NoHuge, IsTable, Pages, Walk, HeapFrames, TableAt;
    var pages0 := HeapPages(m0, root);
    forall i | i in HeapPages(m1, root)
      ensures var g := BackingFrame(m1, root, i); g < |m1| && g !in free1 && g !in reserved && !IsTable(m1, root, g)
    {
      var g := BackingFrame(m1, root, i);
      if IsTable(m1, root, g) { TablesAfter(m0, m1, root, n, e, f, free0, free1, reserved, g); }
      if i in pages0 { assert BackingFrame(m0, root, i) == g; }
    }
    forall i, j | i in HeapPages(m1, root) && j in HeapPages(m1, root)
                  && BackingFrame(m1, root, i) == BackingFrame(m1, root, j)
      ensures i == j
    {
      if i in pages0 { assert BackingFrame(m0, root, i) == BackingFrame(m1, root, i); }
      if j in pages0 { assert BackingFrame(m0, root, j) == BackingFrame(m1, root, j); }
    }
    forall i: nat | i < WINDOW_PAGES ensures NoHuge(m1, root, PageKey(i)) {
      assert NoHuge(m0, root, PageKey(i));
    }
  }

  lemma WindowTablesAfter(m0: seq<Table>, m1: seq<Table>, root: nat, k: seq<nat>, e: Word, free0: set<nat>,
                          free1: set<nat>)
    requires Tree(m0, root) && Unfree(m0, root, free0) && PageMapped(m0, m1, root, k, e, free0, free1)
    ensures WindowTables(m0, root, WINDOW_TABLES) <= WindowTables(m1, root, WINDOW_TABLES)
    ensures WindowTables(m1, root, WINDOW_TABLES) <= WindowTables(m0, root, WINDOW_TABLES) + TablesAbove(m1, root, k)
  {
    hide Walk, Pages, NoHuge, Tree, Unfree, TableAt, WindowTables, LinkRights, PageRights, RightsOf, Slot, WindowPath;
    forall f: nat
      ensures f in WindowTables(m0, root, WINDOW_TABLES) ==> f in WindowTables(m1, root, WINDOW_TABLES)
      ensures f in WindowTables(m1, root, WINDOW_TABLES) ==>
                f in WindowTables(m0, root, WINDOW_TABLES) + TablesAbove(m1, root, k)
    {
      InWindowTables(m0, root, WINDOW_TABLES, f);
      InWindowTables(m1, root, WINDOW_TABLES, f);
      if i :| 0 <= i < WINDOW_TABLES && TableAt(m0, root, WindowPath(i)) == Some(f) {
        WindowPathIsPath(i);
        assert TableAt(m1, root, WindowPath(i)) == Some(f);
      }
      if i :| 0 <= i < WINDOW_TABLES && TableAt(m1, root, WindowPath(i)) == Some(f) {
        WindowPathIsPath(i);
        if TableAt(m0, root, WindowPath(i)) != Some(f) {
          assert WindowPath(i) in {k[..1], k[..2], k[..3]};
        }
      }
    }
  }

  lemma PathsOfPage(n: nat)
    requires n < WINDOW_PAGES
    ensures var k := PageKey(n);
            2 + n / 512 < WINDOW_TABLES
            && k[..1] == WindowPath(0) && k[..2] == WindowPath(1) && k[..3] == WindowPath(2 + n / 512)
  {
  }

  lemma TablesAboveWindowPage(m: seq<Table>, root: nat, n: nat)
    requires n < WINDOW_PAGES
    ensures TablesAbove(m, root, PageKey(n)) <= WindowTables(m, root, WINDOW_TABLES)
  {
    hide TableAt, WindowPath, PageKey, WindowTables;
    PathsOfPage(n);
    forall f | f in TablesAbove(m, root, PageKey(n)) ensures f in WindowTables(m, root, WINDOW_TABLES) {
      assert OnWindowPath(m, root, WINDOW_TABLES, f);
      InWindowTables(m, root, WINDOW_TABLES, f);
    }
  }

  lemma AccountedAfter(m0: seq<Table>, m1: seq<Table>, root: nat, n: nat, e: Word, f: nat,
                       free0: set<nat>, free1: set<nat>, reserved: set<nat>, budget: set<nat>)
    requires MapsWindowPage(m0, m1, root, n, e, f, free0, free1, reserved)
    requires Accounted(m0, root, free0, budget)
    ensures Accounted(m1, root, free1, budget)
  {
    WindowPagesAfter(m0, m1, root, n, e, f, free0, free1, reserved);
    WindowTablesAfter(m0, m1, root, PageKey(n), e, free0 - {f}, free1);
    TablesAboveWindowPage(m1, root, n);
    hide HeapPages, BackingFrame, Tree, Unfree, NoHuge, IsTable, Pages, Walk, HeapFrames, WindowTables, TablesAbove;
  }

  // ---------- mapping or unmapping a page elsewhere ----------

  ghost predicate Outside(k: seq<nat>) {
    IsKey(k) && forall n: nat | n < WINDOW_PAGES :: PageKey(n) != k
  }

  lemma BackedElsewhere(m0: seq<Table>, m1: seq<Table>, root: nat, k: seq<nat>, e: Word,
                        free0: set<nat>, free1: set<nat>, reserved: set<nat>)
    requires Outside(k) && Tree(m0, root) && Unfree(m0, root, free0)
    requires PageMapped(m0, m1, root, k, e, free0, free1) && Backed(m0, root, free0, reserved)
    ensures SameWindow(m0, m1, root) && Backed(m1, root, free1, reserved)
  {
    WindowElsewhere(m0, m1, root, k, e);
    hide HeapPages, BackingFrame, Tree, Unfree, NoHuge, IsTable, Pages, Walk, HeapFrames;
    forall i | i in HeapPages(m1, root)
      ensures var g := BackingFrame(m1, root, i); g < |m1| && g !in free1 && g !in reserved && !IsTable(m1, root, g)
    {
      var g := BackingFrame(m1, root, i);
      if IsTable(m1, root, g) { TablesElsewhere(m0, m1, root, k, e, free0, free1, g); }
    }
  }

  lemma AccountedElsewhere(m0: seq<Table>, m1: seq<Table>, root: nat, k: seq<nat>, e: Word,
                           free0: set<nat>, free1: set<nat>, budget: set<nat>)
    requires Tree(m0, root) && Unfree(m0, root, free0)
    requires PageMapped(m0, m1, root, k, e, free0, free1) && SameWindow(m0, m1, root)
    requires Accounted(m0, root, free0, budget)
    ensures Accounted(m1, root, free1, budget - TablesAbove(m1, root, k))
  {
    WindowTablesAfter(m0, m1, root, k, e, free0, free1);
    hide HeapPages, BackingFrame, Tree, Unfree, NoHuge, IsTable, Pages, Walk, HeapFrames, WindowTables, TablesAbove;
  }

  // A change that keeps the tables and the window keeps the window backed and billed as before.
  ghost predicate Unaffected(m0: seq<Table>, m1: seq<Table>, root: nat) {
    && |m1| == |m0| && SameWindow(m0, m1, root)
    && (forall q | IsPath(q) :: TableAt(m1, root, q) == TableAt(m0, root, q))
    && (forall l | IsKey(l) && NoHuge(m0, root, l) :: NoHuge(m1, root, l))
  }

  lemma UnaffectedKeeps(m0: seq<Table>, m1: seq<Table>, root: nat, free: set<nat>, reserved: set<nat>, budget: set<nat>)
    requires Unaffected(m0, m1, root)
    requires Backed(m0, root, free, reserved) && Accounted(m0, root, free, budget)
    ensures Backed(m1, root, free, reserved) && Accounted(m1, root, free, budget)
  {
    SameTables(m0, m1, root, WINDOW_TABLES);
    SameIsTable(m0, m1, root);
    hide HeapPages, BackingFrame, NoHuge, HeapFrames, WindowTables, TableAt, IsTable;
    forall i | i in HeapPages(m1, root)
      ensures var g := BackingFrame(m1, root, i); g < |m1| && g !in free && g !in reserved && !IsTable(m1, root, g)
    {
      assert BackingFrame(m1, root, i) == BackingFrame(m0, root, i);
    }
    forall i: nat | i < WINDOW_PAGES ensures NoHuge(m1, root, PageKey(i)) {
      assert NoHuge(m0, root, PageKey(i));
    }
  }

  lemma SameIsTable(m0: seq<Table>, m1: seq<Table>, root: nat)
    requires forall q | IsPath(q) :: TableAt(m1, root, q) == TableAt(m0, root, q)
    ensures forall g: nat :: IsTable(m1, root, g) ==> IsTable(m0, root, g)
  {
    hide TableAt;
    forall g: nat | IsTable(m1, root, g) ensures IsTable(m0, root, g) {
      var p :| IsPath(p) && TableAt(m1, root, p) == Some(g);
      assert TableAt(m0, root, p) == Some(g);
    }
  }

  lemma SameTables(m0: seq<Table>, m1: seq<Table>, root: nat, n: nat)
    requires forall q | IsPath(q) :: TableAt(m1, root, q) == TableAt(m0, root, q)
    requires n <= WINDOW_TABLES
    ensures WindowTables(m1, root, n) == WindowTables(m0, root, n)
  {
    hide TableAt, WindowPath, IsPath, WindowTables;
    forall i | 0 <= i < n ensures TableAt(m1, root, WindowPath(i)) == TableAt(m0, root, WindowPath(i)) {
      WindowPathIsPath(i);
    }
    forall f: nat ensures f in WindowTables(m1, root, n) <==> f in WindowTables(m0, root, n) {
      InWindowTables(m0, root, n, f);
      InWindowTables(m1, root, n, f);
    }
  }

  lemma WindowPathIsPath(i: nat)
    requires i < WINDOW_TABLES
    ensures IsPath(WindowPath(i))
  {
  }

  // Unmapping outside the window leaves the window alone.
  lemma UnmappedElsewhere(m0: seq<Table>, m1: seq<Table>, root: nat, k: seq<nat>)
    requires Outside(k) && LeafWritten(m0, m1, root, k, 0)
    ensures Unaffected(m0, m1, root)
  {
    ZeroEntry();
    WindowElsewhere(m0, m1, root, k, 0);
    hide SameWindow, Tree, NoHuge, Pages, Walk, TableAt;
  }

  // So does writing into a frame that is no table.
  lemma StoredInWindow(m0: seq<Table>, root: nat, f: nat, data: Table)
    requires Tree(m0, root) && f < |m0| && !IsTable(m0, root, f)
    ensures Unaffected(m0, m0[f := data], root)
  {
    DataKeepsAll(m0, root, f, data);
    hide Tree, NoHuge, Pages, Walk, TableAt;
  }

  // The frames taken for the window: one for each page and at most 34 for tables.
  lemma Bill(m: seq<Table>, root: nat, free: set<nat>, budget: set<nat>)
    requires Accounted(m, root, free, budget)
    ensures |budget| <= |free| + |HeapPages(m, root)| + WINDOW_TABLES
    ensures |HeapPages(m, root)| <= WINDOW_PAGES
  {
    hide HeapPages, BackingFrame, WindowTables;
    var frames := HeapFrames(m, root);
    FramesForPages(m, root, HeapPages(m, root));
    assert frames == set n | n in HeapPages(m, root) :: BackingFrame(m, root, n);
    var tables := WindowTables(m, root, WINDOW_TABLES);
    WindowTablesAtMost(m, root, WINDOW_TABLES);
    SubsetSize(budget, free + frames + tables);
    UnionSize(free + frames, tables);
    UnionSize(free, frames);
    SubsetSize(HeapPages(m, root), Range(0, WINDOW_PAGES)) by { PagesInRange(m, root); }
    RangeSize(0, WINDOW_PAGES);
  }

  lemma PagesInRange(m: seq<Table>, root: nat)
    ensures HeapPages(m, root) <= Range(0, WINDOW_PAGES)
  {
  }

  lemma {:induction false} FramesForPages(m: seq<Table>, root: nat, s: set<nat>)
    requires s <= HeapPages(m, root)
    ensures |set n | n in s :: BackingFrame(m, root, n)| <= |s|
    decreases |s|
  {
    hide HeapPages, BackingFrame;
    if s != {} {
      var x :| x in s;
      var rest := s - {x};
      FramesForPages(m, root, rest);
      assert (set n | n in s :: BackingFrame(m, root, n))
          == (set n | n in rest :: BackingFrame(m, root, n)) + {BackingFrame(m, root, x)};
      UnionSize(set n | n in rest :: BackingFrame(m, root, n), {BackingFrame(m, root, x)});
    }
  }

  lemma UnionSize(a: set<nat>, b: set<nat>)
    ensures |a + b| <= |a| + |b|
  {
    assert a + b == a + (b - a);
    assert |b - a| <= |b| by { SubsetSize(b - a, b); }
  }

  lemma {:induction false} SubsetSize(a: set<nat>, b: set<nat>)
    requires a <= b
    ensures |a| <= |b|
  {
    assert b == a + (b - a);
  }

  lemma WindowElsewhere(m0: seq<Table>, m1: seq<Table>, root: nat, k: seq<nat>, e: Word)
    requires Outside(k)
    requires Pages(m1, root) == Pages(m0, root)[k := e]
             || Pages(m1, root) == imap l | l in Pages(m0, root) && l != k :: Pages(m0, root)[l]
    ensures SameWindow(m0, m1, root)
  {
    hide Pages;
    forall n: nat | n < WINDOW_PAGES
      ensures PageKey(n) in Pages(m1, root) <==> PageKey(n) in Pages(m0, root)
      ensures PageKey(n) in Pages(m0, root) ==> Pages(m1, root)[PageKey(n)] == Pages(m0, root)[PageKey(n)]
    {
      assert PageKey(n) != k;
    }
  }

  lemma TablesElsewhere(m0: seq<Table>, m1: seq<Table>, root: nat, k: seq<nat>, e: Word, free0: set<nat>,
                        free1: set<nat>, g: nat)
    requires PageMapped(m0, m1, root, k, e, free0, free1) && IsTable(m1, root, g)
    ensures IsTable(m0, root, g) || g in free0
  {
    var p :| IsPath(p) && TableAt(m1, root, p) == Some(g);
    if TableAt(m0, root, p) == Some(g) { assert IsTable(m0, root, g); }
  }

  // The window's pages and their frames are the same in both states.
  ghost predicate SameWindow(m0: seq<Table>, m1: seq<Table>, root: nat) {
    && HeapPages(m1, root) == HeapPages(m0, root)
    && (forall n | n in HeapPages(m0, root) :: BackingFrame(m1, root, n) == BackingFrame(m0, root, n))
    && HeapFrames(m1, root) == HeapFrames(m0, root)
  }
}
