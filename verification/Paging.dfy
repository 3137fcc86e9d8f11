// The kernel's own page tables: `init`, `map`, `unmap` and `is_mapped` working
// in place on physical memory, with frames taken from the bitmap.
module Paging {
  import opened Wrappers
  import opened Bits
  import opened Bitmaps
  import opened FrameAllocator
  import opened PageTables
  import opened TableEdits

  datatype MapResult = Mapped | NotInitialized | Panicked

  // How an access by the processor ends: in a page fault without and with the present bit, or at the
  // page an entry maps.
  datatype Outcome = NotPresent | Denied | Through(entry: Word)

  // ---------- what linking the tables on one path does ----------

  // One call of `next_table` at path q, which ends at entry i of the table in frame t.
  ghost predicate Linked(m0: seq<Table>, m1: seq<Table>, root: nat, q: seq<nat>, free0: set<nat>, free1: set<nat>) {
    && |q| > 0 && IsPath(q) && |m1| == |m0| && Tree(m1, root)
    && TableAt(m1, root, q).Some?
    && (forall r | IsPath(r) && r != q :: TableAt(m1, root, r) == TableAt(m0, root, r))
    && (forall k | IsKey(k) :: Walk(m1, root, k) == Walk(m0, root, k))
    && (forall k | IsKey(k) && NoHuge(m0, root, k) :: NoHuge(m1, root, k))
    && (forall k | IsKey(k) :: LinkRights(m1, root, k) == LinkRights(m0, root, k))
    && (forall r | IsPath(r) && r != [] && r != q && Slot(m0, root, r).Some? :: Slot(m1, root, r) == Slot(m0, root, r))
    && var f := TableAt(m1, root, q).value;
       if TableAt(m0, root, q).Some? then m1 == m0 && free1 == free0
       else
         && f in free0 && free1 == free0 - {f} && Slot(m1, root, q) == Some(LinkEntry(f * FRAME_SIZE))
         && forall g | 0 <= g < |m0| && g != f && TableAt(m0, root, q[..|q| - 1]) != Some(g) :: m1[g] == m0[g]
  }

  // All three tables above page k are there, and nothing else happened.
  ghost predicate Prepared(m0: seq<Table>, m3: seq<Table>, root: nat, k: seq<nat>, free0: set<nat>, free3: set<nat>)
  {
    && IsKey(k) && |m3| == |m0| && Tree(m3, root)
    && TableAt(m3, root, k[..1]).Some? && TableAt(m3, root, k[..2]).Some? && TableAt(m3, root, k[..3]).Some?
    && (forall l | IsKey(l) :: Walk(m3, root, l) == Walk(m0, root, l))
    && (forall l | IsKey(l) && NoHuge(m0, root, l) :: NoHuge(m3, root, l))
    && (forall l | IsKey(l) :: LinkRights(m3, root, l) == LinkRights(m0, root, l))
    && (forall q | IsPath(q) && TableAt(m0, root, q).Some? :: TableAt(m3, root, q) == TableAt(m0, root, q))
    && (forall q | IsPath(q) && TableAt(m3, root, q) != TableAt(m0, root, q) ::
          q in {k[..1], k[..2], k[..3]} && TableAt(m3, root, q).Some? && TableAt(m3, root, q).value in free0
          && Slot(m3, root, q) == Some(LinkEntry(TableAt(m3, root, q).value * FRAME_SIZE)))
    && free3 == free0 - TablesAbove(m3, root, k)
    && forall g | 0 <= g < |m0| && g != root && g !in TablesAbove(m3, root, k) :: m3[g] == m0[g]
  }

  // Entry k of the last-level table above page k was written.
  ghost predicate LeafWritten(m0: seq<Table>, m1: seq<Table>, root: nat, k: seq<nat>, e: Word) {
    && IsKey(k) && |m1| == |m0| && Tree(m1, root)
    && (forall q | IsPath(q) :: TableAt(m1, root, q) == TableAt(m0, root, q))
    && (forall q | IsPath(q) && q != [] :: Slot(m1, root, q) == Slot(m0, root, q))
    && (forall l | IsKey(l) && l != k :: Walk(m1, root, l) == Walk(m0, root, l))
    && (forall l | IsKey(l) && NoHuge(m0, root, l) :: NoHuge(m1, root, l))
    && (forall l | IsKey(l) :: LinkRights(m1, root, l) == LinkRights(m0, root, l))
    && (IsPresent(e) ==> Pages(m1, root) == Pages(m0, root)[k := e])
    && (!IsPresent(e) ==> Pages(m1, root) == imap l | l in Pages(m0, root) && l != k :: Pages(m0, root)[l])
    && (IsPresent(e) ==> Walk(m1, root, k).Some? && |Walk(m1, root, k).value| == 4)
    && forall g | 0 <= g < |m0| && TableAt(m0, root, k[..3]) != Some(g) :: m1[g] == m0[g]
  }

  // The whole effect of `map` on page k: the finite map changes at k only, every other walk is
  // unchanged entry by entry, page k may be used as the entry and the links that were there allow, at
  // most three fresh tables appear on the path to k (linked with PRESENT and WRITABLE), the frames taken
  // are exactly those, and no frame but the tables on that path is written.
  ghost predicate PageMapped(m0: seq<Table>, m1: seq<Table>, root: nat, k: seq<nat>, e: Word,
                             free0: set<nat>, free1: set<nat>) {
    && IsKey(k) && |m1| == |m0| && Tree(m1, root) && IsPresent(e)
    && Pages(m1, root) == Pages(m0, root)[k := e]
    && (forall l | IsKey(l) && l != k :: Walk(m1, root, l) == Walk(m0, root, l))
    && Walk(m1, root, k).Some? && |Walk(m1, root, k).value| == 4
    && PageRights(m1, root, k) == Some(Both(LinkRights(m0, root, k), RightsOf(e)))
    && (forall l | IsKey(l) && NoHuge(m0, root, l) :: NoHuge(m1, root, l))
    && (forall l | IsKey(l) :: LinkRights(m1, root, l) == LinkRights(m0, root, l))
    && free1 == free0 - TablesAbove(m1, root, k)
    && (forall q | IsPath(q) && TableAt(m1, root, q) != TableAt(m0, root, q) ::
          q in {k[..1], k[..2], k[..3]} && TableAt(m0, root, q).None?
          && TableAt(m1, root, q).Some? && TableAt(m1, root, q).value in free0
          && Slot(m1, root, q) == Some(LinkEntry(TableAt(m1, root, q).value * FRAME_SIZE)))
    && forall g | 0 <= g < |m0| && g != root && g !in TablesAbove(m1, root, k) :: m1[g] == m0[g]
  }

  // The frames of the three tables between the root and page k.
  ghost function TablesAbove(m: seq<Table>, root: nat, k: seq<nat>): set<nat>
    requires IsKey(k)
  {
    (if TableAt(m, root, k[..1]).Some? then {TableAt(m, root, k[..1]).value} else {})
    + (if TableAt(m, root, k[..2]).Some? then {TableAt(m, root, k[..2]).value} else {})
    + (if TableAt(m, root, k[..3]).Some? then {TableAt(m, root, k[..3]).value} else {})
  }

  function Before(entries: seq<Word>, rest: Option<seq<Word>>): Option<seq<Word>> {
    if rest.None? then None else Some(entries + rest.value)
  }

  lemma NothingBefore(rest: Option<seq<Word>>)
    ensures Before([], rest) == rest
  {
    if rest.Some? { assert [] + rest.value == rest.value; }
  }

  // How many of them are missing.
  ghost function Missing(m: seq<Table>, root: nat, k: seq<nat>): nat
    requires IsKey(k)
  {
    (if TableAt(m, root, k[..1]).None? then 1 else 0)
    + (if TableAt(m, root, k[..2]).None? then 1 else 0)
    + (if TableAt(m, root, k[..3]).None? then 1 else 0)
  }

  lemma PrefixesOfKey(k: seq<nat>)
    requires IsKey(k)
    ensures |k| == 4 && k[0] < 512 && k[1] < 512 && k[2] < 512 && k[3] < 512
    ensures IsPath(k[..1]) && IsPath(k[..2]) && IsPath(k[..3]) && IsPath([])
    ensures [] + [k[0]] == k[..1] && k[..1] + [k[1]] == k[..2] && k[..2] + [k[2]] == k[..3] && k[..3] + [k[3]] == k
    ensures k[..1][..0] == [] && k[..2][..1] == k[..1] && k[..3][..2] == k[..2]
  {
  }

  // No reachable table is in the free set.
  ghost predicate Unfree(m: seq<Table>, root: nat, free: set<nat>) {
    forall q | IsPath(q) && TableAt(m, root, q).Some? :: TableAt(m, root, q).value !in free
  }

  ghost predicate Links3(m0: seq<Table>, m1: seq<Table>, m2: seq<Table>, m3: seq<Table>, root: nat, k: seq<nat>,
                         free0: set<nat>, free1: set<nat>, free2: set<nat>, free3: set<nat>) {
    && IsKey(k) && Tree(m0, root) && Unfree(m0, root, free0)
    && Linked(m0, m1, root, k[..1], free0, free1)
    && Linked(m1, m2, root, k[..2], free1, free2)
    && Linked(m2, m3, root, k[..3], free2, free3)
  }

  lemma ThreeLinks(m0: seq<Table>, m1: seq<Table>, m2: seq<Table>, m3: seq<Table>, root: nat, k: seq<nat>,
                   free0: set<nat>, free1: set<nat>, free2: set<nat>, free3: set<nat>)
    requires IsKey(k) && Tree(m0, root) && Unfree(m0, root, free0)
    requires Linked(m0, m1, root, k[..1], free0, free1)
    requires Linked(m1, m2, root, k[..2], free1, free2)
    requires Linked(m2, m3, root, k[..3], free2, free3)
    ensures Prepared(m0, m3, root, k, free0, free3)
  {
    ThreeLinksTables(m0, m1, m2, m3, root, k, free0, free1, free2, free3);
    ThreeLinksFree(m0, m1, m2, m3, root, k, free0, free1, free2, free3);
    ThreeLinksFrames(m0, m1, m2, m3, root, k, free0, free1, free2, free3);
    forall l | IsKey(l) ensures Walk(m3, root, l) == Walk(m0, root, l) {
      assert Walk(m1, root, l) == Walk(m0, root, l);
      assert Walk(m2, root, l) == Walk(m1, root, l);
    }
    forall l | IsKey(l) && NoHuge(m0, root, l) ensures NoHuge(m3, root, l) {
      assert NoHuge(m1, root, l) && NoHuge(m2, root, l);
    }
    forall l | IsKey(l) ensures LinkRights(m3, root, l) == LinkRights(m0, root, l) {
      assert LinkRights(m1, root, l) == LinkRights(m0, root, l);
      assert LinkRights(m2, root, l) == LinkRights(m1, root, l);
    }
  }

  lemma PathUnchanged(m0: seq<Table>, m1: seq<Table>, root: nat, q: seq<nat>, free0: set<nat>, free1: set<nat>,
                      r: seq<nat>)
    requires Linked(m0, m1, root, q, free0, free1) && IsPath(r)
    ensures r != [] && r != q && Slot(m0, root, r).Some? ==> Slot(m1, root, r) == Slot(m0, root, r)
    ensures r == q && TableAt(m0, root, r).None? ==>
            Slot(m1, root, r) == Some(LinkEntry(TableAt(m1, root, r).value * FRAME_SIZE))
    ensures r != q || TableAt(m0, root, r).Some? ==> TableAt(m1, root, r) == TableAt(m0, root, r)
    ensures r == q && TableAt(m0, root, r).None? ==> TableAt(m1, root, r).Some? && TableAt(m1, root, r).value in free0
    ensures free1 <= free0
  {
  }

  lemma ThreeLinksTables(m0: seq<Table>, m1: seq<Table>, m2: seq<Table>, m3: seq<Table>, root: nat, k: seq<nat>,
                         free0: set<nat>, free1: set<nat>, free2: set<nat>, free3: set<nat>)
    requires Links3(m0, m1, m2, m3, root, k, free0, free1, free2, free3)
    ensures TableAt(m3, root, k[..1]).Some? && TableAt(m3, root, k[..2]).Some? && TableAt(m3, root, k[..3]).Some?
    ensures forall q | IsPath(q) && TableAt(m0, root, q).Some? :: TableAt(m3, root, q) == TableAt(m0, root, q)
    ensures forall q | IsPath(q) && TableAt(m3, root, q) != TableAt(m0, root, q) ::
              q in {k[..1], k[..2], k[..3]} && TableAt(m3, root, q).Some? && TableAt(m3, root, q).value in free0
              && Slot(m3, root, q) == Some(LinkEntry(TableAt(m3, root, q).value * FRAME_SIZE))
  {
    PrefixesOfKey(k);
    var k1, k2, k3 := k[..1], k[..2], k[..3];
    assert |k1| == 1 && |k2| == 2 && |k3| == 3;
    forall q | IsPath(q)
      ensures TableAt(m0, root, q).Some? ==> TableAt(m3, root, q) == TableAt(m0, root, q)
      ensures q in {k1, k2, k3} ==> TableAt(m3, root, q).Some?
      ensures TableAt(m3, root, q) != TableAt(m0, root, q) ==>
                q in {k1, k2, k3} && TableAt(m3, root, q).Some? && TableAt(m3, root, q).value in free0
                && Slot(m3, root, q) == Some(LinkEntry(TableAt(m3, root, q).value * FRAME_SIZE))
    {
      PathUnchanged(m0, m1, root, k1, free0, free1, q);
      PathUnchanged(m1, m2, root, k2, free1, free2, q);
      PathUnchanged(m2, m3, root, k3, free2, free3, q);
    }
  }

  lemma ThreeLinksFree(m0: seq<Table>, m1: seq<Table>, m2: seq<Table>, m3: seq<Table>, root: nat, k: seq<nat>,
                       free0: set<nat>, free1: set<nat>, free2: set<nat>, free3: set<nat>)
    requires Links3(m0, m1, m2, m3, root, k, free0, free1, free2, free3)
    ensures free3 == free0 - TablesAbove(m3, root, k)
  {
    PrefixesOfKey(k);
    var k1, k2, k3 := k[..1], k[..2], k[..3];
    assert |k1| == 1 && |k2| == 2 && |k3| == 3;
    OneLinkFree(m0, m1, root, k1, free0, free1);
    OneLinkFree(m1, m2, root, k2, free1, free2);
    OneLinkFree(m2, m3, root, k3, free2, free3);
    assert TableAt(m3, root, k1) == TableAt(m2, root, k1) == TableAt(m1, root, k1);
    assert TableAt(m3, root, k2) == TableAt(m2, root, k2);
  }

  lemma OneLinkFree(m0: seq<Table>, m1: seq<Table>, root: nat, q: seq<nat>, free0: set<nat>, free1: set<nat>)
    requires Linked(m0, m1, root, q, free0, free1)
    requires Unfree(m0, root, free0)
    ensures free1 == free0 - {TableAt(m1, root, q).value} && Unfree(m1, root, free1)
  {
    forall r | IsPath(r) && TableAt(m1, root, r).Some? ensures TableAt(m1, root, r).value !in free1 {
      PathUnchanged(m0, m1, root, q, free0, free1, r);
    }
  }

  lemma ThreeLinksFrames(m0: seq<Table>, m1: seq<Table>, m2: seq<Table>, m3: seq<Table>, root: nat, k: seq<nat>,
                         free0: set<nat>, free1: set<nat>, free2: set<nat>, free3: set<nat>)
    requires Links3(m0, m1, m2, m3, root, k, free0, free1, free2, free3)
    ensures forall g | 0 <= g < |m0| && g != root && g !in TablesAbove(m3, root, k) :: m3[g] == m0[g]
  {
    PrefixesOfKey(k);
    var k1, k2, k3 := k[..1], k[..2], k[..3];
    assert |k1| == 1 && |k2| == 2 && |k3| == 3;
    assert TableAt(m3, root, k1) == TableAt(m2, root, k1) == TableAt(m1, root, k1);
    assert TableAt(m3, root, k2) == TableAt(m2, root, k2);
    forall g | 0 <= g < |m0| && g != root && g !in TablesAbove(m3, root, k) ensures m3[g] == m0[g] {
      OneLinkFrame(m0, m1, root, k1, free0, free1, g);
      OneLinkFrame(m1, m2, root, k2, free1, free2, g);
      OneLinkFrame(m2, m3, root, k3, free2, free3, g);
      assert TableAt(m0, root, []) == Some(root);
    }
  }

  lemma OneLinkFrame(m0: seq<Table>, m1: seq<Table>, root: nat, q: seq<nat>, free0: set<nat>, free1: set<nat>, g: nat)
    requires Linked(m0, m1, root, q, free0, free1) && g < |m0|
    ensures TableAt(m1, root, q) != Some(g) && TableAt(m0, root, q[..|q| - 1]) != Some(g) ==> m1[g] == m0[g]
  {
  }

  // ---------- the address space ----------

  class AddressSpace {
    const fa: FrameBitmap
    const mem: array<Table>
    var rootPml4: nat  // ROOT_PML4, 0 until `init`
    var cr3: nat
    var tlb: map<seq<nat>, seq<Word>>  // the processor's cached walks

    // The state the bootloader leaves: its own tables at cr3, in frames outside usable memory, and any
    // walks of them in the TLB.
    constructor (fa: FrameBitmap, mem: array<Table>, cr3: nat, tlb: map<seq<nat>, seq<Word>>)
      requires fa.Valid() && mem.Length * FRAME_SIZE <= PHYS_LIMIT && cr3 % FRAME_SIZE == 0
      requires forall f | f in fa.Free() :: f < mem.Length
      requires Tree(mem[..], cr3 / FRAME_SIZE)
      requires forall p | IsPath(p) && TableAt(mem[..], cr3 / FRAME_SIZE, p).Some? ::
                 var f := TableAt(mem[..], cr3 / FRAME_SIZE, p).value; f !in fa.Free() && f !in fa.reserved
      requires forall k | k in tlb :: IsKey(k) && Walk(mem[..], cr3 / FRAME_SIZE, k) == Some(tlb[k])
      ensures Valid() && this.fa == fa && this.mem == mem && this.cr3 == cr3 && this.tlb == tlb && rootPml4 == 0
    {
      this.fa, this.mem, this.cr3, this.tlb, rootPml4 := fa, mem, cr3, tlb, 0;
    }

    ghost function Root(): nat
      reads this
    {
      cr3 / FRAME_SIZE
    }

    ghost function TableOf(p: seq<nat>): Option<nat>
      reads this, mem
    {
      TableAt(mem[..], Root(), p)
    }

    ghost function WalkOf(k: seq<nat>): Option<seq<Word>>
      requires IsKey(k)
      reads this, mem
    {
      Walk(mem[..], Root(), k)
    }

    ghost function View(): imap<seq<nat>, Word>
      reads this, mem
    {
      Pages(mem[..], Root())
    }

    // Tables are marked used and are never the bitmap's own frames.
    ghost predicate TablesOwned()
      reads this, fa, fa.bits, mem
    {
      forall p | IsPath(p) && TableOf(p).Some? :: TableOf(p).value !in fa.Free() && TableOf(p).value !in fa.reserved
    }

    // Every cached translation is the current one.
    ghost predicate TlbCoherent()
      reads this, mem
    {
      forall k | k in tlb :: IsKey(k) && WalkOf(k) == Some(tlb[k])
    }

    ghost predicate Valid()
      reads this, fa, fa.bits, mem
    {
      && fa.Valid() && mem.Length * FRAME_SIZE <= PHYS_LIMIT && cr3 % FRAME_SIZE == 0
      && (forall f | f in fa.Free() :: f < mem.Length)
      && Tree(mem[..], Root())
      && TablesOwned()
      && (rootPml4 == 0 || rootPml4 == cr3) && (rootPml4 != 0 ==> fa.up)
      && TlbCoherent()
    }

    lemma RootIsTable()
      requires Valid()
      ensures TableOf([]) == Some(Root()) == Followed(mem[..], Root(), []) && Root() < mem.Length
              && Root() !in fa.Free()
      ensures rootPml4 != 0 ==> rootPml4 == cr3 && cr3 % FRAME_SIZE == 0
    {
      assert IsPath([]);
    }

    // The processor's page walker: the entries it reads from the root down, or None for a page fault.
    method PageWalk(k: seq<nat>) returns (w: Option<seq<Word>>)
      requires Valid() && IsKey(k)
      ensures w == WalkOf(k) && (w.Some? ==> |w.value| > 0)
    {
      hide Tree, WalkFrom;
      PrefixesOfKey(k);
      RootIsTable();
      var t, d := cr3 / FRAME_SIZE, 0;
      var entries: seq<Word> := [];
      NothingBefore(WalkOf(k));
      while d < 3
        invariant d <= 3 && |entries| == d && TableOf(k[..d]) == Some(t)
        invariant WalkOf(k) == Before(entries, WalkFrom(mem[..], Root(), k, d))
      {
        StepOfWalk(k, d, t, entries);
        var e := mem[t][k[d]];
        if !IsPresent(e) { return None; }
        entries := entries + [e];
        if d > 0 && IsHuge(e) { return Some(entries); }
        t, d := Target(e), d + 1;
      }
      StepOfWalk(k, d, t, entries);
      var leaf := mem[t][k[3]];
      if !IsPresent(leaf) { return None; }
      return Some(entries + [leaf]);
    }

    lemma StepOfWalk(k: seq<nat>, d: nat, t: nat, entries: seq<Word>)
      requires Valid() && IsKey(k) && d < 4 && TableOf(k[..d]) == Some(t)
      ensures t < mem.Length && k[d] < 512
      ensures var e, w := mem[t][k[d]], Before(entries, WalkFrom(mem[..], Root(), k, d));
              if !IsPresent(e) then w == None
              else if d == 3 || (d > 0 && IsHuge(e)) then w == Some(entries + [e])
              else
                && w == Before(entries + [e], WalkFrom(mem[..], Root(), k, d + 1))
                && TableOf(k[..d + 1]) == Some(Target(e))
    {
      hide Tree, TableAt, And, IsPresent, IsHuge, Target;
      PrefixesOfKey(k);
      InRange(k[..d], t);
      assert k[..d + 1][..d] == k[..d];
      if d < 3 {
        ChildOfSlot(mem[..], Root(), k[..d + 1]);
        var more := WalkFrom(mem[..], Root(), k, d + 1);
        if more.Some? { assert entries + ([mem[t][k[d]]] + more.value) == entries + [mem[t][k[d]]] + more.value; }
      }
    }

    lemma InRange(p: seq<nat>, t: nat)
      requires Valid() && IsPath(p) && TableOf(p) == Some(t)
      ensures t < mem.Length
    {
    }

    // The processor may cache the walk of any present page at any time.
    method TlbFill(virt: nat)
      requires Valid()
      modifies this`tlb
      ensures Valid() && WalkOf(Key(virt)) == old(WalkOf(Key(virt)))
      ensures tlb == if WalkOf(Key(virt)).Some? then old(tlb)[Key(virt) := WalkOf(Key(virt)).value] else old(tlb)
    {
      var w := PageWalk(Key(virt));
      if w.Some? { tlb := tlb[Key(virt) := w.value]; }
    }

    // The entry through which the processor reaches an address: from the TLB if it is there and the
    // processor looks, otherwise by walking the tables, and cached or not as it likes.  A write needs
    // every entry on the walk to allow it.
    method Translate(virt: nat, write: bool) returns (a: Outcome)
      requires Valid()
      modifies this`tlb
      ensures Valid()
      ensures a == if Key(virt) !in View() then NotPresent
                   else if write && !PageRights(mem[..], Root(), Key(virt)).value.write then Denied
                   else Through(View()[Key(virt)])
    {
      hide Tree, Walk, Key, Bit;
      var k := Key(virt);
      var looks, caches: bool := *, *;
      if looks && k in tlb {
        WalkNotEmpty(k);
        if write && !RightsAlong(tlb[k]).write { return Denied; }
        return Through(tlb[k][|tlb[k]| - 1]);
      }
      var w := PageWalk(k);
      if w.None? { return NotPresent; }
      if caches { tlb := tlb[k := w.value]; }
      if write && !RightsAlong(w.value).write { return Denied; }
      return Through(w.value[|w.value| - 1]);
    }

    lemma WalkNotEmpty(k: seq<nat>)
      requires IsKey(k) && WalkOf(k).Some?
      ensures |WalkOf(k).value| > 0
    {
    }

    // `init`; false is the panic when no frame is left.
    method Init() returns (ok: bool)
      requires Valid()
      modifies this`rootPml4, this`cr3, fa.bits, mem
      ensures ok <==> !old(fa.up) || old(fa.Free()) != {}
      ensures ok ==> Valid()
      ensures ok ==>
                forall k | IsKey(k) ::
                  WalkOf(k) == old(WalkOf(k)) && (old(NoHuge(mem[..], Root(), k)) ==> NoHuge(mem[..], Root(), k))
      ensures ok ==> forall q | IsPath(q) && q != [] :: TableOf(q) == old(TableOf(q))
      ensures ok ==> forall k | IsKey(k) :: LinkRights(mem[..], Root(), k) == old(LinkRights(mem[..], Root(), k))
      ensures ok ==> View() == old(View()) && tlb == old(tlb)
      ensures ok && !fa.up ==> rootPml4 == old(rootPml4) && cr3 == old(cr3)
      ensures ok && fa.up ==> rootPml4 == cr3 && Root() in old(fa.Free()) && fa.Free() == old(fa.Free()) - {Root()}
      ensures ok && fa.up ==> (rootPml4 != 0 <==> 0 !in old(fa.Free()))
      ensures ok && fa.up ==> forall g | 0 <= g < mem.Length && g != Root() :: mem[g] == old(mem[g])
    {
      hide RunFree, FreeSet, And, WalkFrom, HugeAt, Slot;
      if !fa.up { return true; }
      RootIsTable();
      var m0, old3 := mem[..], Root();
      var ourPhys := fa.AllocFrames(1);
      if ourPhys.None? {
        NoSingleRun();
        return false;
      }
      var f := ourPhys.value / FRAME_SIZE;
      SingleRun(f);
      CopyKeepsAll(m0, old3, f);
      mem[f] := mem[cr3 / FRAME_SIZE];
      assert mem[..] == m0[f := m0[old3]];
      rootPml4, cr3 := ourPhys.value, ourPhys.value;
      return true;
    }

    // A run of one frame is a free frame.
    twostate lemma NoSingleRun()
      requires old(fa.up) && forall s: nat :: !RunFree(old(fa.bits[..]), s, 1)
      ensures old(fa.Free()) == {}
    {
      forall s: nat ensures s !in old(fa.Free()) {
        assert !RunFree(old(fa.bits[..]), s, 1);
      }
    }

    twostate lemma SingleRun(f: nat)
      requires old(fa.up) && RunFree(old(fa.bits[..]), f, 1)
      requires forall s: nat | s < f :: !RunFree(old(fa.bits[..]), s, 1)
      ensures Range(f, 1) == {f} && f in old(fa.Free()) && (f == 0 <==> 0 in old(fa.Free()))
      ensures forall g: nat | g < f :: g !in old(fa.Free())
    {
      forall g: nat | g < f ensures g !in old(fa.Free()) {
        assert !RunFree(old(fa.bits[..]), g, 1);
      }
    }

    predicate OwnsTables()
      reads this
    {
      rootPml4 != 0
    }

    // A large-page entry where the code looks for a table.
    ghost predicate LargeAt(p: seq<nat>, index: nat)
      reads this, mem
    {
      |p| > 0 && HugeAt(mem[..], Root(), p + [index])
    }

    // A frame that is no table of the tree: what is written there the processor does not see.
    ghost predicate IsData(f: nat)
      reads this, mem
    {
      f < mem.Length && !IsTable(mem[..], Root(), f)
    }

    // `next_table` on the table at path p, or on a data frame taken for a table; None is the panic when
    // no frame is left.  A large page is taken for a table: its first frame is returned although the
    // tree has no table there.
    method NextTable(table: nat, index: nat, ghost p: seq<nat>) returns (r: Option<nat>)
      requires Valid() && rootPml4 != 0
      requires |p| < 3 && IsPath(p + [index]) && IsPath(p) && index < 512
      requires table % FRAME_SIZE == 0 && table / FRAME_SIZE < mem.Length
      requires TableOf(p) == Some(table / FRAME_SIZE) || IsData(table / FRAME_SIZE)
      modifies fa.bits, mem
      ensures r.None? <==> !IsPresent(old(mem[table / FRAME_SIZE][index])) && old(fa.Free()) == {}
      ensures old(TableOf(p)) == Some(table / FRAME_SIZE) ==>
                (r.None? <==> old(TableOf(p + [index])).None? && !old(LargeAt(p, index)) && old(fa.Free()) == {})
      ensures r.Some? ==> Valid() && r.value % FRAME_SIZE == 0
      ensures IsPresent(old(mem[table / FRAME_SIZE][index])) ==>
                && mem[..] == old(mem[..]) && fa.bits[..] == old(fa.bits[..])
                && r == Some(Target(old(mem[table / FRAME_SIZE][index])) * FRAME_SIZE)
      ensures old(TableOf(p)) == Some(table / FRAME_SIZE) && r.Some? ==>
                (TableOf(p + [index]) == Some(r.value / FRAME_SIZE) <==> !old(LargeAt(p, index)))
      ensures old(TableOf(p)) == Some(table / FRAME_SIZE) && r.Some? && !old(LargeAt(p, index)) ==>
                Linked(old(mem[..]), mem[..], Root(), p + [index], old(fa.Free()), fa.Free())
      ensures old(IsData(table / FRAME_SIZE)) && r.Some? ==> SameSpace(old(mem[..]), mem[..], Root())
      ensures old(IsData(table / FRAME_SIZE)) && !IsPresent(old(mem[table / FRAME_SIZE][index])) && r.Some? ==>
                IsData(r.value / FRAME_SIZE)
    {
      hide Tree, TableAt, Walk, HugeAt, Slot, NoHuge, Linked, LinkEntry, Pages, SameSpace, IsTable, IsPresent,
           Target, this.LargeAt, And, Or,
           FreeSet, RunFree;
      var t := table / FRAME_SIZE;
      ghost var q := p + [index];
      assert q[..|q| - 1] == p;
      RootIsTable();
      if TableOf(p) == Some(t) { SlotInTable(table, index, p); }
      TableIsNoData(p, t);
      NothingDiffers();
      FreeFramesAreData();
      var entry := mem[t][index];
      if IsPresent(entry) {
        AddrField(entry);
        if TableOf(p) == Some(t) && !LargeAt(p, index) { SameStateLinked(mem[..], Root(), q, fa.Free()); }
        return Some(And(entry, ADDR_MASK));
      }
      ghost var m0 := mem[..];
      var phys := fa.AllocFrames(1);
      if phys.None? {
        NoSingleRun();
        return None;
      }
      var f := phys.value / FRAME_SIZE;
      SingleRun(f);
      LinkEntryMeans(phys.value);
      var link := LinkEntry(phys.value);
      mem[f] := ZeroTable();
      ghost var m1 := mem[..];
      mem[t] := mem[t][index := link];
      if old(TableOf(p)) == Some(t) {
        assert CanLink(m0, Root(), p, index, t, f, link);
        assert mem[..] == LinkTable(m0, t, index, f, link);
        LinkFacts(m0, Root(), p, index, t, f, link, mem[..], old(fa.Free()));
      } else {
        DataWritten(m0, m1, mem[..], Root(), t, f);
        StillValid(m0);
      }
      return Some(phys.value);
    }

    lemma TableIsNoData(p: seq<nat>, t: nat)
      requires IsPath(p)
      ensures TableOf(p) == Some(t) ==> !IsData(t)
    {
    }

    lemma NothingDiffers()
      requires Valid()
      ensures SameSpace(mem[..], mem[..], Root())
    {
    }

    lemma FreeFramesAreData()
      requires Valid()
      ensures forall f | f in fa.Free() :: IsData(f)
    {
      forall f | f in fa.Free() ensures IsData(f) {
        if IsTable(mem[..], Root(), f) { TableIsUsed(f); }
      }
    }

    lemma TableIsUsed(f: nat)
      requires Valid() && IsTable(mem[..], Root(), f)
      ensures f !in fa.Free()
    {
      var p :| IsPath(p) && TableAt(mem[..], Root(), p) == Some(f);
      assert TableOf(p) == Some(f);
    }

    // Marking frames used, and writing memory where the processor does not see it, keep all in order.
    twostate lemma StillValid(m0: seq<Table>)
      requires old(Valid()) && m0 == old(mem[..]) && SameSpace(m0, mem[..], Root())
      requires rootPml4 == old(rootPml4) && cr3 == old(cr3) && fa.up == old(fa.up) && fa.reserved == old(fa.reserved)
      requires fa.Valid() && fa.Free() <= old(fa.Free())
      requires forall k | k in tlb :: k in old(tlb) && tlb[k] == old(tlb[k])
      ensures Valid()
    {
      hide Walk, NoHuge, Pages, Tree;
    }

    lemma SlotInTable(table: nat, index: nat, p: seq<nat>)
      requires Valid() && |p| < 3 && IsPath(p + [index]) && IsPath(p) && index < 512
      requires TableOf(p) == Some(table / FRAME_SIZE)
      ensures Tree(mem[..], Root()) && table / FRAME_SIZE < mem.Length
      ensures var e := mem[table / FRAME_SIZE][index];
              && Slot(mem[..], Root(), p + [index]) == Some(e) && (LargeAt(p, index) ==> IsPresent(e))
              && TableOf(p + [index]) == if IsPresent(e) && !LargeAt(p, index) then Some(Target(e)) else None
    {
      assert (p + [index])[..|p|] == p;
    }

    // ---------- large pages on the path ----------

    ghost function FollowedOf(p: seq<nat>): Option<nat>
      reads this, mem
    {
      Followed(mem[..], Root(), p)
    }

    // What the code takes for tables on the path to page k are tables of the tree there or, behind a
    // large page, data frames.
    ghost predicate Harmless(k: seq<nat>)
      reads this, mem
    {
      IsKey(k) && Found(k[..1]) && Found(k[..2]) && Found(k[..3])
    }

    ghost predicate Found(p: seq<nat>)
      reads this, mem
    {
      FollowedOf(p).Some? ==> TableOf(p) == FollowedOf(p) || IsData(FollowedOf(p).value)
    }

    lemma NoHugeHarmless(k: seq<nat>)
      requires Valid() && IsKey(k) && NoHuge(mem[..], Root(), k)
      ensures Harmless(k)
    {
      hide Walk, Pages, NoHuge;
      FollowedTree(mem[..], Root(), k, 1);
      FollowedTree(mem[..], Root(), k, 2);
      FollowedTree(mem[..], Root(), k, 3);
    }

    // One step of the code.
    lemma FollowedStep(table: nat, p: seq<nat>, i: nat)
      requires Valid() && FollowedOf(p) == Some(table / FRAME_SIZE) && table / FRAME_SIZE < mem.Length && i < 512
      ensures var e := mem[table / FRAME_SIZE][i];
              FollowedOf(p + [i]) == if IsPresent(e) then Some(Target(e)) else None
    {
      assert (p + [i])[..|p|] == p;
    }

    lemma TableInMemory(p: seq<nat>)
      requires Valid() && IsPath(p) && TableOf(p).Some?
      ensures TableOf(p).value < mem.Length
    {
    }

    // `map`.  The page may be used as `flags` and the links already on its path allow.  With a large page
    // on the path it may panic when no frame is left, and otherwise reports success although no
    // translation changes; the page is mapped as asked exactly without one.
    method Map(virt: nat, phys: nat, flags: nat) returns (r: MapResult)
      requires Valid() && phys < WORD_LIMIT && flags < WORD_LIMIT
      requires rootPml4 != 0 ==> Harmless(Key(virt))
      modifies this`tlb, fa.bits, mem
      ensures r.NotInitialized? <==> !OwnsTables()
      ensures r.NotInitialized? ==> mem[..] == old(mem[..]) && fa.Free() == old(fa.Free()) && tlb == old(tlb)
      ensures r.Panicked? <==> OwnsTables() && old(CannotReach(Key(virt)))
      ensures !r.Panicked? ==> Valid()
      ensures r.Mapped? ==> LeafEntry(phys, flags) < WORD_LIMIT
      ensures r.Mapped? && old(NoHuge(mem[..], Root(), Key(virt))) ==>
                PageMapped(old(mem[..]), mem[..], Root(), Key(virt), LeafEntry(phys, flags), old(fa.Free()), fa.Free())
      ensures r.Mapped? && !old(NoHuge(mem[..], Root(), Key(virt))) ==> SameSpace(old(mem[..]), mem[..], Root())
      ensures r.Mapped? ==> (EndsIn(WalkOf(Key(virt)), LeafEntry(phys, flags)) <==>
                             old(NoHuge(mem[..], Root(), Key(virt))))
      ensures r.Mapped? && old(NoHuge(mem[..], Root(), Key(virt))) && phys < PHYS_LIMIT ==>
                PageRights(mem[..], Root(), Key(virt)) ==
                Some(Both(old(LinkRights(mem[..], Root(), Key(virt))), RightsOf(flags)))
      ensures r.Mapped? ==> tlb == old(tlb) - {Key(virt)}
    {
      hide Tree, TableAt, Walk, Prepared, LeafWritten, PageMapped, HugeAt, Slot, Key, NoHuge, SameSpace, Pages,
           this.Valid, this.CannotReach, this.Harmless;
      if rootPml4 == 0 { return NotInitialized; }
      NoTableIsFree();
      var pt := TablesFor(virt);
      if pt.None? { return Panicked; }
      ghost var m3 := mem[..];
      var k := Key(virt);
      PrefixesOfKey(k);
      var (_, _, _, i1) := Indices(virt);
      LeafEntryIsPresent(phys, flags);
      WriteLeaf(pt.value, i1, LeafEntry(phys, flags), k);
      if old(NoHuge(mem[..], Root(), Key(virt))) {
        PreparedThenWritten(old(mem[..]), m3, mem[..], Root(), k, LeafEntry(phys, flags), old(fa.Free()), fa.Free());
        MappedEnds(old(mem[..]), mem[..], Root(), k, LeafEntry(phys, flags), old(fa.Free()), fa.Free());
        if phys < PHYS_LIMIT { LeafRights(phys, flags); }
      } else {
        SameSpaceTrans(old(mem[..]), m3, mem[..], Root());
        HugeStays(old(mem[..]), mem[..], Root(), k);
      }
      return Mapped;
    }

    // There are no frames left for the tables that are missing on the path, or that the code misses
    // behind a large page.
    ghost predicate CannotReach(k: seq<nat>)
      requires IsKey(k)
      reads this, mem, fa, fa.bits
    {
      if NoHuge(mem[..], Root(), k) then |fa.Free()| < Missing(mem[..], Root(), k)
      else FollowedOf(k[..3]).None? && fa.Free() == {}
    }

    // The three calls of `next_table` in `map`: the last-level table of an address, or what the code
    // takes for it.
    method TablesFor(virt: nat) returns (pt: Option<nat>)
      requires Valid() && OwnsTables() && Harmless(Key(virt))
      modifies fa.bits, mem
      ensures pt.None? <==> old(CannotReach(Key(virt)))
      ensures pt.Some? ==> Valid() && pt.value / FRAME_SIZE < mem.Length
      ensures pt.Some? && old(NoHuge(mem[..], Root(), Key(virt))) ==>
                && TableOf(Key(virt)[..3]) == Some(pt.value / FRAME_SIZE)
                && Prepared(old(mem[..]), mem[..], Root(), Key(virt), old(fa.Free()), fa.Free())
      ensures pt.Some? && !old(NoHuge(mem[..], Root(), Key(virt))) ==>
                IsData(pt.value / FRAME_SIZE) && SameSpace(old(mem[..]), mem[..], Root())
    {
      hide Tree, TableAt, Walk, Linked, Links3, Prepared, HugeAt, Slot, Key, SameSpace, Pages, IsTable,
           Followed, IsPresent, Target, this.Valid, And, Or, LeafEntry, LinkEntry, FreeSet;
      var k := Key(virt);
      PrefixesOfKey(k);
      RootIsTable();
      NothingDiffers();
      ghost var huge := !NoHuge(mem[..], Root(), k);
      if huge { HugePath(k); }
      FollowedStep(rootPml4, [], k[0]);
      var (i4, i3, i2, i1) := Indices(virt);
      ghost var m0, free0 := mem[..], fa.Free();
      NoTableIsFree();
      var pdpt := NextTable(rootPml4, i4, []);
      if pdpt.None? { return None; }
      ghost var m1, free1 := mem[..], fa.Free();
      TableInMemory(k[..1]);
      if huge {
        FollowedStep(pdpt.value, k[..1], i3);
      } else {
        LinkStep(m0, m1, Root(), k[..1], free0, free1, k);
      }
      var pd := NextTable(pdpt.value, i3, k[..1]);
      if pd.None? { return None; }
      ghost var m2, free2 := mem[..], fa.Free();
      if huge {
        FollowedStep(pd.value, k[..2], i2);
      } else {
        TableInMemory(k[..2]);
        LinkStep(m1, m2, Root(), k[..2], free1, free2, k);
      }
      pt := NextTable(pd.value, i2, k[..2]);
      if pt.None? { return None; }
      if !huge {
        TableInMemory(k[..3]);
        LinkStep(m2, mem[..], Root(), k[..3], free2, fa.Free(), k);
        ThreeLinks(m0, m1, m2, mem[..], Root(), k, free0, free1, free2, fa.Free());
      }
    }

    // The tables above a large page are there, and the code finds its first frame.
    lemma HugePath(k: seq<nat>)
      requires Valid() && IsKey(k) && !NoHuge(mem[..], Root(), k)
      ensures IsPath(k[..1]) && IsPath(k[..2])
      ensures TableOf(k[..1]).Some? && FollowedOf(k[..1]) == TableOf(k[..1]) && TableOf(k[..3]).None?
      ensures TableOf(k[..2]).Some? ==> FollowedOf(k[..2]) == TableOf(k[..2]) && FollowedOf(k[..3]).Some?
      ensures FollowedOf(k[..2]).Some?
    {
      hide Walk, Pages;
      HugeIsMapped(mem[..], Root(), k);
      assert k[..3][..2] == k[..2] && k[..2][..1] == k[..1];
      FollowedTable(mem[..], Root(), k[..1]);
      if TableOf(k[..2]).Some? { FollowedTable(mem[..], Root(), k[..2]); }
    }

    lemma NoTableIsFree()
      requires Valid()
      ensures Tree(mem[..], Root()) && Unfree(mem[..], Root(), fa.Free())
    {
    }

    // `pt.0[i1] = entry; invlpg(virt)`, on the last-level table above page k or on a data frame.
    method WriteLeaf(pt: nat, i1: nat, entry: Word, k: seq<nat>)
      requires Valid() && IsKey(k) && IsPath(k[..3]) && i1 == k[3] && pt / FRAME_SIZE < mem.Length
      requires TableOf(k[..3]) == Some(pt / FRAME_SIZE) || IsData(pt / FRAME_SIZE)
      modifies this`tlb, mem
      ensures Valid()
      ensures mem[..] == old(mem[..])[pt / FRAME_SIZE := old(mem[pt / FRAME_SIZE])[i1 := entry]]
      ensures old(TableOf(k[..3])) == Some(pt / FRAME_SIZE) ==>
                LeafWritten(old(mem[..]), mem[..], Root(), k, entry)
      ensures old(IsData(pt / FRAME_SIZE)) ==> SameSpace(old(mem[..]), mem[..], Root())
      ensures tlb == old(tlb) - {k}
    {
      hide SameSpace, IsTable, Walk, LinkRights, NoHuge, Pages, Slot, TableAt;
      ghost var m0, t, isData := mem[..], pt / FRAME_SIZE, IsData(pt / FRAME_SIZE);
      TableIsNoData(k[..3], t);
      if isData { DataSame(m0, Root(), t, m0[t][i1 := entry]); } else { assert CanWrite(m0, Root(), k, t); }
      mem[pt / FRAME_SIZE] := mem[pt / FRAME_SIZE][i1 := entry];
      tlb := tlb - {k};
      if isData {
        StillValid(m0);
      } else {
        LeafFacts(m0, Root(), k, t, entry, mem[..]);
        forall p | IsPath(p) && TableOf(p).Some?
          ensures TableOf(p).value !in fa.Free() && TableOf(p).value !in fa.reserved
        {
          assert TableOf(p) == TableAt(m0, Root(), p);
        }
      }
    }

    // `next_table_existing`.
    function NextTableExisting(table: nat, index: nat): Option<nat>
      requires table / FRAME_SIZE < mem.Length && index < 512
      reads mem
    {
      var entry := mem[table / FRAME_SIZE][index];
      if IsPresent(entry) then Some(And(entry, ADDR_MASK)) else None
    }

    // One step of a read-only walk follows the tree exactly where there is no large page.
    lemma ExistingIsChild(table: nat, index: nat, p: seq<nat>)
      requires Valid() && |p| < 3 && IsPath(p) && index < 512 && IsPath(p + [index])
      requires TableOf(p) == Some(table / FRAME_SIZE)
      ensures table / FRAME_SIZE < mem.Length
      ensures var r := NextTableExisting(table, index);
              TableOf(p + [index]) == (if r.Some? then Some(r.value / FRAME_SIZE) else None) <==> !LargeAt(p, index)
    {
      SlotInTable(table, index, p);
      AddrField(mem[table / FRAME_SIZE][index]);
    }

    // `unmap` removes exactly one page.  A large page stays; what is zeroed is a word of the frame that
    // the code takes for its table, if it finds one.
    method Unmap(virt: nat)
      requires Valid() && (rootPml4 != 0 ==> Harmless(Key(virt)))
      modifies this`tlb, mem
      ensures Valid()
      ensures !OwnsTables() ==> mem[..] == old(mem[..]) && tlb == old(tlb)
      ensures OwnsTables() && old(NoHuge(mem[..], Root(), Key(virt))) ==>
                LeafWritten(old(mem[..]), mem[..], Root(), Key(virt), 0) && tlb == old(tlb) - {Key(virt)}
      ensures OwnsTables() && !old(NoHuge(mem[..], Root(), Key(virt))) ==>
                SameSpace(old(mem[..]), mem[..], Root()) && Key(virt) in View()
      ensures OwnsTables() ==> (Key(virt) !in View() <==> old(NoHuge(mem[..], Root(), Key(virt))))
    {
      hide Tree, TableAt, Walk, HugeAt, Slot, Key, LeafWritten, NoHuge, Pages, SameSpace, Followed, IsTable,
           this.Valid;
      if rootPml4 == 0 { return; }
      var k := Key(virt);
      PrefixesOfKey(k);
      RootIsTable();
      ghost var m0, huge := mem[..], !NoHuge(mem[..], Root(), k);
      UnmapCases(k);
      FollowedStep(rootPml4, [], k[0]);
      var (i4, i3, i2, i1) := Indices(virt);
      AddrField(mem[rootPml4 / FRAME_SIZE][i4]);
      var pdpt := NextTableExisting(rootPml4, i4);
      if pdpt.None? { return; }
      FoundInMemory(k[..1]);
      FollowedStep(pdpt.value, k[..1], i3);
      AddrField(mem[pdpt.value / FRAME_SIZE][i3]);
      var pd := NextTableExisting(pdpt.value, i3);
      if pd.None? { return; }
      FoundInMemory(k[..2]);
      FollowedStep(pd.value, k[..2], i2);
      AddrField(mem[pd.value / FRAME_SIZE][i2]);
      var pt := NextTableExisting(pd.value, i2);
      if pt.None? { return; }
      FoundInMemory(k[..3]);
      WriteLeaf(pt.value, i1, 0, k);
      if huge { HugeStays(m0, mem[..], Root(), k); } else { UnmappedEnds(m0, mem[..], Root(), k); }
    }

    // Before the walk of `unmap`: what holds if it finds no table, and what it may find.
    lemma UnmapCases(k: seq<nat>)
      requires Valid() && Harmless(k)
      ensures SameSpace(mem[..], mem[..], Root())
      ensures NoHuge(mem[..], Root(), k) ==>
                FollowedOf(k[..1]) == TableOf(k[..1]) && FollowedOf(k[..2]) == TableOf(k[..2])
                && FollowedOf(k[..3]) == TableOf(k[..3])
      ensures NoHuge(mem[..], Root(), k)
              && (FollowedOf(k[..1]).None? || FollowedOf(k[..2]).None? || FollowedOf(k[..3]).None?) ==>
                LeafWritten(mem[..], mem[..], Root(), k, 0) && tlb == tlb - {k} && k !in View()
      ensures !NoHuge(mem[..], Root(), k) ==> k in View() && TableOf(k[..3]).None?
    {
      hide Walk, TableAt, Tree, NoHuge, Pages, Followed, LeafWritten, SameSpace;
      NothingDiffers();
      if NoHuge(mem[..], Root(), k) {
        FollowedTree(mem[..], Root(), k, 1);
        FollowedTree(mem[..], Root(), k, 2);
        FollowedTree(mem[..], Root(), k, 3);
        if FollowedOf(k[..1]).None? { NothingToUnmap(k, 1); NotMappedWithoutTable(k, 1); }
        if FollowedOf(k[..2]).None? { NothingToUnmap(k, 2); NotMappedWithoutTable(k, 2); }
        if FollowedOf(k[..3]).None? { NothingToUnmap(k, 3); NotMappedWithoutTable(k, 3); }
      } else {
        NoTableIsFree();
        HugeIsMapped(mem[..], Root(), k);
      }
    }

    lemma FoundInMemory(p: seq<nat>)
      requires Valid() && IsPath(p) && Found(p) && FollowedOf(p).Some?
      ensures FollowedOf(p).value < mem.Length
    {
    }

    lemma NothingToUnmap(k: seq<nat>, n: nat)
      requires Valid() && IsKey(k) && 1 <= n <= 3 && TableOf(k[..n]).None? && NoHuge(mem[..], Root(), k)
      ensures LeafWritten(mem[..], mem[..], Root(), k, 0)
      ensures tlb == tlb - {k}
    {
      hide Walk, TableAt, Tree, NoHuge, Pages;
      NotMappedWithoutTable(k, n);
      ZeroEntry();
    }

    lemma NotMappedWithoutTable(k: seq<nat>, n: nat)
      requires IsKey(k) && 1 <= n <= 3 && TableOf(k[..n]).None? && NoHuge(mem[..], Root(), k)
      ensures WalkOf(k).None? && k !in View()
    {
      WalkOfGap(mem[..], Root(), k, 0, n);
    }

    // The word that `is_mapped` looks at says that it is present.
    ghost predicate LeafFound(k: seq<nat>)
      requires IsKey(k)
      reads this, mem
    {
      var t := FollowedOf(k[..3]);
      t.Some? && t.value < mem.Length && IsPresent(mem[t.value][k[3]])
    }

    // `is_mapped` decides the domain of the map, but for a large page, which is always mapped: there the
    // answer is the lowest bit of a word of the page or of what else is taken for a table.
    method IsMapped(virt: nat) returns (b: bool)
      requires Valid() && (rootPml4 != 0 ==> Harmless(Key(virt)))
      ensures b <==> OwnsTables() && LeafFound(Key(virt))
      ensures OwnsTables() ==>
                ((b <==> Key(virt) in View()) <==> NoHuge(mem[..], Root(), Key(virt)) || LeafFound(Key(virt)))
    {
      hide Tree, TableAt, Walk, HugeAt, Slot, Key, NoHuge, Pages, SameSpace, Followed, IsTable, LeafWritten,
           this.Valid;
      if rootPml4 == 0 { return false; }
      var k := Key(virt);
      PrefixesOfKey(k);
      RootIsTable();
      LeafFoundMeans(k);
      FollowedStep(rootPml4, [], k[0]);
      var (i4, i3, i2, i1) := Indices(virt);
      AddrField(mem[rootPml4 / FRAME_SIZE][i4]);
      var pdpt := NextTableExisting(rootPml4, i4);
      if pdpt.None? { FollowedFrom(k, 1); return false; }
      FoundInMemory(k[..1]);
      FollowedStep(pdpt.value, k[..1], i3);
      AddrField(mem[pdpt.value / FRAME_SIZE][i3]);
      var pd := NextTableExisting(pdpt.value, i3);
      if pd.None? { FollowedFrom(k, 2); return false; }
      FoundInMemory(k[..2]);
      FollowedStep(pd.value, k[..2], i2);
      AddrField(mem[pd.value / FRAME_SIZE][i2]);
      var pt := NextTableExisting(pd.value, i2);
      if pt.None? { return false; }
      FoundInMemory(k[..3]);
      return IsPresent(mem[pt.value / FRAME_SIZE][i1]);
    }

    lemma FollowedFrom(k: seq<nat>, n: nat)
      requires IsKey(k) && 1 <= n <= 3 && FollowedOf(k[..n]).None?
      ensures FollowedOf(k[..3]).None?
      decreases 3 - n
    {
      if n < 3 {
        assert k[..n + 1][..n] == k[..n];
        FollowedFrom(k, n + 1);
      }
    }

    lemma LeafFoundMeans(k: seq<nat>)
      requires Valid() && IsKey(k)
      ensures NoHuge(mem[..], Root(), k) ==> (LeafFound(k) <==> k in View())
      ensures !NoHuge(mem[..], Root(), k) ==> k in View()
    {
      hide Walk, NoHuge, HugeAt, Followed;
      NoTableIsFree();
      if NoHuge(mem[..], Root(), k) {
        FollowedTree(mem[..], Root(), k, 3);
        if TableOf(k[..3]).None? {
          NotMappedWithoutTable(k, 3);
        } else {
          assert k[..4] == k;
          WalkOfLeaf(mem[..], Root(), k);
        }
      } else {
        HugeIsMapped(mem[..], Root(), k);
      }
    }
  }

  // The walk reads four entries, the last of which is e.
  ghost predicate EndsIn(w: Option<seq<Word>>, e: Word) {
    w.Some? && |w.value| == 4 && w.value[3] == e
  }

  lemma MappedEnds(m0: seq<Table>, m1: seq<Table>, root: nat, k: seq<nat>, e: Word, free0: set<nat>, free1: set<nat>)
    requires PageMapped(m0, m1, root, k, e, free0, free1)
    ensures EndsIn(Walk(m1, root, k), e)
    ensures PageRights(m1, root, k) == Some(Both(LinkRights(m0, root, k), RightsOf(e)))
  {
    hide Walk, LinkRights, RightsOf, NoHuge, Tree, TableAt, TablesAbove;
    assert k in Pages(m1, root);
  }

  lemma UnmappedEnds(m0: seq<Table>, m1: seq<Table>, root: nat, k: seq<nat>)
    requires LeafWritten(m0, m1, root, k, 0)
    ensures k !in Pages(m1, root)
  {
    hide Walk, NoHuge, Tree, TableAt;
    ZeroEntry();
  }

  lemma HugeStays(m0: seq<Table>, m1: seq<Table>, root: nat, k: seq<nat>)
    requires IsKey(k) && SameSpace(m0, m1, root) && !NoHuge(m0, root, k)
    ensures k in Pages(m1, root) && Walk(m1, root, k).Some? && |Walk(m1, root, k).value| < 4
  {
    hide Walk, HugeAt, TableAt, Tree, Pages;
    HugeIsMapped(m1, root, k);
  }

  // ---------- the same facts on values ----------

  lemma LinkFacts(m0: seq<Table>, root: nat, p: seq<nat>, i: nat, t: nat, f: nat, e: Word, m1: seq<Table>,
                  free0: set<nat>)
    requires CanLink(m0, root, p, i, t, f, e) && m1 == LinkTable(m0, t, i, f, e)
    requires e == LinkEntry(f * FRAME_SIZE) && f in free0 && RightsOf(e) == ALL_RIGHTS
    ensures Linked(m0, m1, root, p + [i], free0, free0 - {f})
    ensures Tree(m1, root) && TableAt(m1, root, p + [i]) == Some(f) && TableAt(m0, root, p + [i]).None?
    ensures forall r | IsPath(r) && r != p + [i] :: TableAt(m1, root, r) == TableAt(m0, root, r)
    ensures forall k | IsKey(k) :: Walk(m1, root, k) == Walk(m0, root, k)
  {
    var q := p + [i];
    assert q[..|q| - 1] == p;
    LinkKeepsTree(m0, root, p, i, t, f, e);
    forall r | IsPath(r) ensures TableAt(m1, root, r) == if r == q then Some(f) else TableAt(m0, root, r) {
      LinkTables(m0, root, p, i, t, f, e, r);
    }
    forall r | IsPath(r) && r != []
      ensures r == q ==> Slot(m1, root, r) == Some(e)
      ensures r != q && Slot(m0, root, r).Some? ==> Slot(m1, root, r) == Slot(m0, root, r)
    {
      LinkSlot(m0, root, p, i, t, f, e, r);
    }
    forall k | IsKey(k)
      ensures Walk(m1, root, k) == Walk(m0, root, k)
      ensures NoHuge(m0, root, k) ==> NoHuge(m1, root, k)
      ensures LinkRights(m1, root, k) == LinkRights(m0, root, k)
    {
      LinkWalk(m0, root, p, i, t, f, e, k, 0);
      LinkKeepsRights(m0, root, p, i, t, f, e, k);
      if NoHuge(m0, root, k) { LinkKeepsNoHuge(m0, root, p, i, t, f, e, k); }
    }
    LinkMissing(m0, root, p, i, t);
    hide Tree, Walk, NoHuge, TableAt, Slot;
  }

  lemma LinkMissing(m0: seq<Table>, root: nat, p: seq<nat>, i: nat, t: nat)
    requires i < 512 && TableAt(m0, root, p) == Some(t) && t < |m0| && !IsPresent(m0[t][i])
    ensures TableAt(m0, root, p + [i]).None?
  {
    assert (p + [i])[..|p|] == p;
  }

  lemma LeafFacts(m0: seq<Table>, root: nat, k: seq<nat>, t: nat, e: Word, m1: seq<Table>)
    requires CanWrite(m0, root, k, t) && m1 == WriteEntry(m0, t, k[3], e)
    ensures LeafWritten(m0, m1, root, k, e)
  {
    LeafKeepsTree(m0, root, k, t, e);
    LeafReadsBack(m0, root, k, t, e);
    LeafUpdatesPages(m0, root, k, t, e);
    forall q | IsPath(q) ensures TableAt(m1, root, q) == TableAt(m0, root, q) {
      LeafTables(m0, root, k, t, e, q);
    }
    forall q | IsPath(q) && q != [] ensures Slot(m1, root, q) == Slot(m0, root, q) {
      LeafSlot(m0, root, k, t, e, q);
    }
    forall l | IsKey(l)
      ensures l != k ==> Walk(m1, root, l) == Walk(m0, root, l)
      ensures NoHuge(m0, root, l) ==> NoHuge(m1, root, l)
      ensures LinkRights(m1, root, l) == LinkRights(m0, root, l)
    {
      LeafKeepsRights(m0, root, k, t, e, l);
      if l != k { LeafWalk(m0, root, k, t, e, l, 0); }
      if NoHuge(m0, root, l) { LeafKeepsNoHuge(m0, root, k, t, e, l); }
    }
  }

  lemma PreparedThenWritten(m0: seq<Table>, m3: seq<Table>, m4: seq<Table>, root: nat, k: seq<nat>, e: Word,
                            free0: set<nat>, free3: set<nat>)
    requires Prepared(m0, m3, root, k, free0, free3) && LeafWritten(m3, m4, root, k, e) && IsPresent(e)
    requires Tree(m0, root)
    ensures PageMapped(m0, m4, root, k, e, free0, free3)
  {
    PrefixesOfKey(k);
    SameWalksSamePages(m0, m3, root);
    TablesAboveAfterLeaf(m3, m4, root, k);
    RightsAfterLeaf(m3, m4, root, k, e);
    forall l | IsKey(l) && l != k ensures Walk(m4, root, l) == Walk(m0, root, l) {
      assert Walk(m3, root, l) == Walk(m0, root, l);
    }
    forall q | IsPath(q) && TableAt(m4, root, q) != TableAt(m0, root, q)
      ensures q in {k[..1], k[..2], k[..3]} && TableAt(m0, root, q).None?
      ensures TableAt(m4, root, q).Some? && TableAt(m4, root, q).value in free0
      ensures Slot(m4, root, q) == Some(LinkEntry(TableAt(m4, root, q).value * FRAME_SIZE))
    {
      assert TableAt(m4, root, q) == TableAt(m3, root, q);
    }
  }

  lemma RightsAfterLeaf(m0: seq<Table>, m1: seq<Table>, root: nat, k: seq<nat>, e: Word)
    requires LeafWritten(m0, m1, root, k, e) && IsPresent(e)
    ensures PageRights(m1, root, k) == Some(Both(LinkRights(m0, root, k), RightsOf(e)))
  {
    hide Walk, NoHuge, Tree, TableAt, LinkRights, RightsOf;
    RightsOfWalk(m1, root, k);
    assert k in Pages(m1, root);
  }

  lemma SameStateLinked(m: seq<Table>, root: nat, q: seq<nat>, free: set<nat>)
    requires |q| > 0 && IsPath(q) && Tree(m, root) && TableAt(m, root, q).Some?
    ensures Linked(m, m, root, q, free, free)
  {
  }

  // A link costs one frame, a table already there costs none.
  lemma LinkStep(m0: seq<Table>, m1: seq<Table>, root: nat, q: seq<nat>, free0: set<nat>, free1: set<nat>, k: seq<nat>)
    requires Linked(m0, m1, root, q, free0, free1) && IsKey(k) && NoHuge(m0, root, k)
    ensures |free0| == |free1| + if TableAt(m0, root, q).None? then 1 else 0
    ensures forall n | 0 <= n <= 3 && n != |q| :: TableAt(m1, root, k[..n]) == TableAt(m0, root, k[..n])
    ensures NoHuge(m1, root, k)
  {
    LinkCost(m0, m1, root, q, free0, free1);
    forall n | 0 <= n <= 3 && n != |q| ensures TableAt(m1, root, k[..n]) == TableAt(m0, root, k[..n]) {
      assert |k[..n]| == n && IsPath(k[..n]);
      PathUnchanged(m0, m1, root, q, free0, free1, k[..n]);
    }
    hide Walk, Tree, Slot, TableAt, LinkEntry;
  }

  lemma LinkCost(m0: seq<Table>, m1: seq<Table>, root: nat, q: seq<nat>, free0: set<nat>, free1: set<nat>)
    requires Linked(m0, m1, root, q, free0, free1)
    ensures |free0| == |free1| + if TableAt(m0, root, q).None? then 1 else 0
  {
    hide Walk, NoHuge, Tree, Slot, TableAt, LinkEntry;
    if TableAt(m0, root, q).None? {
      var f := TableAt(m1, root, q).value;
      assert free0 == free1 + {f};
    }
  }

  lemma SameWalksSamePages(m0: seq<Table>, m1: seq<Table>, root: nat)
    requires forall k | IsKey(k) :: Walk(m1, root, k) == Walk(m0, root, k)
    ensures Pages(m1, root) == Pages(m0, root)
  {
  }

  lemma TablesAboveAfterLeaf(m0: seq<Table>, m1: seq<Table>, root: nat, k: seq<nat>)
    requires IsKey(k) && forall q | IsPath(q) :: TableAt(m1, root, q) == TableAt(m0, root, q)
    ensures TablesAbove(m1, root, k) == TablesAbove(m0, root, k)
  {
    PrefixesOfKey(k);
  }
}
