// Four-level x86_64 page tables as values: a table is 512 words, memory is a
// sequence of tables, and a path of indices from the root names a table.
module PageTables {
  import opened Wrappers
  import opened Bits
  import opened Bitmaps
  import opened FrameAllocator

  const PRESENT: nat := 1
  const WRITABLE: nat := 2
  const HUGE: nat := 0x80
  const NO_EXECUTE: nat := 0x8000_0000_0000_0000
  const ADDR_MASK: nat := 0x000f_ffff_ffff_f000
  const PAGE_MASK: nat := 0xffff_ffff_ffff_f000  // !(FRAME_SIZE - 1)
  const PHYS_LIMIT: nat := 0x10_0000_0000_0000
  const WORD_LIMIT: nat := 0x1_0000_0000_0000_0000

  type Word = w: nat | w < WORD_LIMIT
  type Table = t: seq<Word> | |t| == 512 witness seq(512, _ => 0)

  function ZeroTable(): (t: Table)
    ensures forall i | 0 <= i < 512 :: t[i] == 0
  {
    seq(512, _ => 0)
  }

  // ---------- entries ----------

  predicate IsPresent(e: nat) { And(e, PRESENT) != 0 }

  predicate IsHuge(e: nat) { And(e, HUGE) != 0 }

  function Target(e: nat): nat { And(e, ADDR_MASK) / FRAME_SIZE }

  function AlignDown(addr: nat): nat { And(addr, PAGE_MASK) }

  function LeafEntry(phys: nat, flags: nat): nat { Or(Or(AlignDown(phys), flags), PRESENT) }

  function LinkEntry(phys: nat): nat { Or(Or(phys, PRESENT), WRITABLE) }

  lemma Constants()
    ensures Pow2(0) == 1 && Pow2(1) == 2 && Pow2(7) == 128 && Pow2(9) == 512 && Pow2(12) == FRAME_SIZE
    ensures Pow2(52) == PHYS_LIMIT && Pow2(64) == WORD_LIMIT
  {
    assert Pow2(12) == 4096;
    assert Pow2(26) == 0x400_0000;
    assert Pow2(39) == 0x80_0000_0000;
    assert Pow2(52) == PHYS_LIMIT;
    assert Pow2(64) == WORD_LIMIT;
  }

  // `e & ADDR_MASK` is the page-aligned address of frame `Target(e)`.
  lemma AddrField(e: nat)
    ensures And(e, ADDR_MASK) == Target(e) * FRAME_SIZE == e % PHYS_LIMIT / FRAME_SIZE * FRAME_SIZE
    ensures Target(e) == e % PHYS_LIMIT / FRAME_SIZE
  {
    hide And, Or, Pow2;
    Constants();
    AndMask(e, 12, 52);
  }

  lemma AlignDownIs(addr: nat)
    requires addr < WORD_LIMIT
    ensures AlignDown(addr) == addr / FRAME_SIZE * FRAME_SIZE
  {
    hide And, Or, Pow2;
    Constants();
    AndMask(addr, 12, 64);
  }

  lemma {:induction false} LowBitClear(a: nat, k: nat, i: nat)
    requires i < k && a % Pow2(k) == 0
    ensures !Bit(a, i)
    decreases k
  {
    HalfMod(a, Pow2(k - 1));
    if i > 0 { LowBitClear(a / 2, k - 1, i - 1); }
  }

  lemma FieldOfOr(a: nat, b: nat)
    requires a % FRAME_SIZE == 0 && a < PHYS_LIMIT && And(b, ADDR_MASK) == 0
    ensures And(Or(a, b), ADDR_MASK) == a
  {
    hide And, Or, Pow2, Target;
    AndOrDistributes(a, b, ADDR_MASK);
    AddrField(a);
    OrZero(a);
  }

  // `align_down(phys) | flags | PRESENT` bit by bit: the frame's address, `flags` and PRESENT, no more.
  lemma LeafEntryBits(phys: nat, flags: nat, i: nat)
    requires phys < WORD_LIMIT
    ensures Bit(LeafEntry(phys, flags), i) <==> i == 0 || Bit(flags, i) || (i >= 12 && Bit(phys, i))
  {
    hide And, Or, Pow2, Bit;
    Constants();
    AlignDownIs(phys);
    ShiftedBit(phys, 12, i);
    ShiftedOneBit(0, i);
    OrBit(AlignDown(phys), flags, i);
    OrBit(Or(AlignDown(phys), flags), PRESENT, i);
  }

  // `phys | PRESENT | WRITABLE` bit by bit.
  lemma LinkEntryBits(phys: nat, i: nat)
    ensures Bit(LinkEntry(phys), i) <==> i == 0 || i == 1 || Bit(phys, i)
  {
    hide And, Or, Pow2, Bit;
    Constants();
    ShiftedOneBit(0, i);
    ShiftedOneBit(1, i);
    OrBit(phys, PRESENT, i);
    OrBit(Or(phys, PRESENT), WRITABLE, i);
  }

  // So it is a present entry that carries every bit of `flags`.
  lemma LeafEntryIsPresent(phys: nat, flags: nat)
    requires phys < WORD_LIMIT && flags < WORD_LIMIT
    ensures LeafEntry(phys, flags) < WORD_LIMIT && IsPresent(LeafEntry(phys, flags))
    ensures forall i: nat | Bit(flags, i) :: Bit(LeafEntry(phys, flags), i)
  {
    hide And, Or, Pow2, Bit;
    Constants();
    AlignDownIs(phys);
    var a := AlignDown(phys);
    OrBound(a, flags, 64);
    OrBound(Or(a, flags), PRESENT, 64);
    TestBit(LeafEntry(phys, flags), 0);
    LeafEntryBits(phys, flags, 0);
    forall i: nat | Bit(flags, i) ensures Bit(LeafEntry(phys, flags), i) { LeafEntryBits(phys, flags, i); }
  }

  // With no address bits in `flags` it names the frame of `phys`.
  lemma LeafEntryMeans(phys: nat, flags: nat)
    requires phys < PHYS_LIMIT && flags < WORD_LIMIT && And(flags, ADDR_MASK) == 0
    ensures LeafEntry(phys, flags) < WORD_LIMIT
    ensures IsPresent(LeafEntry(phys, flags)) && Target(LeafEntry(phys, flags)) == phys / FRAME_SIZE
  {
    LeafEntryIsPresent(phys, flags);
    hide And, Or, Pow2, Bit;
    Constants();
    AlignDownIs(phys);
    var a := AlignDown(phys);
    FieldOfOr(a, flags);
    AddrField(PRESENT);
    AndOrDistributes(Or(a, flags), PRESENT, ADDR_MASK);
    OrZero(a);
  }

  // `phys | PRESENT | WRITABLE` links the table in the frame at `phys` and takes no right away.
  lemma LinkEntryMeans(phys: nat)
    requires phys < PHYS_LIMIT && phys % FRAME_SIZE == 0
    ensures LinkEntry(phys) < WORD_LIMIT
    ensures IsPresent(LinkEntry(phys)) && !IsHuge(LinkEntry(phys)) && Target(LinkEntry(phys)) == phys / FRAME_SIZE
    ensures Bit(LinkEntry(phys), 1) && RightsOf(LinkEntry(phys)) == ALL_RIGHTS
  {
    hide And, Or, Pow2, Bit;
    Constants();
    var e := Or(phys, PRESENT);
    AddrField(PRESENT);
    AddrField(WRITABLE);
    FieldOfOr(phys, PRESENT);
    AndOrDistributes(e, WRITABLE, ADDR_MASK);
    OrZero(phys);
    OrBound(phys, PRESENT, 64);
    OrBound(e, WRITABLE, 64);
    TestBit(LinkEntry(phys), 0);
    LinkEntryBits(phys, 0);
    LinkEntryBits(phys, 1);
    TestBit(LinkEntry(phys), 7);
    LowBitClear(phys, 12, 7);
    LinkEntryBits(phys, 7);
    Pow2Grows(52, 63);
    NoBitAbove(phys, 63);
    LinkEntryBits(phys, 63);
  }

  lemma ZeroEntry()
    ensures !IsPresent(0)
  {
  }

  // ---------- permissions ----------

  // What an entry lets the processor do with the pages it leads to: bit 1 is WRITABLE, bit 63 NO_EXECUTE.
  datatype Rights = Rights(write: bool, execute: bool)

  const ALL_RIGHTS: Rights := Rights(true, true)

  function RightsOf(e: nat): Rights { Rights(Bit(e, 1), !Bit(e, 63)) }

  function Both(a: Rights, b: Rights): Rights { Rights(a.write && b.write, a.execute && b.execute) }

  // A page may be used as every entry on its walk allows.
  function RightsAlong(entries: seq<Word>): Rights {
    if entries == [] then ALL_RIGHTS else Both(RightsOf(entries[0]), RightsAlong(entries[1..]))
  }

  lemma {:induction false} RightsAlongAre(entries: seq<Word>)
    ensures RightsAlong(entries).write <==> forall i | 0 <= i < |entries| :: Bit(entries[i], 1)
    ensures RightsAlong(entries).execute <==> forall i | 0 <= i < |entries| :: !Bit(entries[i], 63)
  {
    hide Bit;
    if entries != [] {
      RightsAlongAre(entries[1..]);
      assert forall i | 1 <= i < |entries| :: entries[i] == entries[1..][i - 1];
    }
  }

  // A leaf gives the rights that `flags` ask for.
  lemma LeafRights(phys: nat, flags: nat)
    requires phys < PHYS_LIMIT
    ensures RightsOf(LeafEntry(phys, flags)) == RightsOf(flags)
  {
    hide And, Or, Pow2, Bit, LeafEntry;
    Constants();
    LeafEntryBits(phys, flags, 1);
    LeafEntryBits(phys, flags, 63);
    Pow2Grows(52, 63);
    NoBitAbove(phys, 63);
  }

  // ---------- virtual addresses ----------

  // The four table indices of an address, from the root down; they name its page.
  function Key(virt: nat): (k: seq<nat>)
    ensures IsKey(k)
  {
    [virt / 0x80_0000_0000 % 512, virt / 0x4000_0000 % 512, virt / 0x20_0000 % 512, virt / 0x1000 % 512]
  }

  // (virt >> n) & 0x1ff for n = 39, 30, 21, 12.
  function Indices(virt: nat): (i: (nat, nat, nat, nat))
    ensures [i.0, i.1, i.2, i.3] == Key(virt)
  {
    NineBits(virt / 0x80_0000_0000);
    NineBits(virt / 0x4000_0000);
    NineBits(virt / 0x20_0000);
    NineBits(virt / 0x1000);
    (And(virt / 0x80_0000_0000, 0x1ff), And(virt / 0x4000_0000, 0x1ff),
     And(virt / 0x20_0000, 0x1ff), And(virt / 0x1000, 0x1ff))
  }

  lemma NineBits(a: nat)
    ensures And(a, 0x1ff) == a % 512
  {
    hide And, Pow2;
    Constants();
    AndMask(a, 0, 9);
  }

  // Two addresses share a key exactly when they lie in the same page of the 48-bit space.
  lemma KeyNamesPage(a: nat, b: nat)
    ensures Key(a) == Key(b) <==> a / FRAME_SIZE % 0x10_0000_0000 == b / FRAME_SIZE % 0x10_0000_0000
  {
    PageDigits(a);
    PageDigits(b);
    if Digits(Key(a)) == Digits(Key(b)) { DigitsInjective(Key(a), Key(b)); }
  }

  function Digits(k: seq<nat>): nat
    requires |k| == 4
  {
    ((k[0] * 512 + k[1]) * 512 + k[2]) * 512 + k[3]
  }

  lemma DigitsInjective(k: seq<nat>, l: seq<nat>)
    requires IsKey(k) && IsKey(l) && Digits(k) == Digits(l)
    ensures k == l
  {
    LastDigit((k[0] * 512 + k[1]) * 512 + k[2], k[3], (l[0] * 512 + l[1]) * 512 + l[2], l[3]);
    LastDigit(k[0] * 512 + k[1], k[2], l[0] * 512 + l[1], l[2]);
    LastDigit(k[0], k[1], l[0], l[1]);
  }

  lemma LastDigit(x: nat, d: nat, y: nat, e: nat)
    requires d < 512 && e < 512 && x * 512 + d == y * 512 + e
    ensures x == y && d == e
  {
  }

  lemma PageDigits(a: nat)
    ensures a / FRAME_SIZE % 0x10_0000_0000 == Digits(Key(a))
  {
    var v := a / FRAME_SIZE;
    DigitStep(v, 0x800_0000);
    DigitStep(v / 512, 0x4_0000);
    DigitStep(v / 512 / 512, 512);
    ThreeShifts(a);
  }

  lemma ThreeShifts(a: nat)
    ensures a / 0x20_0000 == a / 0x1000 / 512 && a / 0x4000_0000 == a / 0x1000 / 512 / 512
    ensures a / 0x80_0000_0000 == a / 0x1000 / 512 / 512 / 512
  {
  }

  lemma DigitStep(v: nat, m: nat)
    requires m > 0
    ensures v % (512 * m) == v / 512 % m * 512 + v % 512
  {
    var q, r := v / 512 / m, v / 512 % m;
    assert v == (512 * m) * q + (512 * r + v % 512) by {
      assert 512 * (m * q) == (512 * m) * q;
    }
    DivModUnique(v, 512 * m, q, 512 * r + v % 512);
  }

  predicate IsPath(p: seq<nat>) {
    |p| <= 3 && forall i | 0 <= i < |p| :: p[i] < 512
  }

  predicate IsKey(k: seq<nat>) {
    |k| == 4 && forall i | 0 <= i < |k| :: k[i] < 512
  }

  // ---------- walking ----------

  // The table an entry links to, seen from a table `depth` levels below the root; entries of the
  // middle two levels may map a large page instead.
  function Child(e: nat, depth: nat): Option<nat> {
    if IsPresent(e) && !(depth > 0 && IsHuge(e)) then Some(Target(e)) else None
  }

  ghost function TableAt(m: seq<Table>, root: nat, p: seq<nat>): Option<nat>
    decreases |p|
  {
    if p == [] then Some(root)
    else
      var t := TableAt(m, root, p[..|p| - 1]);
      if t.None? || t.value >= |m| || p[|p| - 1] >= 512 then None
      else Child(m[t.value][p[|p| - 1]], |p| - 1)
  }

  // The entry at the end of a path of one to four indices.
  ghost function Slot(m: seq<Table>, root: nat, q: seq<nat>): Option<Word>
    requires |q| > 0
  {
    var t := TableAt(m, root, q[..|q| - 1]);
    if t.None? || t.value >= |m| || q[|q| - 1] >= 512 then None
    else Some(m[t.value][q[|q| - 1]])
  }

  // What the processor does from depth `d` on: the entries it reads down to the page, or None for a
  // page fault.
  ghost function WalkFrom(m: seq<Table>, root: nat, k: seq<nat>, d: nat): Option<seq<Word>>
    requires IsKey(k) && d < 4
    decreases 4 - d
  {
    var e := Slot(m, root, k[..d + 1]);
    if e.None? || !IsPresent(e.value) then None
    else if d == 3 || (d > 0 && IsHuge(e.value)) then Some([e.value])
    else
      var rest := WalkFrom(m, root, k, d + 1);
      if rest.None? then None else Some([e.value] + rest.value)
  }

  ghost function Walk(m: seq<Table>, root: nat, k: seq<nat>): Option<seq<Word>>
    requires IsKey(k)
  {
    WalkFrom(m, root, k, 0)
  }

  // The address space as a finite map from page to the entry that maps it.
  ghost function Pages(m: seq<Table>, root: nat): imap<seq<nat>, Word> {
    imap k: seq<nat> | IsKey(k) && Walk(m, root, k).Some? && |Walk(m, root, k).value| > 0
      :: Walk(m, root, k).value[|Walk(m, root, k).value| - 1]
  }

  ghost predicate HugeAt(m: seq<Table>, root: nat, q: seq<nat>)
    requires |q| > 0
  {
    var e := Slot(m, root, q);
    e.Some? && IsPresent(e.value) && IsHuge(e.value)
  }

  // No large-page entry lies on the path to page k.
  ghost predicate NoHuge(m: seq<Table>, root: nat, k: seq<nat>)
    requires IsKey(k)
  {
    !HugeAt(m, root, k[..2]) && !HugeAt(m, root, k[..3])
  }

  // The reachable tables lie in memory and no two paths reach the same one.
  ghost predicate Tree(m: seq<Table>, root: nat) {
    && (forall p | IsPath(p) && TableAt(m, root, p).Some? :: TableAt(m, root, p).value < |m|)
    && (forall p, q | IsPath(p) && IsPath(q) && TableAt(m, root, p).Some?
        && TableAt(m, root, p) == TableAt(m, root, q) :: p == q)
  }

  ghost predicate IsTable(m: seq<Table>, root: nat, f: nat) {
    exists p :: IsPath(p) && TableAt(m, root, p) == Some(f)
  }

  // Reading the entry at the end of a path is reading the child table.
  lemma ChildOfSlot(m: seq<Table>, root: nat, q: seq<nat>)
    requires IsPath(q) && |q| > 0
    ensures Slot(m, root, q).Some? ==> TableAt(m, root, q) == Child(Slot(m, root, q).value, |q| - 1)
    ensures Slot(m, root, q).None? ==> TableAt(m, root, q).None?
  {
  }

  // A walk through four present entries ends at the leaf.
  lemma WalkOfLeaf(m: seq<Table>, root: nat, k: seq<nat>)
    requires IsKey(k) && Tree(m, root) && TableAt(m, root, k[..3]).Some?
    ensures Slot(m, root, k).Some?
    ensures Walk(m, root, k).Some? <==> IsPresent(Slot(m, root, k).value)
    ensures Walk(m, root, k).Some? ==>
              |Walk(m, root, k).value| == 4 && Walk(m, root, k).value[3] == Slot(m, root, k).value
  {
    assert k[..3][..2] == k[..2] && k[..2][..1] == k[..1] && k[..1][..0] == [] && k[..4] == k && k[..4][..3] == k[..3];
    assert IsPath(k[..3]) && IsPath(k[..2]) && IsPath(k[..1]);
    ChildOfSlot(m, root, k[..3]);
    ChildOfSlot(m, root, k[..2]);
    ChildOfSlot(m, root, k[..1]);
    assert WalkFrom(m, root, k, 3).Some? <==> IsPresent(Slot(m, root, k).value);
    assert WalkFrom(m, root, k, 2).Some? <==> WalkFrom(m, root, k, 3).Some?;
    assert WalkFrom(m, root, k, 1).Some? <==> WalkFrom(m, root, k, 2).Some?;
  }

  // A walk that finds a table missing faults.
  lemma {:induction false} WalkOfGap(m: seq<Table>, root: nat, k: seq<nat>, d: nat, n: nat)
    requires IsKey(k) && d < n <= 3 && TableAt(m, root, k[..n]).None? && NoHuge(m, root, k)
    ensures WalkFrom(m, root, k, d).None?
    decreases n - d
  {
    assert k[..n][..n - 1] == k[..n - 1];
    if d + 1 < n {
      WalkOfGap(m, root, k, d + 1, n);
    } else {
      ChildOfSlot(m, root, k[..n]);
    }
  }

  // What the processor may do with page k, if it is mapped.
  ghost function PageRights(m: seq<Table>, root: nat, k: seq<nat>): Option<Rights>
    requires IsKey(k)
  {
    var w := Walk(m, root, k);
    if w.None? then None else Some(RightsAlong(w.value))
  }

  ghost function RightsAt(m: seq<Table>, root: nat, q: seq<nat>): Rights
    requires |q| > 0
  {
    var e := Slot(m, root, q);
    if e.Some? && IsPresent(e.value) then RightsOf(e.value) else ALL_RIGHTS
  }

  // What the links on the path to page k, as far as they are there, leave of its rights.
  ghost function LinkRights(m: seq<Table>, root: nat, k: seq<nat>): Rights
    requires IsKey(k)
  {
    Both(RightsAt(m, root, k[..1]), Both(RightsAt(m, root, k[..2]), RightsAt(m, root, k[..3])))
  }

  lemma RightsOfWalk(m: seq<Table>, root: nat, k: seq<nat>)
    requires IsKey(k) && Walk(m, root, k).Some? && |Walk(m, root, k).value| == 4
    ensures PageRights(m, root, k) == Some(Both(LinkRights(m, root, k), RightsOf(Walk(m, root, k).value[3])))
  {
    hide Slot, IsPresent, IsHuge, RightsOf, WalkFrom;
    var w := Walk(m, root, k).value;
    FourSteps(m, root, k);
    assert w[1..][1..] == w[2..] && w[2..][1..] == w[3..] && w[3..][1..] == [];
    assert RightsAlong(w[3..]) == RightsOf(w[3]);
    assert RightsAlong(w[2..]) == Both(RightsOf(w[2]), RightsOf(w[3]));
    assert RightsAlong(w[1..]) == Both(RightsOf(w[1]), RightsAlong(w[2..]));
  }

  // A walk of four entries reads those at the ends of the four paths.
  lemma FourSteps(m: seq<Table>, root: nat, k: seq<nat>)
    requires IsKey(k) && Walk(m, root, k).Some? && |Walk(m, root, k).value| == 4
    ensures var w := Walk(m, root, k).value;
            forall d | 0 <= d < 4 :: Slot(m, root, k[..d + 1]) == Some(w[d]) && IsPresent(w[d])
  {
    hide Slot, IsPresent, IsHuge;
    var w := Walk(m, root, k).value;
    assert w[1..][1..] == w[2..] && w[2..][1..] == w[3..];
    assert WalkFrom(m, root, k, 1) == Some(w[1..]);
    assert WalkFrom(m, root, k, 2) == Some(w[1..][1..]);
    assert WalkFrom(m, root, k, 3) == Some(w[2..][1..]);
  }

  // ---------- large pages ----------

  // The frame the code takes for the table at path p: it follows every present entry.
  ghost function Followed(m: seq<Table>, root: nat, p: seq<nat>): Option<nat>
    decreases |p|
  {
    if p == [] then Some(root)
    else
      var t := Followed(m, root, p[..|p| - 1]);
      if t.None? || t.value >= |m| || p[|p| - 1] >= 512 || !IsPresent(m[t.value][p[|p| - 1]]) then None
      else Some(Target(m[t.value][p[|p| - 1]]))
  }

  // Where there is a table the code finds it.
  lemma {:induction false} FollowedTable(m: seq<Table>, root: nat, p: seq<nat>)
    requires IsPath(p) && TableAt(m, root, p).Some?
    ensures Followed(m, root, p) == TableAt(m, root, p)
  {
    if p != [] { FollowedTable(m, root, p[..|p| - 1]); }
  }

  // Without a large page on the path it finds nothing else.
  lemma {:induction false} FollowedTree(m: seq<Table>, root: nat, k: seq<nat>, n: nat)
    requires IsKey(k) && NoHuge(m, root, k) && n <= 3
    ensures Followed(m, root, k[..n]) == TableAt(m, root, k[..n])
  {
    if n > 0 {
      assert k[..n][..n - 1] == k[..n - 1];
      FollowedTree(m, root, k, n - 1);
      assert IsPath(k[..n]);
      ChildOfSlot(m, root, k[..n]);
    }
  }

  // With one, the page is mapped by fewer than four entries.
  lemma HugeIsMapped(m: seq<Table>, root: nat, k: seq<nat>)
    requires IsKey(k) && Tree(m, root) && !NoHuge(m, root, k)
    ensures Walk(m, root, k).Some? && 0 < |Walk(m, root, k).value| < 4 && k in Pages(m, root)
    ensures TableAt(m, root, k[..1]).Some? && TableAt(m, root, k[..3]).None?
    ensures HugeAt(m, root, k[..2]) ==> TableAt(m, root, k[..2]).None?
    ensures !HugeAt(m, root, k[..2]) ==> TableAt(m, root, k[..2]).Some? && HugeAt(m, root, k[..3])
  {
    assert k[..3][..2] == k[..2] && k[..2][..1] == k[..1] && k[..1][..0] == [];
    assert IsPath(k[..3]) && IsPath(k[..2]) && IsPath(k[..1]);
    ChildOfSlot(m, root, k[..1]);
    ChildOfSlot(m, root, k[..2]);
    ChildOfSlot(m, root, k[..3]);
    assert WalkFrom(m, root, k, 1).Some?;
  }

  function OneEntry(e: Word): Table { seq(512, i => if i == 0 then e else 0) }

  // Three tables, the last of which maps 2 MiB from address 0x20_0000 on, and that memory, still empty.
  function LargePageMemory(): (m: seq<Table>)
    ensures |m| == 513
  {
    [OneEntry(0x1003), OneEntry(0x2003), OneEntry(0x20_0083)] + seq(510, _ => ZeroTable())
  }

  lemma LargePageEntries()
    ensures IsPresent(0x1003) && !IsHuge(0x1003) && Target(0x1003) == 1
    ensures IsPresent(0x2003) && !IsHuge(0x2003) && Target(0x2003) == 2
    ensures IsPresent(0x20_0083) && IsHuge(0x20_0083) && Target(0x20_0083) == 512
    ensures !IsPresent(0)
  {
    hide And, Or, Pow2, Bit, IsPresent, IsHuge, Target;
    FlagsOf(0x1003);
    FlagsOf(0x2003);
    FlagsOf(0x20_0083);
    FlagsOf(0);
  }

  lemma FlagsOf(e: nat)
    ensures (IsPresent(e) <==> e % 2 == 1) && (IsHuge(e) <==> e / 128 % 2 == 1)
    ensures Target(e) == e % PHYS_LIMIT / FRAME_SIZE
  {
    hide And, Pow2, Bit;
    Constants();
    AddrField(e);
    TestBit(e, 0);
    TestBit(e, 7);
    BitIs(e, 0);
    BitIs(e, 7);
  }

  lemma {:induction false} LargePageTables(p: seq<nat>)
    requires IsPath(p)
    ensures TableAt(LargePageMemory(), 0, p)
            == if p == [] then Some(0) else if p == [0] then Some(1) else if p == [0, 0] then Some(2) else None
  {
    hide IsPresent, IsHuge, Target, LargePageMemory, OneEntry;
    if p != [] {
      var n := |p| - 1;
      LargePageTables(p[..n]);
      LargePageEntries();
      LargePageWord(n, p[n]);
      assert p == p[..n] + [p[n]];
    }
  }

  lemma LargePageWord(f: nat, i: nat)
    requires f < 3 && i < 512
    ensures LargePageMemory()[f][i] == if i != 0 then 0 else if f == 0 then 0x1003 else if f == 1 then 0x2003
            else 0x20_0083
  {
  }

  // The page at address 0 is mapped, but the code finds a frame of zeros for its last table and takes it
  // to be unmapped.
  lemma LargePageMisread()
    ensures var m, k := LargePageMemory(), [0, 0, 0, 0];
            && Tree(m, 0) && IsKey(k) && !NoHuge(m, 0, k) && k in Pages(m, 0)
            && Followed(m, 0, k[..3]) == Some(512) && !IsTable(m, 0, 512) && !IsPresent(m[512][k[3]])
  {
    hide IsPresent, IsHuge, Target, Walk;
    var m, k := LargePageMemory(), [0, 0, 0, 0];
    LargePageEntries();
    LargePageTree();
    assert k[..3] == [0, 0, 0] && [0, 0, 0][..2] == [0, 0];
    LargePageTables([0, 0]);
    FollowedTable(m, 0, [0, 0]);
    HugeIsMapped(m, 0, k);
  }

  lemma LargePageTree()
    ensures Tree(LargePageMemory(), 0) && !IsTable(LargePageMemory(), 0, 512)
  {
    hide LargePageMemory, TableAt;
    var m := LargePageMemory();
    forall p | IsPath(p) ensures TableAt(m, 0, p).Some? ==> TableAt(m, 0, p).value < 3 { LargePageTables(p); }
    forall p, q | IsPath(p) && IsPath(q) && TableAt(m, 0, p).Some? && TableAt(m, 0, p) == TableAt(m, 0, q)
      ensures p == q
    {
      LargePageTables(p);
      LargePageTables(q);
    }
  }
}
