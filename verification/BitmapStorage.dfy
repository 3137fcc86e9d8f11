// The frame bitmap is stored inside the memory it manages.  The other modules
// keep it in an array of its own; here it is laid over the bytes it occupies,
// and nothing that the page tables or the heap read there changes.
module BitmapStorage {
  import opened Wrappers
  import opened Bits
  import opened Bitmaps
  import opened FrameAllocator
  import opened PageTables
  import opened TableEdits
  import opened Paging
  import opened HeapWindow
  import opened Heap

  // ---------- bytes of words ----------

  function ByteOf(w: nat, k: nat): Byte
    decreases k
  {
    if k == 0 then w % 256 else ByteOf(w / 256, k - 1)
  }

  function FromBytes(s: seq<Byte>): nat {
    if s == [] then 0 else s[0] + 256 * FromBytes(s[1..])
  }

  function Pow256(n: nat): (r: nat)
    ensures r >= 1
  {
    if n == 0 then 1 else 256 * Pow256(n - 1)
  }

  lemma {:induction false} BytesRead(s: seq<Byte>, k: nat)
    requires k < |s|
    ensures ByteOf(FromBytes(s), k) == s[k]
    decreases k
  {
    if k > 0 { BytesRead(s[1..], k - 1); }
  }

  lemma {:induction false} BytesBound(s: seq<Byte>)
    ensures FromBytes(s) < Pow256(|s|)
  {
    if s != [] { BytesBound(s[1..]); }
  }

  // Little-endian words, as the processor stores them.
  function WordOf(s: seq<Byte>): (w: Word)
    requires |s| == 8
    ensures w == FromBytes(s)
  {
    BytesBound(s);
    EightBytes();
    FromBytes(s)
  }

  lemma EightBytes()
    ensures Pow256(8) == WORD_LIMIT
  {
    assert Pow256(4) == 0x1_0000_0000;
  }

  // ---------- memory by bytes ----------

  // The byte at a physical address.
  function ByteAt(m: seq<Table>, addr: nat): Byte
    requires addr / FRAME_SIZE < |m|
  {
    ByteOf(m[addr / FRAME_SIZE][addr % FRAME_SIZE / 8], addr % 8)
  }

  // The word at address addr with the bytes of the bitmap, stored from address base on, that fall into it.
  function WordOver(w: Word, addr: nat, base: nat, bits: seq<Byte>): Word {
    WordOf(seq(8, k requires 0 <= k < 8 =>
      if base <= addr + k < base + |bits| then bits[addr + k - base] else ByteOf(w, k)))
  }

  function FrameOver(t: Table, g: nat, base: nat, bits: seq<Byte>): Table {
    seq(512, i requires 0 <= i < 512 => WordOver(t[i], g * FRAME_SIZE + 8 * i, base, bits))
  }

  // A byte of the stretch lies in frame g.
  predicate Touches(g: nat, base: nat, count: nat) {
    count > 0 && base < (g + 1) * FRAME_SIZE && g * FRAME_SIZE < base + count
  }

  // Memory with the bitmap stored from address base on.
  function WithBitmap(m: seq<Table>, base: nat, bits: seq<Byte>): (r: seq<Table>)
    ensures |r| == |m|
  {
    seq(|m|, g requires 0 <= g < |m| => if Touches(g, base, |bits|) then FrameOver(m[g], g, base, bits) else m[g])
  }

  // Every byte of the bitmap is read back at its address, every other byte of memory is what it was.
  lemma BitmapReads(m: seq<Table>, base: nat, bits: seq<Byte>, addr: nat)
    requires addr / FRAME_SIZE < |m|
    ensures ByteAt(WithBitmap(m, base, bits), addr)
            == if base <= addr < base + |bits| then bits[addr - base] else ByteAt(m, addr)
  {
    hide ByteOf, FromBytes;
    var g, i, j := addr / FRAME_SIZE, addr % FRAME_SIZE / 8, addr % 8;
    AddressParts(addr);
    if Touches(g, base, |bits|) { ByteOver(m[g][i], addr - j, base, bits, j); }
  }

  lemma AddressParts(addr: nat)
    ensures var g, i, j := addr / FRAME_SIZE, addr % FRAME_SIZE / 8, addr % 8;
            i < 512 && j < 8 && addr == g * FRAME_SIZE + 8 * i + j
  {
    var off := addr % FRAME_SIZE;
    assert addr == addr / FRAME_SIZE * 512 * 8 + off && off == off / 8 * 8 + off % 8;
    EightsOff(addr / FRAME_SIZE * 512, off);
  }

  lemma EightsOff(x: nat, k: nat)
    ensures (x * 8 + k) % 8 == k % 8
  {
  }

  lemma ByteOver(w: Word, addr: nat, base: nat, bits: seq<Byte>, j: nat)
    requires j < 8
    ensures ByteOf(WordOver(w, addr, base, bits), j)
            == if base <= addr + j < base + |bits| then bits[addr + j - base] else ByteOf(w, j)
  {
    hide ByteOf, FromBytes;
    var s := seq(8, k requires 0 <= k < 8 =>
      if base <= addr + k < base + |bits| then bits[addr + k - base] else ByteOf(w, k));
    BytesRead(s, j);
  }

  // Changing a byte of the bitmap is changing that byte of memory and no other.
  lemma BitmapByteWritten(m: seq<Table>, base: nat, bits: seq<Byte>, k: nat, b: Byte, addr: nat)
    requires k < |bits| && addr / FRAME_SIZE < |m|
    ensures ByteAt(WithBitmap(m, base, bits[k := b]), addr)
            == if addr == base + k then b else ByteAt(WithBitmap(m, base, bits), addr)
  {
    hide WithBitmap, ByteAt;
    BitmapReads(m, base, bits, addr);
    BitmapReads(m, base, bits[k := b], addr);
  }

  // ---------- what the rest of the kernel sees ----------

  // The bitmap of an address space lies in memory, in the frames its allocator took out for it.
  ghost predicate BitmapStored(vm: AddressSpace)
    reads vm.fa
  {
    && vm.fa.up && Houses(vm.fa.reserved, vm.fa.base, vm.fa.bits.Length)
    && vm.fa.base + vm.fa.bits.Length <= vm.mem.Length * FRAME_SIZE
  }

  // Memory as the hardware has it.
  ghost function FullMemory(vm: AddressSpace): (r: seq<Table>)
    reads vm, vm.mem, vm.fa, vm.fa.bits
    ensures |r| == vm.mem.Length
  {
    WithBitmap(vm.mem[..], vm.fa.base, vm.fa.bits[..])
  }

  lemma TouchedIsHoused(frames: set<nat>, g: nat, base: nat, count: nat)
    requires Houses(frames, base, count) && Touches(g, base, count)
    ensures g in frames
  {
    var addr := if base < g * FRAME_SIZE then g * FRAME_SIZE else base;
    assert FrameOf(addr) == g;
  }

  // Frames outside the reserved ones are as they were.
  lemma OtherFrames(vm: AddressSpace, g: nat)
    requires BitmapStored(vm) && g < vm.mem.Length && g !in vm.fa.reserved
    ensures FullMemory(vm)[g] == vm.mem[g]
  {
    hide FrameOver;
    if Touches(g, vm.fa.base, vm.fa.bits.Length) {
      TouchedIsHoused(vm.fa.reserved, g, vm.fa.base, vm.fa.bits.Length);
    }
  }

  // With the bitmap in place the tables form the same tree, every walk reads the same entries, and the
  // address space is the same map.
  lemma TablesBesideBitmap(vm: AddressSpace)
    requires vm.Valid() && BitmapStored(vm)
    ensures var m' := FullMemory(vm);
            && Tree(m', vm.Root())
            && (forall q | IsPath(q) :: TableAt(m', vm.Root(), q) == TableAt(vm.mem[..], vm.Root(), q))
            && (forall k | IsKey(k) :: Walk(m', vm.Root(), k) == Walk(vm.mem[..], vm.Root(), k))
            && Pages(m', vm.Root()) == Pages(vm.mem[..], vm.Root())
  {
    hide Walk, Pages, Tree, NoHuge, TableAt, FullMemory, BitmapStored;
    var m := vm.mem[..];
    var m' := FullMemory(vm);
    forall g: nat | g < |m| && IsTable(m, vm.Root(), g) ensures m'[g] == m[g] {
      var p :| IsPath(p) && TableAt(m, vm.Root(), p) == Some(g);
      assert vm.TableOf(p) == Some(g);
      OtherFrames(vm, g);
    }
    SharedKeepsAll(m, m', vm.Root());
  }

  // So are the heap's pages, their frames and every word in them.
  lemma HeapBesideBitmap(heap: KernelHeap)
    requires heap.Valid() && BitmapStored(heap.vm)
    ensures KeepsWords(heap.vm.mem[..], FullMemory(heap.vm), heap.vm.Root())
  {
    hide Walk, Pages, Tree, NoHuge, TableAt, FullMemory, HeapPages, BackingFrame, BitmapStored;
    TablesBesideBitmap(heap.vm);
    var m := heap.vm.mem[..];
    var m' := FullMemory(heap.vm);
    SamePagesSameWindow(m, m', heap.vm.Root());
    forall n | n in HeapPages(m, heap.vm.Root()) && BackingFrame(m, heap.vm.Root(), n) < |m|
      ensures m'[BackingFrame(m, heap.vm.Root(), n)] == m[BackingFrame(m, heap.vm.Root(), n)]
    {
      heap.FrameIsData(n);
      OtherFrames(heap.vm, BackingFrame(m, heap.vm.Root(), n));
    }
  }

  lemma RememberedBesideBitmap(heap: KernelHeap, events: seq<Event>)
    requires heap.Valid() && BitmapStored(heap.vm)
    requires AllRemembered(heap.vm.mem[..], heap.vm.Root(), events, |events|)
    ensures AllRemembered(FullMemory(heap.vm), heap.vm.Root(), events, |events|)
  {
    hide FullMemory, KeepsWords, Remembers;
    HeapBesideBitmap(heap);
    var m' := FullMemory(heap.vm);
    forall i: nat | LastStore(events, |events|, i)
      ensures Remembers(m', heap.vm.Root(), events[i].addr, events[i].word)
    {
      StillRemembers(heap.vm.mem[..], m', heap.vm.Root(), events[i].addr, events[i].word);
    }
  }

  lemma SamePagesSameWindow(m: seq<Table>, m': seq<Table>, root: nat)
    requires Pages(m', root) == Pages(m, root)
    ensures HeapPages(m', root) == HeapPages(m, root)
    ensures forall n | n in HeapPages(m, root) :: BackingFrame(m', root, n) == BackingFrame(m, root, n)
  {
    hide Pages;
  }

  // A write outside the bitmap's frames, to a table or to the heap, is the same with the bitmap in place.
  lemma WritesCommute(m: seq<Table>, base: nat, bits: seq<Byte>, g: nat, t: Table)
    requires g < |m| && !Touches(g, base, |bits|)
    ensures WithBitmap(m[g := t], base, bits) == WithBitmap(m, base, bits)[g := t]
  {
    hide FrameOver;
  }
}
