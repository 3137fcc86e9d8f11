// The physical frame allocator: one bit for each 4 KiB frame, 0 free, 1 used.
module FrameAllocator {
  import opened Wrappers
  import opened Bits
  import opened Bitmaps

  const FRAME_SIZE: nat := 4096

  datatype MemoryMapEntry = MemoryMapEntry(base: nat, length: nat, usable: bool)

  // ---------- the bootloader's memory map ----------

  function HighestAddress(mmap: seq<MemoryMapEntry>): (h: nat)
    ensures forall i | 0 <= i < |mmap| :: mmap[i].base + mmap[i].length <= h
    ensures h != 0 ==> exists i :: 0 <= i < |mmap| && mmap[i].base + mmap[i].length == h
  {
    if mmap == [] then 0
    else
      var rest := HighestAddress(mmap[..|mmap| - 1]);
      var last := mmap[|mmap| - 1];
      if last.base + last.length > rest then last.base + last.length else rest
  }

  function DivCeil(a: nat, b: nat): (q: nat)
    requires b > 0
    ensures a <= q * b < a + b
  {
    if a % b == 0 then a / b else a / b + 1
  }

  function TotalFrames(mmap: seq<MemoryMapEntry>): nat {
    DivCeil(HighestAddress(mmap), FRAME_SIZE)
  }

  function BitmapBytes(mmap: seq<MemoryMapEntry>): nat {
    DivCeil(TotalFrames(mmap), 8)
  }

  function BitmapFrames(mmap: seq<MemoryMapEntry>): nat {
    DivCeil(BitmapBytes(mmap), FRAME_SIZE)
  }

  predicate HoldsBitmap(mmap: seq<MemoryMapEntry>, e: MemoryMapEntry) {
    e.usable && e.length >= BitmapFrames(mmap) * FRAME_SIZE
  }

  ghost function EntryFrames(e: MemoryMapEntry): set<nat> {
    if e.usable then Range(e.base / FRAME_SIZE, e.length / FRAME_SIZE) else {}
  }

  ghost function UsableFrames(mmap: seq<MemoryMapEntry>): set<nat> {
    if mmap == [] then {}
    else UsableFrames(mmap[..|mmap| - 1]) + EntryFrames(mmap[|mmap| - 1])
  }

  ghost predicate Aligned(mmap: seq<MemoryMapEntry>) {
    forall i | 0 <= i < |mmap| && mmap[i].usable ::
      mmap[i].base % FRAME_SIZE == 0 && mmap[i].length % FRAME_SIZE == 0
  }

  ghost predicate Covers(e: MemoryMapEntry, f: nat) {
    e.usable && e.base <= f * FRAME_SIZE && (f + 1) * FRAME_SIZE <= e.base + e.length
  }

  // For an aligned map the frames opened up are exactly the frames that lie inside a USABLE entry.
  lemma {:induction false} UsableFramesAreCovered(mmap: seq<MemoryMapEntry>, f: nat)
    requires Aligned(mmap)
    ensures f in UsableFrames(mmap) <==> exists i :: 0 <= i < |mmap| && Covers(mmap[i], f)
  {
    if mmap != [] {
      var n := |mmap| - 1;
      UsableFramesAreCovered(mmap[..n], f);
      EntryCovered(mmap[n], f);
      if i :| 0 <= i < |mmap| && Covers(mmap[i], f) {
        if i < n { assert mmap[..n][i] == mmap[i]; }
      }
      if f in UsableFrames(mmap[..n]) {
        var i :| 0 <= i < n && Covers(mmap[..n][i], f);
        assert mmap[..n][i] == mmap[i];
      }
    }
  }

  lemma EntryCovered(e: MemoryMapEntry, f: nat)
    requires e.usable ==> e.base % FRAME_SIZE == 0 && e.length % FRAME_SIZE == 0
    ensures f in EntryFrames(e) <==> Covers(e, f)
  {
    if e.usable {
      var b, l := e.base / FRAME_SIZE, e.length / FRAME_SIZE;
      assert e.base == b * FRAME_SIZE && e.length == l * FRAME_SIZE;
      assert f in EntryFrames(e) <==> b <= f && f + 1 <= b + l;
    }
  }

  lemma EntryFitsBitmap(mmap: seq<MemoryMapEntry>, i: nat)
    requires i < |mmap|
    ensures mmap[i].base / FRAME_SIZE + mmap[i].length / FRAME_SIZE <= 8 * BitmapBytes(mmap)
  {
    var e := mmap[i];
    var b, l := e.base / FRAME_SIZE, e.length / FRAME_SIZE;
    assert b * FRAME_SIZE + l * FRAME_SIZE <= TotalFrames(mmap) * FRAME_SIZE;
  }

  // ---------- where the bitmap lies ----------

  function FrameOf(addr: nat): nat { addr / FRAME_SIZE }

  // Every byte of a stretch of memory lies in one of the frames.
  ghost predicate Houses(frames: set<nat>, base: nat, count: nat) {
    forall addr: nat | base <= addr < base + count :: FrameOf(addr) in frames
  }

  // As many frames as the bytes need, counted from the one of the first byte, house them exactly when
  // the first byte is not too far into its frame.
  lemma HousedWhenFits(base: nat, count: nat)
    requires count > 0
    ensures var n := DivCeil(count, FRAME_SIZE);
            Houses(Range(base / FRAME_SIZE, n), base, count) <==> base % FRAME_SIZE + count <= n * FRAME_SIZE
  {
    var n := DivCeil(count, FRAME_SIZE);
    var q := base / FRAME_SIZE;
    if base % FRAME_SIZE + count <= n * FRAME_SIZE {
      forall addr: nat | base <= addr < base + count ensures FrameOf(addr) in Range(q, n) {
        assert q <= addr / FRAME_SIZE < q + n;
      }
    } else {
      assert FrameOf(base + count - 1) >= q + n;
    }
  }

  // The bitmap, stored from the start of the first entry large enough, stays in the frames taken out
  // for it.
  ghost predicate BitmapFits(mmap: seq<MemoryMapEntry>) {
    forall i | 0 <= i < |mmap| && FirstRegion(mmap, i) ::
      mmap[i].base % FRAME_SIZE + BitmapBytes(mmap) <= BitmapFrames(mmap) * FRAME_SIZE
  }

  ghost predicate FirstRegion(mmap: seq<MemoryMapEntry>, i: nat)
    requires i < |mmap|
  {
    HoldsBitmap(mmap, mmap[i]) && forall j | 0 <= j < i :: !HoldsBitmap(mmap, mmap[j])
  }

  lemma OneRegion(mmap: seq<MemoryMapEntry>, i: nat)
    requires i < |mmap| && FirstRegion(mmap, i)
    ensures BitmapFits(mmap) <==>
              mmap[i].base % FRAME_SIZE + BitmapBytes(mmap) <= BitmapFrames(mmap) * FRAME_SIZE
  {
    hide HoldsBitmap;
    forall j | 0 <= j < |mmap| && FirstRegion(mmap, j) ensures j == i {
      assert HoldsBitmap(mmap, mmap[i]) && HoldsBitmap(mmap, mmap[j]);
    }
  }

  lemma AlignedFits(mmap: seq<MemoryMapEntry>)
    requires Aligned(mmap)
    ensures BitmapFits(mmap)
  {
  }

  // An entry that starts in the middle of a frame: the last bytes of the bitmap lie in a frame that is
  // free from the start.
  lemma UnalignedBitmapIsShared()
    ensures var mmap := [MemoryMapEntry(0x1800, 0x800_0000 - 0x1800, true)];
            && BitmapBytes(mmap) == 4096 && BitmapFrames(mmap) == 1 && FirstRegion(mmap, 0) && !BitmapFits(mmap)
            && FrameOf(0x1800 + 4095) in UsableFrames(mmap) - Range(0x1800 / FRAME_SIZE, 1)
  {
    var e := MemoryMapEntry(0x1800, 0x800_0000 - 0x1800, true);
    var mmap := [e];
    assert mmap[..0] == [] && HighestAddress([]) == 0;
    assert HighestAddress(mmap) == 0x800_0000;
    assert UsableFrames(mmap) == UsableFrames([]) + EntryFrames(e);
    assert FirstRegion(mmap, 0);
  }

  // Frame 0 can be free: here it is USABLE, and its entry too small for the bitmap.
  lemma FrameZeroCanBeFree()
    ensures var mmap := [MemoryMapEntry(0, 4096, true), MemoryMapEntry(4096, 0x800_0000, true)];
            && Aligned(mmap) && BitmapFrames(mmap) == 2 && FirstRegion(mmap, 1)
            && 0 in UsableFrames(mmap) - Range(mmap[1].base / FRAME_SIZE, BitmapFrames(mmap))
  {
    var e, e' := MemoryMapEntry(0, 4096, true), MemoryMapEntry(4096, 0x800_0000, true);
    var mmap := [e, e'];
    assert mmap[..1] == [e] && [e][..0] == [] && HighestAddress([]) == 0;
    assert HighestAddress([e]) == 4096 && HighestAddress(mmap) == 0x800_1000;
    assert UsableFrames([e]) == UsableFrames([]) + EntryFrames(e);
    assert UsableFrames(mmap) == UsableFrames([e]) + EntryFrames(e');
  }

  // ---------- the allocator ----------

  // The static FRAME_ALLOCATOR; `up` is false while it still holds None.
  class FrameBitmap {
    var up: bool
    var bits: array<Byte>
    var base: nat  // the physical address of its first byte
    ghost var reserved: set<nat>  // the frames taken out for the bitmap itself

    constructor ()
      ensures !up && fresh(bits) && reserved == {}
    {
      up := false;
      bits := new Byte[0];
      base := 0;
      reserved := {};
    }

    ghost function Free(): set<nat>
      reads this, bits
    {
      if up then FreeSet(bits[..]) else {}
    }

    ghost predicate Valid()
      reads this, bits
    {
      up ==> reserved !! Free()
    }

    function IsFree(frame: nat): bool
      requires frame < 8 * bits.Length
      reads this, bits
    {
      And(bits[frame / 8], Pow2(frame % 8)) == 0
    }

    method SetUsed(frame: nat)
      requires up && frame < 8 * bits.Length
      modifies bits
      ensures Free() == old(Free()) - {frame}
    {
      ByteMask(frame % 8);
      OrBound(bits[frame / 8], Pow2(frame % 8), 8);
      var b := Or(bits[frame / 8], Pow2(frame % 8));
      OrTakesOne(bits[..], frame, b);
      bits[frame / 8] := b;
      assert bits[..] == old(bits[..])[frame / 8 := b];
    }

    method SetFree(frame: nat)
      requires up && frame < 8 * bits.Length
      modifies bits
      ensures Free() == old(Free()) + {frame}
    {
      ByteMask(frame % 8);
      AndBound(bits[frame / 8], Not(8, Pow2(frame % 8)));
      var b := And(bits[frame / 8], Not(8, Pow2(frame % 8)));
      AndNotGivesOne(bits[..], frame, b);
      bits[frame / 8] := b;
      assert bits[..] == old(bits[..])[frame / 8 := b];
    }

    method MarkRangeUsed(startFrame: nat, count: nat)
      requires up && startFrame + count <= 8 * bits.Length
      modifies bits
      ensures Free() == old(Free()) - Range(startFrame, count)
    {
      for f := startFrame to startFrame + count
        invariant Free() == old(Free()) - Range(startFrame, f - startFrame)
      {
        SetUsed(f);
      }
    }

    method MarkRangeFree(startFrame: nat, count: nat)
      requires up && startFrame + count <= 8 * bits.Length
      modifies bits
      ensures Free() == old(Free()) + Range(startFrame, count)
    {
      for f := startFrame to startFrame + count
        invariant Free() == old(Free()) + Range(startFrame, f - startFrame)
      {
        SetFree(f);
      }
    }

    // First fit: the smallest start of a run of `count` free frames.
    method FindFreeRun(count: nat) returns (r: Option<nat>)
      ensures r.Some? ==> count > 0 && RunFree(bits[..], r.value, count)
      ensures r.Some? ==> forall s: nat | s < r.value :: !RunFree(bits[..], s, count)
      ensures r.None? && count > 0 ==> forall s: nat :: !RunFree(bits[..], s, count)
      ensures count == 0 ==> r.None?
    {
      var total := 8 * bits.Length;
      var runStart, runLen := 0, 0;
      for frame := 0 to total
        invariant runLen <= frame && (runLen > 0 ==> runStart == frame - runLen)
        invariant count == 0 || runLen < count
        invariant forall f | frame - runLen <= f < frame :: !IsUsed(bits[..], f)
        invariant count > 0 ==> forall s: nat | s < frame - runLen :: !RunFree(bits[..], s, count)
      {
        if IsFree(frame) {
          if runLen == 0 { runStart := frame; }
          runLen := runLen + 1;
          if runLen == count { return Some(runStart); }
        } else {
          assert IsUsed(bits[..], frame);
          runLen := 0;
        }
      }
      return None;
    }

    // `alloc_frames`: the physical address of the first free run, now marked used.
    method AllocFrames(count: nat) returns (r: Option<nat>)
      requires Valid()
      modifies bits
      ensures Valid()
      ensures r.None? ==> Free() == old(Free())
      ensures r.None? <==> !up || count == 0 || forall s: nat :: !RunFree(old(bits[..]), s, count)
      ensures r.Some? ==> up && r.value % FRAME_SIZE == 0
      ensures r.Some? ==> var s := r.value / FRAME_SIZE;
                RunFree(old(bits[..]), s, count)
                && Range(s, count) <= old(Free()) && Range(s, count) !! reserved
                && Free() == old(Free()) - Range(s, count)
                && forall s': nat | s' < s :: !RunFree(old(bits[..]), s', count)
    {
      hide RunFree, FreeSet;
      if !up { return None; }
      var start := FindFreeRun(count);
      if start.None? { return None; }
      RunIsFree(start.value, count);
      MarkRangeUsed(start.value, count);
      return Some(start.value * FRAME_SIZE);
    }

    lemma RunIsFree(start: nat, count: nat)
      requires up && RunFree(bits[..], start, count)
      ensures start + count <= 8 * bits.Length && Range(start, count) <= Free()
    {
    }

    // `free_frame`: addresses outside the bitmap are ignored.
    method FreeFrame(addr: nat)
      modifies bits
      ensures up && addr / FRAME_SIZE < 8 * bits.Length ==>
                Free() == old(Free()) + {addr / FRAME_SIZE}
      ensures !up || addr / FRAME_SIZE >= 8 * bits.Length ==> Free() == old(Free())
    {
      if up {
        var frame := addr / FRAME_SIZE;
        if frame < 8 * bits.Length { SetFree(frame); }
      }
    }

    // `try_init_from_memory_map`: the map and the offset may be missing.  The bitmap is stored from the
    // start of the first USABLE entry large enough, and frames for it are taken out again at the end.
    // They house it exactly when the entry does not start too far into a frame.
    method TryInit(response: Option<seq<MemoryMapEntry>>, hhdm: bool) returns (ok: bool)
      requires !up
      modifies this
      ensures up == ok && Valid()
      ensures ok <==> response.Some? && hhdm && HighestAddress(response.value) != 0
                      && exists i :: 0 <= i < |response.value| && HoldsBitmap(response.value, response.value[i])
      ensures ok ==> fresh(bits) && bits.Length == BitmapBytes(response.value)
      ensures !ok ==> bits == old(bits) && reserved == old(reserved)
      ensures ok ==> Free() == UsableFrames(response.value) - reserved
      ensures ok ==> exists i ::
                  0 <= i < |response.value| && FirstRegion(response.value, i) && base == response.value[i].base
                  && reserved == Range(base / FRAME_SIZE, BitmapFrames(response.value))
                  && reserved <= EntryFrames(response.value[i])
      ensures ok ==> (Houses(reserved, base, bits.Length) <==> BitmapFits(response.value))
    {
      if response.None? || !hhdm { return false; }
      var mmap := response.value;
      if HighestAddress(mmap) == 0 { return false; }
      var region := FindRegion(mmap);
      if region == |mmap| { return false; }
      var needed := BitmapFrames(mmap);
      up := true;
      bits, base := new Byte[BitmapBytes(mmap)](_ => 255), mmap[region].base;
      OpenUsable(mmap);
      var start := base / FRAME_SIZE;
      EntryFitsBitmap(mmap, region);
      assert needed <= mmap[region].length / FRAME_SIZE;
      MarkRangeUsed(start, needed);
      reserved := Range(start, needed);
      HousedWhenFits(base, bits.Length);
      OneRegion(mmap, region);
      return true;
    }

    static method FindRegion(mmap: seq<MemoryMapEntry>) returns (region: nat)
      ensures region <= |mmap|
      ensures forall i | 0 <= i < region :: !HoldsBitmap(mmap, mmap[i])
      ensures region < |mmap| ==> HoldsBitmap(mmap, mmap[region])
    {
      region := 0;
      while region < |mmap| && !HoldsBitmap(mmap, mmap[region])
        invariant region <= |mmap|
        invariant forall i | 0 <= i < region :: !HoldsBitmap(mmap, mmap[i])
      {
        region := region + 1;
      }
    }

    method OpenUsable(mmap: seq<MemoryMapEntry>)
      requires up && bits.Length == BitmapBytes(mmap)
      requires forall i | 0 <= i < bits.Length :: bits[i] == 255
      modifies bits
      ensures Free() == UsableFrames(mmap)
    {
      forall f | 0 <= f < 8 * bits.Length ensures IsUsed(bits[..], f) { AllOnes(f % 8); }
      assert Free() == {};
      assert mmap[..0] == [];
      for i := 0 to |mmap|
        invariant Free() == UsableFrames(mmap[..i])
      {
        assert mmap[..i + 1][..i] == mmap[..i];
        if mmap[i].usable {
          EntryFitsBitmap(mmap, i);
          MarkRangeFree(mmap[i].base / FRAME_SIZE, mmap[i].length / FRAME_SIZE);
        }
      }
      assert mmap[..|mmap|] == mmap;
    }
  }
}
