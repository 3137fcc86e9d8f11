// A bitmap packed eight bits to a byte, seen as a set of indices.  Both the frame
// allocator and the filesystem keep one.
module Bitmaps {
  import opened Bits

  predicate IsUsed(bits: seq<Byte>, frame: nat)
    requires frame < 8 * |bits|
  {
    And(bits[frame / 8], Pow2(frame % 8)) != 0
  }

  ghost function FreeSet(bits: seq<Byte>): set<nat> {
    set f | 0 <= f < 8 * |bits| && !IsUsed(bits, f)
  }

  ghost function Range(start: nat, count: nat): (r: set<nat>)
    ensures forall f :: f in r <==> start <= f < start + count
  {
    if count == 0 then {} else Range(start, count - 1) + {start + count - 1}
  }

  lemma {:induction false} RangeSize(start: nat, count: nat)
    ensures |Range(start, count)| == count
  {
    if count > 0 { RangeSize(start, count - 1); }
  }

  ghost predicate RunFree(bits: seq<Byte>, start: nat, count: nat) {
    start + count <= 8 * |bits| && forall f | start <= f < start + count :: !IsUsed(bits, f)
  }

  lemma ByteMask(k: nat)
    requires k < 8
    ensures Pow2(k) < 256 && Pow2(8) == 256
  {
    Pow2Grows(k, 7);
    assert Pow2(7) == 128;
  }

  // `bits[frame / 8] |= 1 << (frame % 8)` removes one frame from the free set.
  lemma OrTakesOne(bits: seq<Byte>, frame: nat, b: Byte)
    requires frame < 8 * |bits| && b == Or(bits[frame / 8], Pow2(frame % 8))
    ensures FreeSet(bits[frame / 8 := b]) == FreeSet(bits) - {frame}
  {
    var bits' := bits[frame / 8 := b];
    forall g | 0 <= g < 8 * |bits|
      ensures IsUsed(bits', g) <==> IsUsed(bits, g) || g == frame
    {
      TestBit(bits[g / 8], g % 8);
      TestBit(bits'[g / 8], g % 8);
      if g / 8 == frame / 8 {
        OrBit(bits[g / 8], Pow2(frame % 8), g % 8);
        ShiftedOneBit(frame % 8, g % 8);
      }
    }
  }

  // `bits[frame / 8] &= !(1 << (frame % 8))` adds one frame to the free set.
  lemma AndNotGivesOne(bits: seq<Byte>, frame: nat, b: Byte)
    requires frame < 8 * |bits| && Pow2(frame % 8) < Pow2(8)
    requires b == And(bits[frame / 8], Not(8, Pow2(frame % 8)))
    ensures FreeSet(bits[frame / 8 := b]) == FreeSet(bits) + {frame}
  {
    var bits' := bits[frame / 8 := b];
    forall g | 0 <= g < 8 * |bits|
      ensures IsUsed(bits', g) <==> IsUsed(bits, g) && g != frame
    {
      TestBit(bits[g / 8], g % 8);
      TestBit(bits'[g / 8], g % 8);
      if g / 8 == frame / 8 {
        AndBit(bits[g / 8], Not(8, Pow2(frame % 8)), g % 8);
        NotBit(8, Pow2(frame % 8), g % 8);
        ShiftedOneBit(frame % 8, g % 8);
      }
    }
  }

  lemma AllOnes(k: nat)
    requires k < 8
    ensures And(255, Pow2(k)) != 0
  {
    ByteMask(k);
    ZeroBit(k);
    NotBit(8, 0, k);
    TestBit(255, k);
  }
}
