// The installer's cylinder/head/sector encoder, which saturates.
module Chs {
  import opened Bits

  const HEADS: nat := 255
  const SECTORS: nat := 63
  const CYLINDERS: nat := 1024
  const LIMIT: nat := 16450560  // CYLINDERS * HEADS * SECTORS

  // The three fields packed in a partition table entry.
  function Cylinder(b1: Byte, b2: Byte): nat { And(b1, 0xc0) * 4 + b2 }

  function SectorOf(b1: Byte): nat { And(b1, 0x3f) }

  // The logical block the three bytes name; sectors count from 1.
  function Decode(b0: Byte, b1: Byte, b2: Byte): int {
    (Cylinder(b1, b2) * HEADS + b0) * SECTORS + SectorOf(b1) - 1
  }

  predicate InGeometry(b0: Byte, b1: Byte) {
    b0 < HEADS && 1 <= SectorOf(b1) <= SECTORS
  }

  // The upper two bits and the lower six of a byte.
  lemma Fields(b: nat)
    requires b < 256
    ensures And(b, 0xc0) == b / 64 * 64 && And(b, 0x3f) == b % 64
  {
    hide And;
    assert Pow2(6) == 64 && Pow2(8) == 256;
    AndMask(b, 6, 8);
    AndMask(b, 0, 6);
  }

  lemma PackedByte(cylinder: nat, sector: nat)
    requires cylinder < CYLINDERS && sector < 64
    ensures var b := Or(And(cylinder / 4, 0xc0), And(sector, 0x3f));
            b < 256 && And(b, 0xc0) == cylinder / 256 * 64 && And(b, 0x3f) == sector
  {
    hide And, Or;
    Fields(cylinder / 4);
    Fields(sector);
    assert Pow2(6) == 64;
    OrDisjoint(cylinder / 256 * 64, sector, 6);
    Fields(cylinder / 256 * 64 + sector);
  }

  lemma Digits(lba: nat)
    ensures (lba / (HEADS * SECTORS) * HEADS + lba / SECTORS % HEADS) * SECTORS + lba % SECTORS == lba
  {
    var q := lba / SECTORS;
    assert q / HEADS == lba / (HEADS * SECTORS);
  }

  // `lba2chs`: every block number below the limit is encoded exactly, any other as the last one.
  method Lba2Chs(chs: array<Byte>, lba: nat)
    requires chs.Length == 3
    modifies chs
    ensures InGeometry(chs[0], chs[1])
    ensures Decode(chs[0], chs[1], chs[2]) == if lba < LIMIT then lba else LIMIT - 1
  {
    hide And, Or;
    Fields(0xff);
    var tooBig := lba > SECTORS * HEADS * CYLINDERS;
    var cylinder := lba / (HEADS * SECTORS);
    if tooBig || cylinder >= CYLINDERS {
      chs[0] := 0xfe;
      chs[1] := 0xff;
      chs[2] := 0xff;
      return;
    }
    var head := lba / SECTORS % HEADS;
    var sector := lba % SECTORS + 1;
    PackedByte(cylinder, sector);
    Digits(lba);
    chs[0] := head;
    chs[1] := Or(And(cylinder / 4, 0xc0), And(sector, 0x3f));
    chs[2] := cylinder % 256;
    assert Cylinder(chs[1], chs[2]) == cylinder;
  }

  lemma SameParts(q: nat, r: nat, q': nat, r': nat, m: nat)
    requires r < m && r' < m && q * m + r == q' * m + r'
    ensures q == q' && r == r'
  {
    DivModUnique(q * m + r, m, q, r);
    DivModUnique(q' * m + r', m, q', r');
  }

  // Bytes in the geometry are determined by the block they name, so the encoder has no other choice.
  lemma DecodeInjective(a0: Byte, a1: Byte, a2: Byte, b0: Byte, b1: Byte, b2: Byte)
    requires InGeometry(a0, a1) && InGeometry(b0, b1) && Decode(a0, a1, a2) == Decode(b0, b1, b2)
    ensures a0 == b0 && a1 == b1 && a2 == b2
  {
    hide And;
    Fields(a1);
    Fields(b1);
    SameParts(Cylinder(a1, a2) * HEADS + a0, SectorOf(a1) - 1, Cylinder(b1, b2) * HEADS + b0, SectorOf(b1) - 1,
              SECTORS);
    SameParts(Cylinder(a1, a2), a0, Cylinder(b1, b2), b0, HEADS);
    SameParts(a1 / 64, a2, b1 / 64, b2, 256);
  }
}
