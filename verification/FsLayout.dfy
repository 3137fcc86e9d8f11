// The on-disk layout of the filesystem: sectors, the block bitmap, and 64
// inodes of 256 bytes packed two to a sector.
module FsLayout {
  import opened Bits
  import opened Bitmaps

  const SECTOR_SIZE: nat := 512
  const BITMAP_START: nat := 1
  const BITMAP_SECTORS: nat := 2
  const INODE_START: nat := 3
  const INODE_SECTORS: nat := 32
  const DATA_START: nat := 35
  const MAX_FILES: nat := 64
  const NAME_MAX: nat := 26
  const DIRECT_BLOCKS: nat := 12
  const FILE_MAX_BYTES: nat := 6144
  const INODE_SIZE: nat := 256
  const INODES_PER_SECTOR: nat := 2
  const TOTAL_DATA_BLOCKS: nat := 2000
  const ROOT_INODE: nat := 0
  const MAGIC: nat := 0x4D494E33
  const DISK_SECTORS: nat := 2035

  type Sector = s: seq<Byte> | |s| == 512 witness seq(512, _ => 0)

  // ---------- little-endian words ----------

  function ToLe(n: nat): (b: seq<Byte>)
    requires n < 0x1_0000_0000
    ensures |b| == 4
  {
    [n % 0x100, n / 0x100 % 0x100, n / 0x1_0000 % 0x100, n / 0x100_0000]
  }

  function FromLe(b: seq<Byte>): (n: nat)
    requires |b| == 4
    ensures n < 0x1_0000_0000
  {
    var b0: nat, b1: nat, b2: nat, b3: nat := b[0], b[1], b[2], b[3];
    b0 + b1 * 0x100 + b2 * 0x1_0000 + b3 * 0x100_0000
  }

  // The low byte comes first.
  lemma LeRoundTrip(n: nat)
    requires n < 0x1_0000_0000
    ensures FromLe(ToLe(n)) == n
    ensures forall k | 0 <= k < 4 :: ToLe(n)[k] == n / Pow2(8 * k) % 0x100
  {
    LowByte(n);
    LowByte(n / 0x100);
    LowByte(n / 0x1_0000);
    assert Pow2(8) == 0x100 && Pow2(16) == 0x1_0000 && Pow2(24) == 0x100_0000;
    assert n / 0x100 / 0x100 == n / 0x1_0000 && n / 0x1_0000 / 0x100 == n / 0x100_0000;
  }

  lemma LowByte(n: nat)
    ensures n == n / 0x100 * 0x100 + n % 0x100
  {
  }

  // ---------- inodes ----------

  datatype Inode = Inode(used: bool, isDir: bool, parent: nat, name: seq<Byte>, size: nat, blocks: seq<nat>)

  function ZeroBlocks(): (z: seq<nat>)
    ensures |z| == 12 && forall j | 0 <= j < 12 :: z[j] == 0
  {
    seq(12, _ => 0)
  }

  function EmptyInode(): Inode { Inode(false, false, 0, [], 0, ZeroBlocks()) }

  // What fits the fields of the on-disk record.
  ghost predicate Storable(n: Inode) {
    && |n.name| <= NAME_MAX
    && n.parent < 0x1_0000_0000 && n.size < 0x1_0000_0000
    && |n.blocks| == 12 && forall j | 0 <= j < 12 :: n.blocks[j] < 0x1_0000_0000
  }

  function LeBlocks(blocks: seq<nat>): (b: seq<Byte>)
    requires forall j | 0 <= j < |blocks| :: blocks[j] < 0x1_0000_0000
    ensures |b| == 4 * |blocks|
  {
    if blocks == [] then [] else LeBlocks(blocks[..|blocks| - 1]) + ToLe(blocks[|blocks| - 1])
  }

  function FromLeBlocks(b: seq<Byte>, n: nat): (blocks: seq<nat>)
    requires |b| >= 4 * n
    ensures |blocks| == n && forall j | 0 <= j < n :: blocks[j] == FromLe(b[4 * j..4 * j + 4])
  {
    if n == 0 then [] else FromLeBlocks(b, n - 1) + [FromLe(b[4 * (n - 1)..4 * (n - 1) + 4])]
  }

  function Zeros(n: nat): (z: seq<Byte>)
    ensures |z| == n && forall j | 0 <= j < n :: z[j] == 0
  {
    seq(n, _ => 0)
  }

  function Flag(b: bool): Byte { if b then 1 else 0 }

  // The 256 bytes of an inode.
  ghost function Encode(n: Inode): (b: seq<Byte>)
    requires Storable(n)
    ensures |b| == INODE_SIZE
  {
    [Flag(n.used), Flag(n.isDir)] + ToLe(n.parent) + (n.name + Zeros(26 - |n.name|))
    + ToLe(n.size) + LeBlocks(n.blocks) + Zeros(172)
  }

  function UpToZero(b: seq<Byte>): (s: seq<Byte>)
    ensures |s| <= |b| && s == b[..|s|] && 0 !in s && (|s| < |b| ==> b[|s|] == 0)
  {
    if b == [] || b[0] == 0 then [] else [b[0]] + UpToZero(b[1..])
  }

  ghost function Decode(b: seq<Byte>): Inode
    requires |b| == INODE_SIZE
  {
    if b[0] != 1 then EmptyInode()
    else Inode(true, b[1] == 1, FromLe(b[2..6]), UpToZero(b[6..32]), FromLe(b[32..36]), FromLeBlocks(b[36..84], 12))
  }

  lemma {:induction false} BlocksRoundTrip(blocks: seq<nat>)
    requires forall j | 0 <= j < |blocks| :: blocks[j] < 0x1_0000_0000
    ensures FromLeBlocks(LeBlocks(blocks), |blocks|) == blocks
  {
    forall j | 0 <= j < |blocks| ensures LeBlocks(blocks)[4 * j..4 * j + 4] == ToLe(blocks[j]) {
      LeBlocksAt(blocks, j);
    }
    forall j | 0 <= j < |blocks| ensures FromLeBlocks(LeBlocks(blocks), |blocks|)[j] == blocks[j] {
      LeRoundTrip(blocks[j]);
    }
  }

  lemma {:induction false} LeBlocksAt(blocks: seq<nat>, j: nat)
    requires j < |blocks| && forall i | 0 <= i < |blocks| :: blocks[i] < 0x1_0000_0000
    ensures LeBlocks(blocks)[4 * j..4 * j + 4] == ToLe(blocks[j])
  {
    var n := |blocks| - 1;
    if j < n {
      LeBlocksAt(blocks[..n], j);
      assert LeBlocks(blocks)[4 * j..4 * j + 4] == LeBlocks(blocks[..n])[4 * j..4 * j + 4];
    } else {
      assert LeBlocks(blocks)[4 * j..4 * j + 4] == ToLe(blocks[n]);
    }
  }

  lemma {:induction false} NameRoundTrip(name: seq<Byte>, pad: nat)
    ensures UpToZero(name + Zeros(pad)) == UpToZero(name)
  {
    if name != [] && name[0] != 0 {
      assert (name + Zeros(pad))[1..] == name[1..] + Zeros(pad);
      NameRoundTrip(name[1..], pad);
    }
  }

  // A stored name is cut at its first NUL, so it reads back exactly when it has none.
  lemma {:induction false} NameReadsBack(name: seq<Byte>)
    ensures UpToZero(name) == name <==> 0 !in name
  {
    if name != [] && name[0] != 0 {
      NameReadsBack(name[1..]);
      assert name == [name[0]] + name[1..];
    }
  }

  // What is read after inode n was written.
  function AsRead(n: Inode): Inode {
    if n.used then n.(name := UpToZero(n.name)) else EmptyInode()
  }

  // A used inode reads back as written but for its name, which ends at its first NUL; an unused one
  // reads back as the empty inode.
  lemma InodeRoundTrip(n: Inode)
    requires Storable(n)
    ensures Decode(Encode(n)) == AsRead(n)
    ensures n.used ==> (Decode(Encode(n)) == n <==> 0 !in n.name)
  {
    hide Encode, UpToZero, FromLe, ToLe, LeBlocks, FromLeBlocks, Zeros;
    NameReadsBack(n.name);
    EncodeFields(n);
    LeRoundTrip(n.parent);
    LeRoundTrip(n.size);
    NameRoundTrip(n.name, 26 - |n.name|);
    BlocksRoundTrip(n.blocks);
  }

  // Where each field of the record lies.
  lemma EncodeFields(n: Inode)
    requires Storable(n)
    ensures var b := Encode(n);
            && b[0] == Flag(n.used) && b[1] == Flag(n.isDir) && b[2..6] == ToLe(n.parent)
            && b[6..32] == n.name + Zeros(26 - |n.name|) && b[32..36] == ToLe(n.size)
            && b[36..84] == LeBlocks(n.blocks) && b[84..] == Zeros(172)
            && forall j | 0 <= j < 12 :: b[36 + 4 * j..40 + 4 * j] == ToLe(n.blocks[j])
  {
    hide ToLe, LeBlocks, Zeros;
    var b := Encode(n);
    assert b[36..84] == LeBlocks(n.blocks);
    forall j | 0 <= j < 12 ensures b[36 + 4 * j..40 + 4 * j] == ToLe(n.blocks[j]) {
      LeBlocksAt(n.blocks, j);
      assert b[36 + 4 * j..40 + 4 * j] == b[36..84][4 * j..4 * j + 4];
    }
  }

  // ---------- the disk as a value ----------

  ghost predicate IsDisk(d: seq<Sector>) { |d| >= DISK_SECTORS }

  ghost function Bitmap(d: seq<Sector>): (b: seq<Byte>)
    requires IsDisk(d)
    ensures |b| == 1024
  {
    var lo: seq<Byte>, hi: seq<Byte> := d[1], d[2];
    lo + hi
  }

  // The data blocks marked in use, counted from DATA_START.
  ghost function Marked(d: seq<Sector>): set<nat>
    requires IsDisk(d)
  {
    set i | 0 <= i < 8192 && IsUsed(Bitmap(d), i)
  }

  ghost function InodeBytes(d: seq<Sector>, i: nat): (b: seq<Byte>)
    requires IsDisk(d) && i < MAX_FILES
    ensures |b| == INODE_SIZE
  {
    d[INODE_START + i / 2][i % 2 * 256..i % 2 * 256 + 256]
  }

  ghost function InodeAt(d: seq<Sector>, i: nat): Inode
    requires IsDisk(d) && i < MAX_FILES
  {
    Decode(InodeBytes(d, i))
  }

  ghost function Inodes(d: seq<Sector>): (t: seq<Inode>)
    requires IsDisk(d)
    ensures |t| == MAX_FILES && forall i | 0 <= i < MAX_FILES :: t[i] == InodeAt(d, i)
  {
    seq(MAX_FILES, i requires 0 <= i < MAX_FILES => InodeAt(d, i))
  }

  // Sector `s` with the 256 bytes at slot `k` replaced.
  function Splice(s: Sector, k: nat, b: seq<Byte>): (r: Sector)
    requires k < 2 && |b| == INODE_SIZE
  {
    var t: seq<Byte> := s;
    t[..k * 256] + b + t[k * 256 + 256..]
  }

  // Writing inode i leaves the other inode of the sector, the bitmap and the data alone.
  lemma InodeWritten(d: seq<Sector>, i: nat, n: Inode)
    requires IsDisk(d) && i < MAX_FILES && Storable(n)
    ensures var d' := d[INODE_START + i / 2 := Splice(d[INODE_START + i / 2], i % 2, Encode(n))];
            && Inodes(d') == Inodes(d)[i := AsRead(n)]
            && Marked(d') == Marked(d)
  {
    hide Encode, Decode, IsUsed, AsRead, Splice, Bitmap, InodeBytes;
    InodeRoundTrip(n);
    RecordWritten(d, i, Encode(n));
  }

  lemma RecordWritten(d: seq<Sector>, i: nat, b: seq<Byte>)
    requires IsDisk(d) && i < MAX_FILES && |b| == INODE_SIZE
    ensures var d' := d[INODE_START + i / 2 := Splice(d[INODE_START + i / 2], i % 2, b)];
            && Bitmap(d') == Bitmap(d)
            && forall j: nat | j < MAX_FILES :: InodeBytes(d', j) == if j == i then b else InodeBytes(d, j)
  {
    hide Splice;
    var q := INODE_START + i / 2;
    var d' := d[q := Splice(d[q], i % 2, b)];
    forall j: nat | j < MAX_FILES ensures InodeBytes(d', j) == if j == i then b else InodeBytes(d, j) {
      if j / 2 == i / 2 {
        SpliceSlots(d[q], i % 2, b);
        if j != i { assert j % 2 == 1 - i % 2; }
      }
    }
  }

  lemma SpliceSlots(s: Sector, k: nat, b: seq<Byte>)
    requires k < 2 && |b| == INODE_SIZE
    ensures Splice(s, k, b)[k * 256..k * 256 + 256] == b
    ensures Splice(s, k, b)[(1 - k) * 256..(1 - k) * 256 + 256] == s[(1 - k) * 256..(1 - k) * 256 + 256]
  {
  }

  // Writing a data block touches neither the inodes nor the bitmap.
  lemma BlockWritten(d: seq<Sector>, blk: nat, data: Sector)
    requires IsDisk(d) && DATA_START <= blk < |d|
    ensures Inodes(d[blk := data]) == Inodes(d) && Marked(d[blk := data]) == Marked(d)
  {
    var d' := d[blk := data];
    assert Bitmap(d') == Bitmap(d);
    forall j: nat | j < MAX_FILES ensures InodeBytes(d', j) == InodeBytes(d, j) {
    }
  }

  // Writing the bitmap back touches nothing else.
  lemma BitmapWritten(d: seq<Sector>, bm: seq<Byte>)
    requires IsDisk(d) && |bm| == 1024
    ensures var d' := d[1 := bm[..512]][2 := bm[512..]];
            Inodes(d') == Inodes(d) && Bitmap(d') == bm
  {
    var d' := d[1 := bm[..512]][2 := bm[512..]];
    forall j: nat | j < MAX_FILES ensures InodeBytes(d', j) == InodeBytes(d, j) {
    }
  }
}
