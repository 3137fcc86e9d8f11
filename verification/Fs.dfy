// The filesystem: block bitmap, inode table, directories by parent pointer, and
// a current directory, over a disk whose sectors are read and written in place.
module Fs {
  import opened Wrappers
  import opened Bits
  import opened Bitmaps
  import opened Buffers
  import opened FsLayout
  import opened FsInvariant

  datatype FsError =
    | NameTooLong | AlreadyExists | TableFull | NotFound | NotADirectory
    | IsADirectory | FileTooBig | DiskFull | NotEmpty

  datatype Outcome = Ok | Err(error: FsError)

  class FileSystem {
    const disk: array<Sector>
    var cwd: nat  // CWD
    ghost var depth: seq<nat>

    ghost predicate Valid()
      reads this, disk
    {
      FsOk(disk[..], cwd, depth)
    }

    ghost function Table(): (t: seq<Inode>)
      requires IsDisk(disk[..])
      reads disk
      ensures |t| == MAX_FILES
    {
      Inodes(disk[..])
    }

    // ---------- the block bitmap ----------

    method ReadBitmap() returns (bm: array<Byte>)
      requires IsDisk(disk[..])
      ensures fresh(bm) && bm[..] == Bitmap(disk[..])
    {
      bm := new Byte[1024];
      for s := 0 to BITMAP_SECTORS
        invariant s > 0 ==> bm[..512] == disk[1]
        invariant s > 1 ==> bm[512..] == disk[2]
      {
        var sec: seq<Byte> := disk[BITMAP_START + s];
        PutBytes(bm, s * SECTOR_SIZE, sec);
      }
      assert bm[..] == bm[..512] + bm[512..];
    }

    method WriteBitmap(bm: array<Byte>)
      requires IsDisk(disk[..]) && bm.Length == 1024
      modifies disk
      ensures disk[..] == old(disk[..])[1 := bm[..512]][2 := bm[512..]]
    {
      for s := 0 to BITMAP_SECTORS
        invariant disk[..] == if s == 0 then old(disk[..]) else if s == 1 then old(disk[..])[1 := bm[..512]]
                              else old(disk[..])[1 := bm[..512]][2 := bm[512..]]
      {
        var off := s * SECTOR_SIZE;
        var sec := bm[off..off + SECTOR_SIZE];
        assert sec == if s == 0 then bm[..512] else bm[512..];
        disk[BITMAP_START + s] := sec;
      }
    }

    // Only the bitmap sectors changed.
    static ghost predicate BitmapStep(d0: seq<Sector>, d1: seq<Sector>) {
      && IsDisk(d0) && |d1| == |d0| && Inodes(d1) == Inodes(d0)
      && forall s | 0 <= s < |d0| && s != 1 && s != 2 :: d1[s] == d0[s]
    }

    // Sets or clears one bit of the bitmap read from the disk and writes it back.
    method SetBit(bm: array<Byte>, i: nat, used: bool)
      requires IsDisk(disk[..]) && bm[..] == Bitmap(disk[..]) && i < 8192
      modifies disk, bm
      ensures BitmapStep(old(disk[..]), disk[..])
      ensures Marked(disk[..]) == if used then old(Marked(disk[..])) + {i} else old(Marked(disk[..])) - {i}
    {
      hide Inodes, And, Or, Not;
      ghost var d0 := disk[..];
      var b := BitMarked(bm[..], i, used);
      bm[i / 8] := b;
      assert bm[..] == Bitmap(d0)[i / 8 := b];
      WriteBitmap(bm);
      BitmapWritten(d0, bm[..]);
      MarkedIsNotFree(d0);
      MarkedIsNotFree(disk[..]);
    }

    // The new value of the byte that holds bit i.
    static method BitMarked(bm: seq<Byte>, i: nat, used: bool) returns (b: Byte)
      requires |bm| == 1024 && i < 8192
      ensures FreeSet(bm[i / 8 := b]) == if used then FreeSet(bm) - {i} else FreeSet(bm) + {i}
    {
      ByteMask(i % 8);
      if used {
        OrBound(bm[i / 8], Pow2(i % 8), 8);
        b := Or(bm[i / 8], Pow2(i % 8));
        OrTakesOne(bm, i, b);
      } else {
        AndBound(bm[i / 8], Not(8, Pow2(i % 8)));
        b := And(bm[i / 8], Not(8, Pow2(i % 8)));
        AndNotGivesOne(bm, i, b);
      }
    }

    // `alloc_block`: the first unmarked block, or None when all 2000 are marked.
    method AllocBlock() returns (r: Option<nat>)
      requires IsDisk(disk[..])
      modifies disk
      ensures BitmapStep(old(disk[..]), disk[..])
      ensures r.None? ==> disk[..] == old(disk[..]) && Range(0, TOTAL_DATA_BLOCKS) <= Marked(disk[..])
      ensures r.Some? ==> DATA_START <= r.value < DATA_START + TOTAL_DATA_BLOCKS
      ensures r.Some? ==> r.value - DATA_START !in old(Marked(disk[..]))
                          && Marked(disk[..]) == old(Marked(disk[..])) + {r.value - DATA_START}
                          && forall i: nat | i < r.value - DATA_START :: i in old(Marked(disk[..]))
    {
      hide Inodes;
      ghost var d0 := disk[..];
      var bm := ReadBitmap();
      for i := 0 to TOTAL_DATA_BLOCKS
        invariant disk[..] == d0 && bm[..] == Bitmap(d0)
        invariant forall k: nat | k < i :: k in Marked(d0)
      {
        if And(bm[i / 8], Pow2(i % 8)) == 0 {
          ByteMask(i % 8);
          SetBit(bm, i, true);
          return Some(DATA_START + i);
        }
      }
      return None;
    }

    // `free_block`.
    method FreeBlock(lba: nat)
      requires IsDisk(disk[..]) && lba < DATA_START + 8192
      modifies disk
      ensures BitmapStep(old(disk[..]), disk[..])
      ensures lba < DATA_START ==> disk[..] == old(disk[..])
      ensures lba >= DATA_START ==> Marked(disk[..]) == old(Marked(disk[..])) - {lba - DATA_START}
    {
      hide Inodes;
      if lba < DATA_START { return; }
      var bm := ReadBitmap();
      SetBit(bm, lba - DATA_START, false);
    }

    static lemma MarkedIsNotFree(d: seq<Sector>)
      requires IsDisk(d)
      ensures Marked(d) == Range(0, 8192) - FreeSet(Bitmap(d))
    {
    }

    // ---------- inode input and output ----------

    // `read_inode`.
    method ReadInode(index: nat) returns (n: Inode)
      requires IsDisk(disk[..]) && index < MAX_FILES
      ensures n == InodeAt(disk[..], index)
    {
      var offset := index % INODES_PER_SECTOR * INODE_SIZE;
      var buf: seq<Byte> := disk[INODE_START + index / INODES_PER_SECTOR];
      ghost var b := buf[offset..offset + 256];
      n := EmptyInode();
      if buf[offset] == 1 {
        SliceOfSlice(buf, offset, INODE_SIZE, 2, 6);
        SliceOfSlice(buf, offset, INODE_SIZE, 6, 32);
        SliceOfSlice(buf, offset, INODE_SIZE, 32, 36);
        SliceOfSlice(buf, offset, INODE_SIZE, 36, 84);
        var name := ReadName(buf, offset + 6);
        var blocks := ReadBlocks(buf, offset + 36);
        n := Inode(true, buf[offset + 1] == 1, FromLe(buf[offset + 2..offset + 6]), name,
                   FromLe(buf[offset + 32..offset + 36]), blocks);
      }
    }

    // The name field ends at its first NUL.
    static method ReadName(buf: seq<Byte>, at: nat) returns (name: seq<Byte>)
      requires at + NAME_MAX <= |buf|
      ensures name == UpToZero(buf[at..at + NAME_MAX])
    {
      name := [];
      ghost var field := buf[at..at + NAME_MAX];
      for i := 0 to NAME_MAX
        invariant name == field[..i] && 0 !in name
      {
        if buf[at + i] == 0 {
          FirstZero(field, i);
          return;
        }
        name := name + [buf[at + i]];
      }
      FirstZero(field, NAME_MAX);
    }

    static method ReadBlocks(buf: seq<Byte>, at: nat) returns (blocks: seq<nat>)
      requires at + 48 <= |buf|
      ensures blocks == FromLeBlocks(buf[at..at + 48], 12)
    {
      blocks := [];
      ghost var field := buf[at..at + 48];
      for k := 0 to DIRECT_BLOCKS
        invariant blocks == FromLeBlocks(field, k)
      {
        var o := at + k * 4;
        SliceOfSlice(buf, at, 48, 4 * k, 4 * k + 4);
        blocks := blocks + [FromLe(buf[o..o + 4])];
      }
    }

    static lemma SliceOfSlice(buf: seq<Byte>, at: nat, n: nat, lo: nat, hi: nat)
      requires at + n <= |buf| && lo <= hi <= n
      ensures buf[at..at + n][lo..hi] == buf[at + lo..at + hi]
    {
      var a, b := buf[at..at + n][lo..hi], buf[at + lo..at + hi];
      assert |a| == |b| && forall i | 0 <= i < |a| :: a[i] == b[i];
    }

    static lemma {:induction false} FirstZero(b: seq<Byte>, len: nat)
      requires len <= |b| && 0 !in b[..len] && (len < |b| ==> b[len] == 0)
      ensures UpToZero(b) == b[..len]
    {
      if len > 0 {
        assert b[0] == b[..len][0];
        assert b[1..][..len - 1] == b[..len][1..];
        FirstZero(b[1..], len - 1);
      }
    }

    // `write_inode`: the sector is read, the record rebuilt in the buffer, and the sector written.
    method WriteInode(index: nat, node: Inode)
      requires IsDisk(disk[..]) && index < MAX_FILES && Storable(node)
      modifies disk
      ensures InodeStep(old(disk[..]), disk[..], index, AsRead(node))
      ensures 0 !in node.name ==> AsRead(node) == if node.used then node else EmptyInode()
    {
      hide Encode, Splice, Marked, Inodes, UpToZero;
      NameReadsBack(node.name);
      ghost var d0 := disk[..];
      InodeWritten(d0, index, node);
      var sector := INODE_START + index / INODES_PER_SECTOR;
      var offset := index % INODES_PER_SECTOR * INODE_SIZE;
      var buf := new Byte[512];
      var sec: seq<Byte> := disk[sector];
      PutBytes(buf, 0, sec);
      assert buf[..] == sec;
      PutBytes(buf, offset, Zeros(INODE_SIZE));
      FillRecord(buf, offset, node, sec);
      var out := buf[..];
      assert out == Splice(d0[sector], index % 2, Encode(node)) by {
        SpliceIsOverwrite(d0[sector], index % 2, Encode(node));
      }
      disk[sector] := out;
      assert disk[..] == d0[sector := out];
    }

    static lemma SpliceIsOverwrite(s: Sector, k: nat, b: seq<Byte>)
      requires k < 2 && |b| == INODE_SIZE
      ensures Splice(s, k, b) == Overwrite(s, k * 256, b)
    {
    }

    method FillRecord(buf: array<Byte>, offset: nat, node: Inode, ghost sec: seq<Byte>)
      requires buf.Length == 512 && Storable(node) && offset + INODE_SIZE <= 512 && |sec| == 512
      requires buf[..] == Overwrite(sec, offset, Zeros(INODE_SIZE))
      modifies buf
      ensures buf[..] == Overwrite(sec, offset, Encode(node))
    {
      hide ToLe, LeBlocks, Zeros, Overwrite, Encode;
      ghost var z := buf[..];
      ghost var e1 := [Flag(node.used), Flag(node.isDir)];
      PutBytes(buf, offset, [Flag(node.used), Flag(node.isDir)]);
      PutBytes(buf, offset + 2, ToLe(node.parent));
      OverwriteTwice(z, offset, e1, ToLe(node.parent));
      ghost var e2 := e1 + ToLe(node.parent);
      PutName(buf, offset, node.name, z, e2);
      ghost var pad := 26 - |node.name|;
      PadZeros(sec, offset, e2 + node.name, pad);
      ghost var e3 := e2 + node.name + Zeros(pad);
      PutBytes(buf, offset + 32, ToLe(node.size));
      OverwriteTwice(z, offset, e3, ToLe(node.size));
      ghost var e4 := e3 + ToLe(node.size);
      PutBlocks(buf, offset, node.blocks, z, e4);
      ghost var e5 := e4 + LeBlocks(node.blocks);
      PadZeros(sec, offset, e5, 172);
      OverwriteAll(sec, offset, Zeros(INODE_SIZE), e5 + Zeros(172));
      EncodeIs(node);
    }

    method PutName(buf: array<Byte>, offset: nat, name: seq<Byte>, ghost z: seq<Byte>, ghost e2: seq<Byte>)
      requires |z| == 512 && |e2| == 6 && offset + INODE_SIZE <= 512 && |name| <= NAME_MAX
      requires buf[..] == Overwrite(z, offset, e2)
      modifies buf
      ensures buf[..] == Overwrite(z, offset, e2 + name)
    {
      hide Overwrite;
      assert buf.Length == |buf[..]|;
      assert e2 + name[..0] == e2;
      for i := 0 to |name|
        invariant buf[..] == Overwrite(z, offset, e2 + name[..i])
      {
        OverwriteTwice(z, offset, e2 + name[..i], [name[i]]);
        assert e2 + name[..i] + [name[i]] == e2 + name[..i + 1];
        PutBytes(buf, offset + 6 + i, [name[i]]);
      }
      assert name[..|name|] == name;
    }

    method PutBlocks(buf: array<Byte>, offset: nat, blocks: seq<nat>, ghost z: seq<Byte>, ghost e4: seq<Byte>)
      requires |z| == 512 && |e4| == 36 && offset + INODE_SIZE <= 512
      requires |blocks| == 12 && forall j | 0 <= j < 12 :: blocks[j] < 0x1_0000_0000
      requires buf[..] == Overwrite(z, offset, e4)
      modifies buf
      ensures buf[..] == Overwrite(z, offset, e4 + LeBlocks(blocks))
    {
      hide Overwrite, ToLe;
      assert buf.Length == |buf[..]|;
      assert e4 + LeBlocks(blocks[..0]) == e4;
      for k := 0 to DIRECT_BLOCKS
        invariant buf[..] == Overwrite(z, offset, e4 + LeBlocks(blocks[..k]))
      {
        LeBlocksStep(blocks, k);
        OverwriteTwice(z, offset, e4 + LeBlocks(blocks[..k]), ToLe(blocks[k]));
        assert e4 + LeBlocks(blocks[..k]) + ToLe(blocks[k]) == e4 + LeBlocks(blocks[..k + 1]);
        PutBytes(buf, offset + 36 + k * 4, ToLe(blocks[k]));
      }
      assert blocks[..12] == blocks;
    }

    static lemma LeBlocksStep(blocks: seq<nat>, k: nat)
      requires k < |blocks| && forall j | 0 <= j < |blocks| :: blocks[j] < 0x1_0000_0000
      ensures LeBlocks(blocks[..k + 1]) == LeBlocks(blocks[..k]) + ToLe(blocks[k])
    {
      assert blocks[..k + 1][..k] == blocks[..k];
    }

    static lemma EncodeIs(n: Inode)
      requires Storable(n)
      ensures Encode(n) == [Flag(n.used), Flag(n.isDir)] + ToLe(n.parent) + n.name + Zeros(26 - |n.name|)
                           + ToLe(n.size) + LeBlocks(n.blocks) + Zeros(172)
    {
      hide ToLe, LeBlocks, Zeros;
    }

    // The record's bytes not yet written are still zero.
    static lemma PadZeros(sec: seq<Byte>, offset: nat, e: seq<Byte>, n: nat)
      requires offset + INODE_SIZE <= |sec| && |e| + n <= INODE_SIZE
      ensures var z := Overwrite(sec, offset, Zeros(INODE_SIZE));
              Overwrite(z, offset, e) == Overwrite(z, offset, e + Zeros(n))
    {
    }

    // ---------- lookup ----------

    // `find_in_dir`.
    method FindInDir(dir: nat, name: seq<Byte>) returns (r: Option<nat>)
      requires IsDisk(disk[..])
      ensures r.Some? ==> r.value < MAX_FILES && Entry(Table(), dir, name, r.value)
                          && forall j | 0 <= j < r.value :: !Entry(Table(), dir, name, j)
      ensures r.None? ==> forall j :: !Entry(Table(), dir, name, j)
    {
      for i := 0 to MAX_FILES
        invariant forall j | 0 <= j < i :: !Entry(Table(), dir, name, j)
      {
        var n := ReadInode(i);
        if n.used && n.parent == dir && n.name == name { return Some(i); }
      }
      return None;
    }

    // `find`.
    method Find(name: seq<Byte>) returns (r: Option<nat>)
      requires IsDisk(disk[..])
      ensures r.Some? ==> r.value < MAX_FILES && Entry(Table(), cwd, name, r.value)
      ensures r.None? ==> forall j :: !Entry(Table(), cwd, name, j)
    {
      r := FindInDir(cwd, name);
    }

    // `alloc_inode`: the first unused inode.
    method AllocInode() returns (r: Option<nat>)
      requires IsDisk(disk[..])
      ensures r.Some? ==>
              && r.value < MAX_FILES && !Table()[r.value].used
              && forall j | 0 <= j < r.value :: Table()[j].used
      ensures r.None? ==> forall j | 0 <= j < MAX_FILES :: Table()[j].used
    {
      for i := 0 to MAX_FILES
        invariant forall j | 0 <= j < i :: Table()[j].used
      {
        var n := ReadInode(i);
        if !n.used { return Some(i); }
      }
      return None;
    }

    // ---------- creating entries ----------

    // What `create` and `mkdir` do and when they refuse: on success the first unused inode becomes the new
    // entry, its name cut at the first NUL, and nothing else changes.
    static ghost predicate AddedEntry(d0: seq<Sector>, d1: seq<Sector>, cwd: nat, name: seq<Byte>, isDir: bool,
                                      r: Outcome)
      requires IsDisk(d0)
    {
      var t := Inodes(d0);
      var fits := 0 < |name| <= NAME_MAX;
      var taken := exists j :: Entry(t, cwd, name, j);
      var full := forall j | 0 <= j < MAX_FILES :: t[j].used;
      && (r == Err(NameTooLong) <==> !fits)
      && (r == Err(AlreadyExists) <==> fits && taken)
      && (r == Err(TableFull) <==> fits && !taken && full)
      && (r.Ok? <==> fits && !taken && !full)
      && (r.Err? ==> d1 == d0)
      && (r.Ok? ==> exists i :: (0 <= i < MAX_FILES && !t[i].used && (forall j | 0 <= j < i :: t[j].used)
                                 && InodeStep(d0, d1, i, NewNode(isDir, cwd, UpToZero(name)))))
    }

    // The name as it will be read is not empty and not taken.
    static ghost predicate NameKept(t: seq<Inode>, cwd: nat, name: seq<Byte>) {
      UpToZero(name) != [] && forall j :: !Entry(t, cwd, UpToZero(name), j)
    }

    // The common body of `create` and `mkdir`.  The disk stays in order exactly when the name is kept,
    // which every name without a NUL is.
    method AddEntry(name: seq<Byte>, isDir: bool) returns (r: Outcome)
      requires Valid()
      modifies this`depth, disk
      ensures IsDisk(disk[..]) && AddedEntry(old(disk[..]), disk[..], cwd, name, isDir, r)
      ensures Valid() <==> r.Err? || NameKept(old(Table()), cwd, name)
      ensures r.Ok? && 0 !in name ==> NameKept(old(Table()), cwd, name)
    {
      hide Inodes, Marked, FsOk, UpToZero;
      DirThere();
      if |name| == 0 || |name| > NAME_MAX { return Err(NameTooLong); }
      var found := Find(name);
      if found.Some? {
        assert Entry(Table(), cwd, name, found.value);
        return Err(AlreadyExists);
      }
      forall j: nat ensures !Entry(old(Table()), cwd, name, j) {
        assert !Entry(Table(), cwd, name, j);
      }
      var idx := AllocInode();
      assert Table() == old(Table());
      if idx.None? { return Err(TableFull); }
      var n := NewNode(isDir, cwd, name);
      assert cwd < MAX_FILES;
      ghost var d0 := disk[..];
      NameReadsBack(name);
      WriteInode(idx.value, n);
      EntryStored(d0, disk[..], cwd, depth, idx.value, isDir, name);
      depth := depth[idx.value := depth[cwd] + 1];
      return Ok;
    }

    lemma DirThere()
      requires Valid()
      ensures IsDisk(disk[..]) && cwd < MAX_FILES
    {
      hide Inodes, Marked, Owns, IsTree, NodesOk, SiblingsUnique;
    }

    static lemma EntryStored(d0: seq<Sector>, d1: seq<Sector>, cwd: nat, depth: seq<nat>, i: nat, isDir: bool,
                             name: seq<Byte>)
      requires FsOk(d0, cwd, depth) && i < MAX_FILES && !Inodes(d0)[i].used
      requires 0 < |name| <= NAME_MAX && InodeStep(d0, d1, i, NewNode(isDir, cwd, UpToZero(name)))
      ensures |depth| == MAX_FILES && cwd < MAX_FILES
      ensures FsOk(d1, cwd, depth[i := depth[cwd] + 1]) <==> NameKept(Inodes(d0), cwd, name)
    {
      hide Inodes, Marked, Owns, SiblingsUnique, NodesOk, UpToZero;
      if NameKept(Inodes(d0), cwd, name) {
        EntryAdded(Inodes(d0), Marked(d0), cwd, depth, i, isDir, UpToZero(name));
      } else {
        NameLost(Inodes(d0), cwd, i, isDir, name);
      }
    }

    static lemma NameLost(t: seq<Inode>, cwd: nat, i: nat, isDir: bool, name: seq<Byte>)
      requires i < |t| && !t[i].used && !NameKept(t, cwd, name)
      ensures var t' := t[i := NewNode(isDir, cwd, UpToZero(name))]; !(NodesOk(t') && SiblingsUnique(t'))
    {
      var s := UpToZero(name);
      var t' := t[i := NewNode(isDir, cwd, s)];
      if s == [] {
        assert !NodeOk(t'[i]);
      } else {
        var j: nat :| Entry(t, cwd, s, j);
        assert t'[j].used && t'[j].name == t'[i].name && i != j;
      }
    }

    // A name with a NUL is not found, so `create` accepts it although the name it will be read as is taken.
    static lemma NulNameLost()
      ensures var t := FreshTable()[1 := NewNode(false, ROOT_INODE, [97])];
              && TableOk(t, {}, ROOT_INODE, seq(MAX_FILES, _ => 0)[1 := 1])
              && (forall j :: !Entry(t, ROOT_INODE, [97, 0], j)) && !NameKept(t, ROOT_INODE, [97, 0])
    {
      hide TableOk;
      var depths: seq<nat> := seq(MAX_FILES, _ => 0);
      var t0 := FreshTable();
      FreshTableOk(t0);
      EntryAdded(t0, {}, ROOT_INODE, depths, 1, false, [97]);
      assert [97, 0][1..] == [0] && UpToZero([97, 0]) == [97];
      assert Entry(t0[1 := NewNode(false, ROOT_INODE, [97])], ROOT_INODE, [97], 1);
    }

    // `create`.
    method Create(name: seq<Byte>) returns (r: Outcome)
      requires Valid()
      modifies this`depth, disk
      ensures IsDisk(disk[..]) && AddedEntry(old(disk[..]), disk[..], cwd, name, false, r)
      ensures Valid() <==> r.Err? || NameKept(old(Table()), cwd, name)
      ensures r.Ok? && 0 !in name ==> NameKept(old(Table()), cwd, name)
    {
      r := AddEntry(name, false);
    }

    // `mkdir`.
    method Mkdir(name: seq<Byte>) returns (r: Outcome)
      requires Valid()
      modifies this`depth, disk
      ensures IsDisk(disk[..]) && AddedEntry(old(disk[..]), disk[..], cwd, name, true, r)
      ensures Valid() <==> r.Err? || NameKept(old(Table()), cwd, name)
      ensures r.Ok? && 0 !in name ==> NameKept(old(Table()), cwd, name)
    {
      r := AddEntry(name, true);
    }

    // ---------- mounting ----------

    // `format`.
    method Format()
      requires IsDisk(disk[..])
      modifies disk
      ensures IsDisk(disk[..]) && FromLe(disk[0][..4]) == MAGIC
      ensures Inodes(disk[..]) == FreshTable() && Marked(disk[..]) == {}
      ensures forall s | DATA_START <= s < disk.Length :: disk[s] == old(disk[s])
    {
      hide Inodes, Marked;
      LeRoundTrip(MAGIC);
      var sb: seq<Byte> := ToLe(MAGIC) + ToLe(SECTOR_SIZE) + Zeros(504);
      assert sb[..4] == ToLe(MAGIC);
      disk[0] := sb;
      for s := 0 to BITMAP_SECTORS
        invariant disk[0] == sb
        invariant forall k | BITMAP_START <= k < BITMAP_START + s :: disk[k] == Zeros(512)
        invariant forall k | DATA_START <= k < disk.Length :: disk[k] == old(disk[k])
      {
        disk[BITMAP_START + s] := Zeros(512);
      }
      for s := 0 to INODE_SECTORS
        invariant disk[0] == sb
        invariant forall k | BITMAP_START <= k < INODE_START + s :: disk[k] == Zeros(512)
        invariant forall k | DATA_START <= k < disk.Length :: disk[k] == old(disk[k])
      {
        disk[INODE_START + s] := Zeros(512);
      }
      ZeroedDisk(disk[..]);
      ghost var d := disk[..];
      WriteInode(ROOT_INODE, RootNode());
      assert Inodes(disk[..]) == Inodes(d)[0 := RootNode()];
      assert Inodes(disk[..]) == FreshTable();
    }

    // `init`: a disk that carries our magic number keeps its files, any other is formatted.  The disk is
    // in order then exactly when it was or did not carry the number.
    method Mount(ghost was: seq<nat>)
      requires IsDisk(disk[..])
      modifies this, disk
      ensures cwd == ROOT_INODE
      ensures Valid() <==> old(FromLe(disk[0][..4]) == MAGIC ==> FsOk(disk[..], ROOT_INODE, was))
      ensures old(FromLe(disk[0][..4]) == MAGIC) ==> disk[..] == old(disk[..]) && depth == was
      ensures old(FromLe(disk[0][..4]) != MAGIC) ==> Table() == FreshTable() && Marked(disk[..]) == {}
    {
      hide Inodes, Marked;
      var magic := FromLe(disk[0][..4]);
      depth := was;
      if magic != MAGIC {
        Format();
        FreshTableOk(Inodes(disk[..]));
        depth := seq(MAX_FILES, _ => 0);
      }
      cwd := ROOT_INODE;
    }

    // ---------- the current directory ----------

    static ghost predicate ChangedDir(t: seq<Inode>, from: nat, to: nat, name: seq<Byte>, r: Outcome)
      requires |t| == MAX_FILES && from < MAX_FILES
    {
      if name == [SLASH] then r.Ok? && to == ROOT_INODE
      else if name == [46, 46] then r.Ok? && to == t[from].parent
      else if name == [46] then r.Ok? && to == from
      else
        && (r.Ok? ==> Entry(t, from, name, to) && t[to].isDir)
        && (r.Err? ==> to == from && (r.error == NotADirectory || r.error == NotFound))
        && (r == Err(NotADirectory) <==> exists j: nat :: Entry(t, from, name, j) && !t[j].isDir)
        && (r == Err(NotFound) <==> forall j :: !Entry(t, from, name, j))
    }

    // `chdir`.
    method Chdir(name: seq<Byte>) returns (r: Outcome)
      requires Valid()
      modifies this`cwd
      ensures Valid() && old(cwd) < MAX_FILES && ChangedDir(Table(), old(cwd), cwd, name, r)
    {
      hide Inodes, Marked, Owns, NodesOk, SiblingsUnique;
      ghost var t := Table();
      if name == [SLASH] {
        cwd := ROOT_INODE;
        return Ok;
      }
      if name == [46, 46] {
        var node := ReadInode(cwd);
        cwd := node.parent;
        return Ok;
      }
      if name == [46] { return Ok; }
      var idx := Find(name);
      assert Table() == t;
      if idx.None? {
        assert forall j: nat :: !Entry(t, cwd, name, j);
        return Err(NotFound);
      }
      assert Entry(t, cwd, name, idx.value);
      forall j: nat | Entry(t, cwd, name, j) ensures j == idx.value { EntryUnique(t, cwd, name, j, idx.value); }
      var node := ReadInode(idx.value);
      assert node == t[idx.value];
      if !node.isDir { return Err(NotADirectory); }
      cwd := idx.value;
      return Ok;
    }

    // ---------- file content ----------

    // The loop that frees every block of a file, in `write` and in `remove`.
    method ReleaseAll(i: nat, was: Inode) returns (node: Inode)
      requires IsDisk(disk[..]) && i < MAX_FILES && was == Table()[i]
      requires Pending(Table(), i, was, Marked(disk[..]))
      modifies disk
      ensures BitmapStep(old(disk[..]), disk[..])
      ensures node == was.(blocks := ZeroBlocks()) && Pending(Table(), i, node, Marked(disk[..]))
    {
      hide Inodes, Marked, Owns;
      node := was;
      for b := 0 to DIRECT_BLOCKS
        invariant BitmapStep(old(disk[..]), disk[..])
        invariant Released(was, node, b) && Pending(Table(), i, node, Marked(disk[..]))
      {
        ReleaseOne(Table(), i, was, node, b, Marked(disk[..]));
        if node.blocks[b] != 0 {
          PendingInRange(Table(), i, node, b, Marked(disk[..]));
          FreeBlock(node.blocks[b]);
          node := SetBlock(node, b, 0);
        }
      }
      assert node.blocks == ZeroBlocks();
    }

    static lemma PendingInRange(t: seq<Inode>, i: nat, n: Inode, k: nat, marked: set<nat>)
      requires Pending(t, i, n, marked) && k < 12 && n.blocks[k] != 0
      ensures DATA_START <= n.blocks[k] < DISK_SECTORS
    {
      var t' := t[i := n];
      assert (12 * i + k) / 12 == i && (12 * i + k) % 12 == k;
      assert SlotBlock(t', 12 * i + k) == n.blocks[k];
    }

    // The loop that takes and fills the new blocks in `write`.
    method StoreBlocks(i: nat, empty: Inode, data: seq<Byte>) returns (node: Inode)
      requires IsDisk(disk[..]) && i < MAX_FILES && |data| <= FILE_MAX_BYTES
      requires empty.blocks == ZeroBlocks() && Pending(Table(), i, empty, Marked(disk[..]))
      modifies disk
      ensures IsDisk(disk[..]) && Table() == old(Table()) && disk[0] == old(disk[0])
      ensures node == empty.(blocks := node.blocks) && |node.blocks| == 12
              && Pending(Table(), i, node, Marked(disk[..]))
      ensures forall j | 0 <= j < 12 ::
                if j * SECTOR_SIZE < |data| then
                  DATA_START <= node.blocks[j] < DISK_SECTORS && disk[node.blocks[j]] == Chunk(data, j)
                else node.blocks[j] == 0
      ensures forall s | DATA_START <= s < disk.Length && s - DATA_START in old(Marked(disk[..])) ::
                disk[s] == old(disk[s])
    {
      hide Inodes, Marked, Owns, Chunk;
      node := empty;
      var need := (|data| + SECTOR_SIZE - 1) / SECTOR_SIZE;
      var written := 0;
      ghost var d0 := disk[..];
      for b := 0 to need
        invariant written == if b * SECTOR_SIZE < |data| then b * SECTOR_SIZE else |data|
        invariant IsDisk(disk[..]) && Table() == old(Table()) && disk[0] == old(disk[0])
        invariant node == empty.(blocks := node.blocks) && Pending(Table(), i, node, Marked(disk[..]))
        invariant forall j | b <= j < 12 :: node.blocks[j] == 0
        invariant forall j | 0 <= j < b :: Filled(disk[..], Marked(disk[..]), node, data, j)
        invariant Marked(d0) <= Marked(disk[..])
        invariant forall s | DATA_START <= s < disk.Length && s - DATA_START in Marked(d0) :: disk[s] == d0[s]
      {
        ghost var d1 := disk[..];
        var blk := AllocBlock();
        if blk.None? {
          // "disk full": every one of the 2000 blocks would have to be held by one of 64 files.
          RoomForBlock(Table()[i := node], Marked(disk[..]));
          assert false;
        }
        TakeOne(Table(), i, node, b, blk.value, Marked(d1));
        ghost var d2 := disk[..];
        var n := if |data| - written < SECTOR_SIZE then |data| - written else SECTOR_SIZE;
        var buf := data[written..written + n] + Zeros(SECTOR_SIZE - n);
        assert buf == Chunk(data, b) by { ChunkIs(data, b); }
        disk[blk.value] := buf;
        assert disk[..] == d2[blk.value := buf];
        BlockWritten(d2, blk.value, buf);
        StillFilled(d1, disk[..], Marked(d1), Marked(disk[..]), node, blk.value, data, b);
        node := SetBlock(node, b, blk.value);
        written := written + n;
      }
      forall j | 0 <= j < 12
        ensures j * SECTOR_SIZE < |data| ==> Filled(disk[..], Marked(disk[..]), node, data, j)
        ensures j * SECTOR_SIZE >= |data| ==> node.blocks[j] == 0
      {
        assert j < need <==> j * SECTOR_SIZE < |data|;
      }
    }

    static ghost predicate Filled(d: seq<Sector>, marked: set<nat>, n: Inode, data: seq<Byte>, j: nat) {
      && j < |n.blocks| && j * SECTOR_SIZE < |data| && DATA_START <= n.blocks[j] < DISK_SECTORS <= |d|
      && n.blocks[j] - DATA_START in marked && d[n.blocks[j]] == Chunk(data, j)
    }

    static lemma StillFilled(d1: seq<Sector>, d2: seq<Sector>, marked1: set<nat>, marked2: set<nat>, n: Inode,
                             blk: nat, data: seq<Byte>, b: nat)
      requires b < 12 && |n.blocks| == 12 && b * SECTOR_SIZE < |data| && |d2| == |d1| && IsDisk(d1)
      requires DATA_START <= blk < DISK_SECTORS && blk - DATA_START !in marked1
               && marked2 == marked1 + {blk - DATA_START}
      requires d2[blk] == Chunk(data, b) && forall s | DATA_START <= s < |d1| && s != blk :: d2[s] == d1[s]
      requires forall j | 0 <= j < b :: Filled(d1, marked1, n, data, j)
      ensures forall j | 0 <= j <= b :: Filled(d2, marked2, SetBlock(n, b, blk), data, j)
    {
      hide Chunk;
      forall j | 0 <= j <= b ensures Filled(d2, marked2, SetBlock(n, b, blk), data, j) {
        if j < b { assert Filled(d1, marked1, n, data, j); }
      }
    }

    static lemma ChunkIs(data: seq<Byte>, j: nat)
      requires j * SECTOR_SIZE < |data|
      ensures var n := if |data| - j * SECTOR_SIZE < SECTOR_SIZE then |data| - j * SECTOR_SIZE else SECTOR_SIZE;
              Chunk(data, j) == data[j * SECTOR_SIZE..j * SECTOR_SIZE + n] + Zeros(SECTOR_SIZE - n)
    {
    }

    // `write`: on success the named file holds exactly `data`; every other file keeps its inode and its
    // content.  The disk never fills up.
    method Write(name: seq<Byte>, data: seq<Byte>) returns (r: Outcome)
      requires Valid()
      modifies disk
      ensures Valid() && Written(old(disk[..]), disk[..], cwd, name, data, r)
    {
      hide Inodes, Marked, Owns, NodesOk, IsTree, OthersKept, FileHolds;
      ghost var t := Table();
      if |data| > FILE_MAX_BYTES { return Err(FileTooBig); }
      var found := Find(name);
      assert Table() == t;
      if found.None? {
        assert forall j: nat :: !Entry(t, cwd, name, j);
        return Err(NotFound);
      }
      var idx := found.value;
      assert Entry(t, cwd, name, idx);
      forall j: nat | Entry(t, cwd, name, j) ensures j == idx { EntryUnique(t, cwd, name, j, idx); }
      var node := ReadInode(idx);
      assert node == t[idx];
      if node.isDir { return Err(IsADirectory); }
      Rewrite(idx, node, data);
      return Ok;
    }

    // The rest of `write`: free the old blocks, take and fill new ones, store the inode.
    method Rewrite(idx: nat, was: Inode, data: seq<Byte>)
      requires Valid() && idx < MAX_FILES && was == Table()[idx] && was.used && !was.isDir && |data| <= FILE_MAX_BYTES
      modifies disk
      ensures Valid() && FileHolds(old(disk[..]), disk[..], idx, data) && OthersKept(old(disk[..]), disk[..], idx)
    {
      hide Inodes, Marked, Owns, NodesOk, IsTree, SiblingsUnique, OthersKept, Content, ContentUpTo, Pending,
           NodeOk, Storable, FileHolds, Chunk;
      ghost var d0, t := disk[..], Table();
      FileIsPending(t, Marked(d0), cwd, depth, idx);
      var node := ReleaseAll(idx, was);
      ghost var d1 := disk[..];
      node := StoreBlocks(idx, node, data);
      ghost var d2 := disk[..];
      var final := node.(size := |data|);
      FinalNode(was, final, data, d2);
      ResizePending(t, idx, node, |data|, Marked(d2));
      NodeIsStorable(final);
      WriteInode(idx, final);
      RewriteDone(d0, d1, d2, disk[..], cwd, depth, idx, was, final, data);
    }

    static lemma RewriteDone(d0: seq<Sector>, d1: seq<Sector>, d2: seq<Sector>, d3: seq<Sector>, cwd: nat,
                             depth: seq<nat>,
                             i: nat, was: Inode, n: Inode, data: seq<Byte>)
      requires FsOk(d0, cwd, depth) && IsDisk(d1) && IsDisk(d2) && |d1| == |d0| && |d2| == |d0| && i < MAX_FILES
      requires was == Inodes(d0)[i] && was.used && !was.isDir && NodeOk(n)
               && n == was.(size := |data|, blocks := n.blocks)
      requires Pending(Inodes(d0), i, was.(blocks := ZeroBlocks()), Marked(d1))
      requires Pending(Inodes(d0), i, n, Marked(d2)) && Inodes(d2) == Inodes(d0)
      requires InodeStep(d2, d3, i, n) && d2[0] == d0[0]
      requires forall s | DATA_START <= s < |d0| :: d1[s] == d0[s]
      requires forall s | DATA_START <= s < |d0| && s - DATA_START in Marked(d1) :: d2[s] == d1[s]
      requires forall j | 0 <= j < 12 && j * SECTOR_SIZE < |data| ::
                 n.blocks[j] >= DATA_START && d2[n.blocks[j]] == Chunk(data, j)
      ensures FsOk(d3, cwd, depth) && FileHolds(d0, d3, i, data) && OthersKept(d0, d3, i)
    {
      hide Inodes, Marked, Owns, IsTree, SiblingsUnique, OthersKept, Content, ContentUpTo, FileHolds, Chunk;
      FileRewritten(Inodes(d0), cwd, depth, i, n, Marked(d3));
      ContentOfChunks(d3, n, data, 12);
      assert data[..|data|] == data;
      OthersKeepContent(d0, d3, i, was.(blocks := ZeroBlocks()), Marked(d1));
      FileHoldsIs(d0, d3, i, n, data);
    }

    // File i holds `data` and is otherwise the file it was.
    static ghost predicate FileHolds(d0: seq<Sector>, d1: seq<Sector>, i: nat, data: seq<Byte>) {
      && IsDisk(d0) && IsDisk(d1) && i < MAX_FILES
      && var n := Inodes(d1)[i];
         n == Inodes(d0)[i].(size := |data|, blocks := n.blocks) && NodeOk(n) && Content(d1, n) == data
    }

    static lemma FileHoldsIs(d0: seq<Sector>, d1: seq<Sector>, i: nat, n: Inode, data: seq<Byte>)
      requires IsDisk(d0) && IsDisk(d1) && i < MAX_FILES && NodeOk(n)
      requires Inodes(d1)[i] == n && n == Inodes(d0)[i].(size := |data|, blocks := n.blocks)
      requires ContentUpTo(d1, n, 12) == data
      ensures FileHolds(d0, d1, i, data)
    {
    }

    static ghost predicate Written(d0: seq<Sector>, d1: seq<Sector>, cwd: nat, name: seq<Byte>, data: seq<Byte>,
                                   r: Outcome)
      requires IsDisk(d0)
    {
      var t := Inodes(d0);
      && (r == Err(FileTooBig) <==> |data| > FILE_MAX_BYTES)
      && (r == Err(NotFound) <==> |data| <= FILE_MAX_BYTES && forall j :: !Entry(t, cwd, name, j))
      && (r == Err(IsADirectory) <==> |data| <= FILE_MAX_BYTES && exists j: nat :: Entry(t, cwd, name, j) && t[j].isDir)
      && (r.Err? ==> r.error in {FileTooBig, NotFound, IsADirectory} && d1 == d0)
      && (r.Ok? ==> exists i :: (Entry(t, cwd, name, i) && FileHolds(d0, d1, i, data) && OthersKept(d0, d1, i)))
    }

    static lemma FileKind(d0: seq<Sector>, cwd: nat, depth: seq<nat>, name: seq<Byte>, data: seq<Byte>, i: nat)
      requires FsOk(d0, cwd, depth) && Entry(Inodes(d0), cwd, name, i)
      requires exists d1 :: Written(d0, d1, cwd, name, data, Ok)
      ensures !Inodes(d0)[i].isDir
    {
    }

    static lemma FileIsPending(t: seq<Inode>, marked: set<nat>, cwd: nat, depth: seq<nat>, i: nat)
      requires TableOk(t, marked, cwd, depth) && i < MAX_FILES
      ensures Pending(t, i, t[i], marked) && NodeOk(t[i])
    {
      assert t[i := t[i]] == t;
    }

    static lemma FinalNode(was: Inode, n: Inode, data: seq<Byte>, d: seq<Sector>)
      requires NodeOk(was) && was.used && !was.isDir && n == was.(size := |data|, blocks := n.blocks)
      requires |data| <= FILE_MAX_BYTES && |n.blocks| == 12
      requires forall j | 0 <= j < 12 ::
                 if j * SECTOR_SIZE < |data| then DATA_START <= n.blocks[j] < DISK_SECTORS else n.blocks[j] == 0
      ensures NodeOk(n)
    {
    }

    static lemma ResizePending(t: seq<Inode>, i: nat, n: Inode, size: nat, marked: set<nat>)
      requires Pending(t, i, n, marked)
      ensures Pending(t, i, n.(size := size), marked)
    {
      SwapIdle(t[i := n], marked, i, n.(size := size));
      assert t[i := n][i := n.(size := size)] == t[i := n.(size := size)];
    }

    // `read`: the size and, in the buffer, the content.
    method Read(name: seq<Byte>, out: array<Byte>) returns (size: nat, r: Outcome)
      requires Valid() && out.Length == FILE_MAX_BYTES
      modifies out
      ensures size <= FILE_MAX_BYTES && ReadFile(disk[..], cwd, name, out[..size], r)
      ensures r.Err? ==> out[..] == old(out[..])
    {
      hide Inodes, Marked, Owns, IsTree, Content, NodeOk;
      ghost var t := Table();
      var found := Find(name);
      assert Table() == t;
      if found.None? {
        assert forall j: nat :: !Entry(t, cwd, name, j);
        return 0, Err(NotFound);
      }
      var idx := found.value;
      assert Entry(t, cwd, name, idx);
      forall j: nat | Entry(t, cwd, name, j) ensures j == idx { EntryUnique(t, cwd, name, j, idx); }
      var node := ReadInode(idx);
      assert node == t[idx];
      if node.isDir { return 0, Err(IsADirectory); }
      FileIsPending(t, Marked(disk[..]), cwd, depth, idx);
      SizeFits(node);
      ReadBack(node, out);
      return node.size, Ok;
    }

    static ghost predicate ReadFile(d: seq<Sector>, cwd: nat, name: seq<Byte>, bytes: seq<Byte>, r: Outcome)
      requires IsDisk(d)
    {
      var t := Inodes(d);
      && (r == Err(NotFound) <==> forall j :: !Entry(t, cwd, name, j))
      && (r == Err(IsADirectory) <==> exists j: nat :: Entry(t, cwd, name, j) && t[j].isDir)
      && (r.Err? ==> r.error in {NotFound, IsADirectory})
      && (r.Ok? ==> exists j: nat :: (Entry(t, cwd, name, j) && NodeOk(t[j]) && t[j].size <= FILE_MAX_BYTES
                                      && bytes == Content(d, t[j])))
    }

    static lemma SizeFits(n: Inode)
      requires NodeOk(n)
      ensures n.size <= FILE_MAX_BYTES
    {
    }

    // The copying loop of `read`.
    method ReadBack(node: Inode, out: array<Byte>)
      requires IsDisk(disk[..]) && NodeOk(node) && node.size <= FILE_MAX_BYTES && out.Length == FILE_MAX_BYTES
      modifies out
      ensures out[..node.size] == Content(disk[..], node)
    {
      hide ContentUpTo;
      var readTotal, bi := 0, 0;
      NoContentYet(disk[..], node);
      while readTotal < node.size && bi < DIRECT_BLOCKS
        invariant bi <= 12 && readTotal == if bi * SECTOR_SIZE < node.size then bi * SECTOR_SIZE else node.size
        invariant out[..readTotal] == ContentUpTo(disk[..], node, bi)
        decreases 12 - bi
      {
        var blk := node.blocks[bi];
        if blk == 0 { break; }
        var buf: seq<Byte> := disk[blk];
        var n := if SECTOR_SIZE < node.size - readTotal then SECTOR_SIZE else node.size - readTotal;
        ghost var before := out[..readTotal];
        PutBytes(out, readTotal, buf[..n]);
        assert out[..readTotal + n] == before + buf[..n];
        NextContent(disk[..], node, bi);
        readTotal := readTotal + n;
        bi := bi + 1;
      }
      SizeReached(disk[..], node, bi);
    }

    static lemma NoContentYet(d: seq<Sector>, n: Inode)
      requires IsDisk(d) && NodeOk(n) && n.size <= FILE_MAX_BYTES
      ensures ContentUpTo(d, n, 0) == []
    {
    }

    static lemma NextContent(d: seq<Sector>, n: Inode, k: nat)
      requires IsDisk(d) && NodeOk(n) && k < 12 && k * SECTOR_SIZE < n.size <= FILE_MAX_BYTES
      ensures var rest := n.size - k * SECTOR_SIZE; var s: seq<Byte> := d[n.blocks[k]];
              ContentUpTo(d, n, k + 1) == ContentUpTo(d, n, k) + s[..if SECTOR_SIZE < rest then SECTOR_SIZE else rest]
    {
    }

    static lemma {:induction false} SizeReached(d: seq<Sector>, n: Inode, k: nat)
      requires IsDisk(d) && NodeOk(n) && n.size <= FILE_MAX_BYTES && k <= 12 && k * SECTOR_SIZE >= n.size
      ensures ContentUpTo(d, n, k) == ContentUpTo(d, n, 12)
      decreases 12 - k
    {
      if k < 12 { SizeReached(d, n, k + 1); }
    }

    // `remove`: a file or an empty directory of the current directory.
    method Remove(name: seq<Byte>) returns (r: Outcome)
      requires Valid()
      modifies disk
      ensures Valid() && RemovedEntry(old(disk[..]), disk[..], cwd, name, r)
    {
      hide Inodes, Marked, Owns, NodesOk, OthersKept, Pending, Storable, IsTree, HasChild;
      ghost var t := Table();
      var found := Find(name);
      assert Table() == t;
      if found.None? {
        assert forall j: nat :: !Entry(t, cwd, name, j);
        return Err(NotFound);
      }
      var idx := found.value;
      assert Entry(t, cwd, name, idx);
      forall j: nat | Entry(t, cwd, name, j) ensures j == idx { EntryUnique(t, cwd, name, j, idx); }
      var node := ReadInode(idx);
      assert node == t[idx];
      if node.isDir {
        var child := AnyChild(idx);
        assert Table() == t;
        if child { return Err(NotEmpty); }
      } else {
        FileHasNoChild(t, depth, idx);
      }
      Drop(idx, node);
      return Ok;
    }

    // The search of `remove` for an entry of the directory.
    method AnyChild(idx: nat) returns (b: bool)
      requires IsDisk(disk[..])
      ensures b <==> HasChild(Table(), idx)
    {
      for i := 0 to MAX_FILES
        invariant forall c | 0 <= c < i && Table()[c].used :: Table()[c].parent != idx
      {
        var child := ReadInode(i);
        if child.used && child.parent == idx {
          assert Table()[i] == child;
          return true;
        }
      }
      return false;
    }

    static lemma FileHasNoChild(t: seq<Inode>, depth: seq<nat>, i: nat)
      requires IsTree(t, depth) && i < MAX_FILES && !t[i].isDir
      ensures !HasChild(t, i)
    {
    }

    // The rest of `remove`: free the blocks and clear the inode.
    method Drop(idx: nat, was: Inode)
      requires Valid() && idx < MAX_FILES && was == Table()[idx] && was.used && was.parent == cwd
               && !HasChild(Table(), idx)
      modifies disk
      ensures Valid() && idx != ROOT_INODE && idx != cwd
      ensures Inodes(disk[..]) == old(Inodes(disk[..]))[idx := EmptyInode()] && OthersKept(old(disk[..]), disk[..], idx)
    {
      hide Inodes, Marked, Owns, NodesOk, OthersKept, Pending, Storable, IsTree, SiblingsUnique;
      ghost var d0, t := disk[..], Table();
      FileIsPending(t, Marked(d0), cwd, depth, idx);
      var node := ReleaseAll(idx, was);
      ghost var d1 := disk[..];
      EmptyIsStorable();
      WriteInode(idx, EmptyInode());
      RemoveDone(d0, d1, disk[..], cwd, depth, idx, node);
    }

    static ghost predicate HasChild(t: seq<Inode>, i: nat) {
      exists c :: 0 <= c < |t| && t[c].used && t[c].parent == i
    }

    static ghost predicate RemovedEntry(d0: seq<Sector>, d1: seq<Sector>, cwd: nat, name: seq<Byte>, r: Outcome)
      requires IsDisk(d0)
    {
      var t := Inodes(d0);
      && (r == Err(NotFound) <==> forall j :: !Entry(t, cwd, name, j))
      && (r == Err(NotEmpty) <==> exists j: nat :: Entry(t, cwd, name, j) && t[j].isDir && HasChild(t, j))
      && (r.Err? ==> r.error in {NotFound, NotEmpty} && d1 == d0)
      && (r.Ok? ==> exists i: nat :: (Entry(t, cwd, name, i) && i != ROOT_INODE && i != cwd && IsDisk(d1)
                                      && Inodes(d1) == t[i := EmptyInode()] && OthersKept(d0, d1, i)))
    }

    static lemma EmptyIsStorable()
      ensures Storable(EmptyInode())
    {
    }

    static lemma RemoveDone(d0: seq<Sector>, d1: seq<Sector>, d2: seq<Sector>, cwd: nat, depth: seq<nat>, i: nat,
                            n: Inode)
      requires FsOk(d0, cwd, depth) && BitmapStep(d0, d1) && i < MAX_FILES && InodeStep(d1, d2, i, EmptyInode())
      requires n == Inodes(d0)[i].(blocks := ZeroBlocks()) && Pending(Inodes(d0), i, n, Marked(d1))
      requires Inodes(d0)[i].used && Inodes(d0)[i].parent == cwd && !HasChild(Inodes(d0), i)
      ensures FsOk(d2, cwd, depth) && OthersKept(d0, d2, i) && i != cwd && i != ROOT_INODE
    {
      hide Inodes, Marked, Owns, OthersKept, SiblingsUnique;
      EmptyPending(Inodes(d0), i, n, Marked(d1));
      EntryRemoved(Inodes(d0), Marked(d2), cwd, depth, i);
      OthersKeepContent(d0, d2, i, n, Marked(d1));
    }

    static lemma EmptyPending(t: seq<Inode>, i: nat, n: Inode, marked: set<nat>)
      requires Pending(t, i, n, marked) && n.blocks == ZeroBlocks()
      ensures Owns(t[i := EmptyInode()], marked)
    {
      SwapIdle(t[i := n], marked, i, EmptyInode());
      assert t[i := n][i := EmptyInode()] == t[i := EmptyInode()];
    }

    // ---------- usage, search and path ----------

    // `used_blocks` is the number of blocks all files together need, at most 768.
    method UsedBlocks() returns (count: nat)
      requires Valid()
      ensures count == BlocksNeeded(Table(), MAX_FILES) <= SLOTS
    {
      hide Inodes, IsTree, SiblingsUnique, NodesOk, Owns, IsUsed, And, Marked, BlocksNeeded;
      ghost var d, marked := disk[..], Marked(disk[..]);
      var bm := ReadBitmap();
      count := 0;
      ghost var seen: set<nat> := {};
      for i := 0 to TOTAL_DATA_BLOCKS
        invariant bm[..] == Bitmap(d)
        invariant seen == (set k: nat | k < i && k in marked) && count == |seen|
      {
        MarkedBit(d, i);
        assert bm[i / 8] == Bitmap(d)[i / 8];
        if And(bm[i / 8], Pow2(i % 8)) != 0 {
          seen := seen + {i};
          count := count + 1;
        }
      }
      BlocksBound(Table(), marked);
      UsageIsDemand(Table(), marked);
      assert seen == marked;
    }

    static lemma MarkedBit(d: seq<Sector>, i: nat)
      requires IsDisk(d) && i < 8192
      ensures And(Bitmap(d)[i / 8], Pow2(i % 8)) != 0 <==> i in Marked(d)
    {
    }

    static function Places(hits: seq<(nat, bool)>): (s: seq<nat>)
      ensures |s| == |hits| && forall a | 0 <= a < |s| :: s[a] == hits[a].0
    {
      seq(|hits|, a requires 0 <= a < |hits| => hits[a].0)
    }

    // `find_recursive`: the callback is called exactly once for every entry below `dir` with the name,
    // depth first and in the order of the inodes.
    method FindRecursive(dir: nat, name: seq<Byte>) returns (hits: seq<(nat, bool)>)
      requires Valid() && IsDir(Table(), dir)
      ensures Lists(Places(hits), Scope(Table(), depth, dir, name, MAX_FILES)) && InOrder(Table(), depth, Places(hits))
      ensures forall a | 0 <= a < |hits| :: hits[a].0 < MAX_FILES && hits[a].1 == Table()[hits[a].0].isDir
      decreases MAX_FILES - depth[dir], 0
    {
      hide FsOk, Table, Scope, Lists, InOrder, IsTree;
      TreeThere();
      ghost var t := Table();
      hits := [];
      ScopeStarts(t, depth, dir, name);
      NothingListed(t, depth);
      assert Places(hits) == [];
      for i := 0 to MAX_FILES
        invariant Lists(Places(hits), Scope(t, depth, dir, name, i)) && InOrder(t, depth, Places(hits))
        invariant forall a | 0 <= a < |hits| :: hits[a].0 < MAX_FILES && hits[a].1 == t[hits[a].0].isDir
      {
        var n := ReadEntry(i);
        ScopeStep(t, depth, dir, name, i);
        if n.used && n.parent == dir && i != ROOT_INODE {
          GoesDeeper(t, depth, dir, i);
          var branch := Visit(i, n, name);
          BranchListed(t, depth, dir, i, name, Places(hits), Places(branch));
          assert Places(hits + branch) == Places(hits) + Places(branch);
          hits := hits + branch;
        }
      }
    }

    method ReadEntry(i: nat) returns (n: Inode)
      requires IsDisk(disk[..]) && i < MAX_FILES
      ensures n == Table()[i]
    {
      n := ReadInode(i);
    }

    // The body of the loop of `find_recursive` for a child i.
    method Visit(i: nat, n: Inode, name: seq<Byte>) returns (hits: seq<(nat, bool)>)
      requires Valid() && i < MAX_FILES && n == Table()[i] && n.used && i !in Scope(Table(), depth, i, name, MAX_FILES)
      requires depth[i] < MAX_FILES
      ensures Lists(Places(hits), Branch(Table(), depth, i, name)) && InOrder(Table(), depth, Places(hits))
      ensures forall a | 0 <= a < |hits| :: hits[a].0 < MAX_FILES && hits[a].1 == Table()[hits[a].0].isDir
      decreases MAX_FILES - depth[i], 1
    {
      hide FsOk, Table, Scope, Branch, Lists, InOrder, IsTree;
      TreeThere();
      ghost var t := Table();
      hits := if n.name == name then [(i, n.isDir)] else [];
      assert Places(hits) == if n.name == name then [i] else [];
      var sub: seq<(nat, bool)> := [];
      assert Places(sub) == [];
      NothingListed(t, depth);
      if n.isDir { sub := FindRecursive(i, name); }
      BranchComplete(t, depth, i, name, Places(sub));
      assert Places(hits + sub) == Places(hits) + Places(sub);
      hits := hits + sub;
    }

    static lemma BranchListed(t: seq<Inode>, depth: seq<nat>, dir: nat, i: nat, name: seq<Byte>, s: seq<nat>,
                              s': seq<nat>)
      requires IsTree(t, depth) && ChildOf(t, dir, i) && i < MAX_FILES
      requires Lists(s, Scope(t, depth, dir, name, i)) && InOrder(t, depth, s)
      requires Lists(s', Branch(t, depth, i, name)) && InOrder(t, depth, s')
      ensures Lists(s + s', Scope(t, depth, dir, name, i + 1)) && InOrder(t, depth, s + s')
    {
      hide Scope, Branch, InOrder, Precedes, IsTree;
      ScopeStep(t, depth, dir, name, i);
      ListsJoin(s, Scope(t, depth, dir, name, i), s', Branch(t, depth, i, name));
      forall x, y | x in s && y in s' ensures Precedes(t, depth, x, y) {
        BranchesInOrder(t, depth, dir, i, name, x, y);
      }
      OrderJoin(t, depth, s, s');
    }

    static lemma BranchComplete(t: seq<Inode>, depth: seq<nat>, i: nat, name: seq<Byte>, sub: seq<nat>)
      requires IsTree(t, depth) && i < MAX_FILES && |t| == MAX_FILES && i !in Scope(t, depth, i, name, MAX_FILES)
               && InOrder(t, depth, sub)
      requires Lists(sub, if t[i].isDir then Scope(t, depth, i, name, MAX_FILES) else {})
      ensures var s := (if t[i].name == name then [i] else []) + sub;
              Lists(s, Branch(t, depth, i, name)) && InOrder(t, depth, s)
    {
      hide Scope, Precedes, IsTree;
      var self := if t[i].name == name then [i] else [];
      ListsJoin(self, if t[i].name == name then {i} else {},
                sub, if t[i].isDir then Scope(t, depth, i, name, MAX_FILES) else {});
      forall x, y | x in self && y in sub ensures Precedes(t, depth, x, y) { SelfFirst(t, depth, i, name, y); }
      OrderJoin(t, depth, self, sub);
    }

    static lemma NothingListed(t: seq<Inode>, depth: seq<nat>)
      requires IsTree(t, depth)
      ensures Lists([], {}) && InOrder(t, depth, [])
    {
    }

    static lemma GoesDeeper(t: seq<Inode>, depth: seq<nat>, dir: nat, i: nat)
      requires IsTree(t, depth) && ChildOf(t, dir, i)
      ensures dir < |depth| && i < |depth| && depth[i] == depth[dir] + 1 && depth[i] < MAX_FILES
    {
      DepthBound(t, depth, i);
    }

    // The climb of `pwd_into`: at most 16 directories from the current one towards the root.
    method Climb() returns (chain: seq<nat>, top: nat)
      requires Valid()
      ensures Climbs(Table(), depth, cwd, chain) && |chain| <= 16
      ensures top < MAX_FILES && Table()[top].used && top == Top(Table(), cwd, chain)
      ensures |chain| == Least(16, depth[cwd])
    {
      hide Inodes, Marked, Owns, NodesOk, SiblingsUnique;
      ghost var t := Table();
      chain, top := [], cwd;
      NotYetClimbed(t, depth, cwd);
      while top != ROOT_INODE && |chain| < 16
        invariant Climbs(t, depth, cwd, chain) && |chain| <= 16 && Table() == t
        invariant top < MAX_FILES && t[top].used && top == Top(t, cwd, chain)
        invariant depth[top] + |chain| == depth[cwd] && (top == ROOT_INODE <==> depth[top] == 0)
        decreases 16 - |chain|
      {
        ClimbOn(t, depth, cwd, chain);
        chain := chain + [top];
        ClimbOn(t, depth, cwd, chain);
        var n := ReadInode(top);
        assert n == t[top];
        top := n.parent;
      }
    }

    static lemma NotYetClimbed(t: seq<Inode>, depth: seq<nat>, i: nat)
      requires IsTree(t, depth) && IsDir(t, i)
      ensures Climbs(t, depth, i, []) && (i == ROOT_INODE <==> depth[i] == 0)
    {
    }

    // One component written: a slash, which panics past the end, then as much of the name as fits.
    method PutComponent(buf: array<Byte>, pos: nat, name: seq<Byte>, ghost s: seq<Byte>) returns (r: Option<nat>)
      requires buf.Length == 256 && pos == Least(|s|, 256) && buf[..pos] == s[..pos]
      modifies buf
      ensures r.None? <==> |s| >= 256
      ensures r.Some? ==> var s' := s + [SLASH] + name; r.value == Least(|s'|, 256) && buf[..r.value] == s'[..r.value]
    {
      if pos == 256 { return None; }
      ghost var s' := s + [SLASH] + name;
      buf[pos] := SLASH;
      var p := pos + 1;
      for i := 0 to |name|
        invariant p == Least(|s| + 1 + i, 256) && buf[..p] == s'[..p]
      {
        if p < 256 {
          buf[p] := name[i];
          p := p + 1;
        }
      }
      return Some(p);
    }

    method PutNameOf(buf: array<Byte>, pos: nat, i: nat, ghost s: seq<Byte>) returns (r: Option<nat>)
      requires IsDisk(disk[..]) && i < MAX_FILES
      requires buf.Length == 256 && pos == Least(|s|, 256) && buf[..pos] == s[..pos]
      modifies buf
      ensures r.None? <==> |s| >= 256
      ensures r.Some? ==> var s' := s + [SLASH] + Table()[i].name;
                          r.value == Least(|s'|, 256) && buf[..r.value] == s'[..r.value]
    {
      hide Inodes, InodeAt;
      var n := ReadInode(i);
      assert n == Table()[i];
      r := PutComponent(buf, pos, n.name, s);
    }

    static function Least(a: nat, b: nat): nat { if a < b then a else b }

    // What `pwd_into` leaves in its buffer: the first 256 bytes of the last 16 components of the path.
    // None is the panic of writing past the end, when a component is still to come after 256 bytes.
    static ghost predicate PathShown(t: seq<Inode>, depth: seq<nat>, cwd: nat, r: Option<nat>, buf: seq<Byte>)
      requires IsTree(t, depth) && IsDir(t, cwd)
    {
      if cwd == ROOT_INODE then r == Some(1) && |buf| >= 1 && buf[..1] == [SLASH]
      else
        var s := LastPart(t, depth, cwd, 16);
        && (r.None? <==> |LastPart(t, depth, t[cwd].parent, 15)| >= 256)
        && (r.Some? ==> r.value == Least(|s|, 256) <= |buf| && buf[..r.value] == s[..r.value])
    }

    // `pwd_into`.  The answer is the full path exactly when that has at most 16 components and fits 256
    // bytes.
    method PwdInto(buf: array<Byte>) returns (r: Option<nat>)
      requires Valid() && buf.Length == 256
      modifies buf
      ensures PathShown(Table(), depth, cwd, r, buf[..])
      ensures r.Some? && buf[..r.value] == FullPath(Table(), depth, cwd)
              <==> depth[cwd] <= 16 && |FullPath(Table(), depth, cwd)| <= 256
    {
      hide Inodes, Marked, Owns, NodesOk, SiblingsUnique, LastPart, PathOf;
      ghost var t := Table();
      if cwd == ROOT_INODE {
        buf[0] := SLASH;
        assert buf[..1] == [SLASH];
        NotYetClimbed(t, depth, cwd);
        return Some(1);
      }
      var chain, top := Climb();
      assert Table() == t;
      r := WriteDown(buf, chain, top);
      assert Table() == t;
      WholeClimb(t, depth, cwd, chain);
      ShownIsFullPath(t, depth, cwd, r, buf[..]);
    }

    static lemma ShownIsFullPath(t: seq<Inode>, depth: seq<nat>, cwd: nat, r: Option<nat>, buf: seq<Byte>)
      requires IsTree(t, depth) && IsDir(t, cwd) && cwd != ROOT_INODE && PathShown(t, depth, cwd, r, buf)
      ensures (r.Some? && r.value <= |buf| && buf[..r.value] == FullPath(t, depth, cwd))
              <==> depth[cwd] <= 16 && |FullPath(t, depth, cwd)| <= 256
    {
      hide LastPart, PathOf;
      PartStep(t, depth, cwd, 15);
      PartOfPath(t, depth, cwd, 16);
      if depth[cwd] <= 16 { WholePath(t, depth, cwd, 16); }
    }

    // Ten directories with the longest names, one inside the other, make a path that is cut, eleven a
    // panic.
    static lemma DeepPaths()
      ensures TableOk(Nested(10), {}, 10, NestedDepths(10)) && TableOk(Nested(11), {}, 11, NestedDepths(11))
      ensures forall r, buf | |buf| == 256 && PathShown(Nested(10), NestedDepths(10), 10, r, buf) ::
                r == Some(256) && |FullPath(Nested(10), NestedDepths(10), 10)| == 270
      ensures forall r, buf | PathShown(Nested(11), NestedDepths(11), 11, r, buf) :: r.None?
    {
      hide TableOk, LastPart, PathOf, IsTree;
      NestedIsOk(10);
      NestedIsOk(11);
      NestedPart(10, 9, 15);
      NestedPart(10, 10, 16);
      NestedPart(11, 10, 15);
    }

    static lemma NestedIsOk(n: nat)
      requires n < MAX_FILES
      ensures TableOk(Nested(n), {}, n, NestedDepths(n))
      ensures IsTree(Nested(n), NestedDepths(n)) && IsDir(Nested(n), n)
    {
      hide NodesOk, Owns, IsTree, SiblingsUnique;
      NestedOk(n);
    }

    static lemma WholeClimb(t: seq<Inode>, depth: seq<nat>, i: nat, chain: seq<nat>)
      requires IsTree(t, depth) && Climbs(t, depth, i, chain) && |chain| == Least(16, depth[i]) && 0 < i
      ensures 0 < |chain| && t[i].parent < MAX_FILES && t[t[i].parent].used
      ensures LastPart(t, depth, i, 16) == LastPart(t, depth, i, |chain|)
      ensures LastPart(t, depth, t[i].parent, 15) == LastPart(t, depth, t[i].parent, |chain| - 1)
    {
      hide LastPart, PathOf;
      if depth[i] <= 16 {
        WholePath(t, depth, i, 16);
        WholePath(t, depth, i, |chain|);
        WholePath(t, depth, t[i].parent, 15);
        WholePath(t, depth, t[i].parent, |chain| - 1);
      }
    }

    // The output loop of `pwd_into`, from the root end of the chain down.
    method WriteDown(buf: array<Byte>, chain: seq<nat>, top: nat) returns (r: Option<nat>)
      requires Valid() && buf.Length == 256 && Climbs(Table(), depth, cwd, chain) && top == Top(Table(), cwd, chain)
      requires top < MAX_FILES && Table()[top].used && |chain| > 0 && cwd != ROOT_INODE
      modifies buf
      ensures Table()[cwd].parent < MAX_FILES && Table()[Table()[cwd].parent].used
      ensures r.None? <==> |LastPart(Table(), depth, Table()[cwd].parent, |chain| - 1)| >= 256
      ensures r.Some? ==> var s := LastPart(Table(), depth, cwd, |chain|);
                          r.value == Least(|s|, 256) && buf[..r.value] == s[..r.value]
    {
      hide FsOk, IsDisk, Table, LastPart, IsTree, Climbs, Top;
      TreeThere();
      ghost var t := Table();
      var pos := 0;
      ghost var at: nat := top;
      PartNone(t, depth, top);
      FirstOfChain(t, depth, cwd, chain);
      ghost var s: seq<Byte> := [];
      for d := |chain| downto 0
        invariant Table() == t && at < MAX_FILES && t[at].used && at == (if d == |chain| then top else chain[d])
        invariant s == LastPart(t, depth, at, |chain| - d)
        invariant d == 0 ==> |LastPart(t, depth, t[cwd].parent, |chain| - 1)| < 256
        invariant pos == Least(|s|, 256) && buf[..pos] == s[..pos]
      {
        ComponentOf(t, depth, cwd, chain, d, top);
        var p := PutNameOf(buf, pos, chain[d], s);
        if p.None? { return None; }
        pos, s, at := p.value, s + [SLASH] + t[chain[d]].name, chain[d];
      }
      return Some(pos);
    }

    lemma TreeThere()
      requires Valid()
      ensures IsDisk(disk[..]) && IsTree(Table(), depth)
    {
      hide Inodes, Marked, Owns, NodesOk, SiblingsUnique, IsTree;
    }

    static lemma ComponentOf(t: seq<Inode>, depth: seq<nat>, i: nat, chain: seq<nat>, d: nat, top: nat)
      requires IsTree(t, depth) && Climbs(t, depth, i, chain) && d < |chain| && top == Top(t, i, chain)
      ensures var c := chain[d]; var p := if d + 1 == |chain| then top else chain[d + 1];
              && c < MAX_FILES && t[c].used && p < MAX_FILES && t[p].used
              && LastPart(t, depth, c, |chain| - d) == LastPart(t, depth, p, |chain| - d - 1) + [SLASH] + t[c].name
              && t[i].parent < MAX_FILES && t[t[i].parent].used
              && |LastPart(t, depth, p, |chain| - d - 1)| <= |LastPart(t, depth, t[i].parent, |chain| - 1)|
              && (d == 0 ==> p == t[i].parent)
    {
      hide LastPart;
      PartStep(t, depth, chain[d], |chain| - d - 1);
      FirstOfChain(t, depth, i, chain);
      if d + 1 < |chain| {
        PartsGrow(t, depth, i, chain, d + 1);
      } else {
        PartNone(t, depth, top);
      }
    }

    static lemma FirstOfChain(t: seq<Inode>, depth: seq<nat>, i: nat, chain: seq<nat>)
      requires IsTree(t, depth) && Climbs(t, depth, i, chain) && chain != []
      ensures i == chain[0] && t[i].parent < MAX_FILES && t[t[i].parent].used
    {
    }
  }

  // ---------- across operations ----------

  // After a successful `write` a `read` of the same name in the same directory gives the data back.
  lemma WriteThenRead(d0: seq<Sector>, d1: seq<Sector>, cwd: nat, depth: seq<nat>, name: seq<Byte>, data: seq<Byte>,
                      bytes: seq<Byte>, r: Outcome)
    requires FsOk(d0, cwd, depth) && FsOk(d1, cwd, depth)
    requires FileSystem.Written(d0, d1, cwd, name, data, Ok) && FileSystem.ReadFile(d1, cwd, name, bytes, r)
    ensures r == Ok && bytes == data
  {
    hide Inodes, Marked, Owns, IsTree, NodesOk, Content, NodeOk;
    var i: nat :| Entry(Inodes(d0), cwd, name, i) && FileSystem.FileHolds(d0, d1, i, data) && OthersKept(d0, d1, i);
    var t := Inodes(d1);
    assert Entry(t, cwd, name, i);
    forall j: nat | Entry(t, cwd, name, j) ensures j == i { EntryUnique(t, cwd, name, j, i); }
    assert !t[i].isDir by { FileSystem.FileKind(d0, cwd, depth, name, data, i); }
  }
}
