// What every reachable filesystem satisfies: which file holds which block, the
// directory tree, and the content of a file.
module FsInvariant {
  import opened Bits
  import opened Bitmaps
  import opened FsLayout

  const SLOTS: nat := 768  // MAX_FILES * DIRECT_BLOCKS

  // ---------- single inodes ----------

  ghost predicate NodeOk(n: Inode) {
    && |n.blocks| == 12
    && (!n.used ==> n == EmptyInode())
    && (n.used ==>
          && 0 < |n.name| <= NAME_MAX && 0 !in n.name && n.parent < MAX_FILES && n.size <= FILE_MAX_BYTES
          && (n.isDir ==> n.size == 0)
          && forall j | 0 <= j < 12 :: n.blocks[j] != 0 <==> j * SECTOR_SIZE < n.size)
    && forall j | 0 <= j < 12 :: n.blocks[j] == 0 || DATA_START <= n.blocks[j] < DISK_SECTORS
  }

  lemma NodeIsStorable(n: Inode)
    requires NodeOk(n)
    ensures Storable(n)
  {
  }

  // ---------- block ownership ----------

  ghost predicate Shaped(t: seq<Inode>) {
    |t| == MAX_FILES && forall i | 0 <= i < MAX_FILES :: |t[i].blocks| == 12
  }

  // The block in slot s: slot 12 * i + j is entry j of inode i.
  ghost function SlotBlock(t: seq<Inode>, s: nat): nat
    requires Shaped(t) && s < SLOTS
  {
    t[s / 12].blocks[s % 12]
  }

  ghost function BlocksOf(t: seq<Inode>, n: nat): set<nat>
    requires Shaped(t) && n <= SLOTS
  {
    if n == 0 then {}
    else
      var k := SlotBlock(t, n - 1);
      BlocksOf(t, n - 1) + if k >= DATA_START then {k - DATA_START} else {}
  }

  ghost predicate InSlots(t: seq<Inode>, n: nat, b: nat)
    requires Shaped(t) && n <= SLOTS
  {
    exists s :: 0 <= s < n && SlotBlock(t, s) == b + DATA_START
  }

  lemma InOneMoreSlot(t: seq<Inode>, n: nat, b: nat)
    requires Shaped(t) && 0 < n <= SLOTS
    ensures InSlots(t, n, b) <==> InSlots(t, n - 1, b) || SlotBlock(t, n - 1) == b + DATA_START
  {
    hide SlotBlock, Shaped;
  }

  lemma {:induction false} InBlocks(t: seq<Inode>, n: nat, b: nat)
    requires Shaped(t) && n <= SLOTS
    ensures b in BlocksOf(t, n) <==> InSlots(t, n, b)
  {
    hide SlotBlock, InSlots, BlocksOf, Shaped;
    if n == 0 {
      NoSlot(t, b);
    } else {
      InBlocks(t, n - 1, b);
      BlocksStep(t, n - 1);
      InOneMoreSlot(t, n, b);
    }
  }

  lemma NoSlot(t: seq<Inode>, b: nat)
    requires Shaped(t)
    ensures b !in BlocksOf(t, 0) && !InSlots(t, 0, b)
  {
  }

  lemma BlocksStep(t: seq<Inode>, s: nat)
    requires Shaped(t) && s < SLOTS
    ensures var k := SlotBlock(t, s);
            BlocksOf(t, s + 1) == BlocksOf(t, s) + if k >= DATA_START then {k - DATA_START} else {}
  {
    hide SlotBlock, Shaped;
  }

  lemma {:induction false} BlocksAtMost(t: seq<Inode>, n: nat)
    requires Shaped(t) && n <= SLOTS
    ensures |BlocksOf(t, n)| <= n
  {
    hide SlotBlock, BlocksOf, Shaped;
    if n == 0 {
      assert BlocksOf(t, 0) == {} by { forall b: nat ensures b !in BlocksOf(t, 0) { NoSlot(t, b); } }
    } else {
      BlocksAtMost(t, n - 1);
      BlocksStep(t, n - 1);
    }
  }

  ghost predicate SlotsInRange(t: seq<Inode>)
    requires Shaped(t)
  {
    forall s: nat | s < SLOTS :: SlotBlock(t, s) == 0 || DATA_START <= SlotBlock(t, s) < DISK_SECTORS
  }

  ghost predicate SlotsDistinct(t: seq<Inode>)
    requires Shaped(t)
  {
    forall s: nat, s': nat | s < SLOTS && s' < SLOTS && SlotBlock(t, s) != 0 && SlotBlock(t, s) == SlotBlock(t, s') ::
      s == s'
  }

  // The marked blocks are exactly the blocks in the slots, and no block is in two slots.
  ghost predicate Owns(t: seq<Inode>, marked: set<nat>) {
    Shaped(t) && SlotsInRange(t) && SlotsDistinct(t) && marked == BlocksOf(t, SLOTS)
  }

  function SetBlock(n: Inode, j: nat, blk: nat): Inode
    requires j < |n.blocks|
  {
    n.(blocks := n.blocks[j := blk])
  }

  lemma SetSlot(t: seq<Inode>, i: nat, j: nat, blk: nat, s: nat)
    requires Shaped(t) && i < MAX_FILES && j < 12 && s < SLOTS
    ensures Shaped(t[i := SetBlock(t[i], j, blk)])
    ensures SlotBlock(t[i := SetBlock(t[i], j, blk)], s) == if s == 12 * i + j then blk else SlotBlock(t, s)
  {
    assert s == 12 * (s / 12) + s % 12;
  }

  // Releasing a held block.
  lemma ReleaseBlock(t: seq<Inode>, marked: set<nat>, i: nat, j: nat)
    requires Owns(t, marked) && i < MAX_FILES && j < 12 && t[i].blocks[j] != 0
    ensures t[i].blocks[j] >= DATA_START
    ensures Owns(t[i := SetBlock(t[i], j, 0)], marked - {t[i].blocks[j] - DATA_START})
  {
    hide BlocksOf;
    var x, t' := 12 * i + j, t[i := SetBlock(t[i], j, 0)];
    assert SlotBlock(t, x) == t[i].blocks[j];
    forall s: nat | s < SLOTS ensures SlotBlock(t', s) == if s == x then 0 else SlotBlock(t, s) {
      SetSlot(t, i, j, 0, s);
    }
    SetSlot(t, i, j, 0, 0);
    var c := t[i].blocks[j] - DATA_START;
    SlotsChanged(t, t', x, marked, marked - {c});
  }

  // Taking a block nobody holds.
  lemma TakeBlock(t: seq<Inode>, marked: set<nat>, i: nat, j: nat, blk: nat)
    requires Owns(t, marked) && i < MAX_FILES && j < 12 && t[i].blocks[j] == 0
    requires DATA_START <= blk < DISK_SECTORS && blk - DATA_START !in marked
    ensures Owns(t[i := SetBlock(t[i], j, blk)], marked + {blk - DATA_START})
  {
    hide BlocksOf;
    var x, t' := 12 * i + j, t[i := SetBlock(t[i], j, blk)];
    assert SlotBlock(t, x) == t[i].blocks[j];
    forall s: nat | s < SLOTS ensures SlotBlock(t', s) == if s == x then blk else SlotBlock(t, s) {
      SetSlot(t, i, j, blk, s);
    }
    SetSlot(t, i, j, blk, 0);
    hide SlotBlock;
    forall s: nat | s < SLOTS ensures SlotBlock(t, s) != blk {
      if SlotBlock(t, s) == blk { InBlocks(t, SLOTS, blk - DATA_START); }
    }
    SlotsChanged(t, t', x, marked, marked + {blk - DATA_START});
  }

  lemma SlotsChanged(t: seq<Inode>, t': seq<Inode>, x: nat, marked: set<nat>, marked': set<nat>)
    requires Owns(t, marked) && Shaped(t') && x < SLOTS
    requires forall s: nat | s < SLOTS && s != x :: SlotBlock(t', s) == SlotBlock(t, s)
    requires SlotBlock(t', x) == 0 || DATA_START <= SlotBlock(t', x) < DISK_SECTORS
    requires SlotBlock(t', x) != 0 ==> forall s: nat | s < SLOTS && s != x :: SlotBlock(t, s) != SlotBlock(t', x)
    requires marked' == marked
             - (if SlotBlock(t, x) != 0 then {SlotBlock(t, x) - DATA_START} else {})
             + (if SlotBlock(t', x) != 0 then {SlotBlock(t', x) - DATA_START} else {})
    ensures Owns(t', marked')
  {
    hide SlotBlock, BlocksOf, SlotsDistinct, SlotsInRange;
    SlotsStayDistinct(t, t', x);
    SlotsStayInRange(t, t', x);
    InRangeAt(t, x);
    AllMarkedChanged(t, t', x);
    OneSwapped(marked, BlocksOf(t', SLOTS), SlotBlock(t, x), SlotBlock(t', x));
  }

  lemma AllMarkedChanged(t: seq<Inode>, t': seq<Inode>, x: nat)
    requires Shaped(t) && Shaped(t') && x < SLOTS && SlotsDistinct(t)
    requires forall s: nat | s < SLOTS && s != x :: SlotBlock(t', s) == SlotBlock(t, s)
    ensures forall b: nat :: b in BlocksOf(t', SLOTS) <==>
              SlotBlock(t', x) == b + DATA_START || (b in BlocksOf(t, SLOTS) && SlotBlock(t, x) != b + DATA_START)
  {
    forall b: nat
      ensures b in BlocksOf(t', SLOTS) <==>
              SlotBlock(t', x) == b + DATA_START || (b in BlocksOf(t, SLOTS) && SlotBlock(t, x) != b + DATA_START)
    {
      MarkedChanged(t, t', x, b);
    }
  }

  lemma OneSwapped(s: set<nat>, s': set<nat>, a: nat, c: nat)
    requires forall b: nat :: b in s' <==> c == b + DATA_START || (b in s && a != b + DATA_START)
    requires (a == 0 || a >= DATA_START) && (c == 0 || c >= DATA_START)
    ensures s' == s - (if a != 0 then {a - DATA_START} else {}) + (if c != 0 then {c - DATA_START} else {})
  {
  }

  lemma InRangeAt(t: seq<Inode>, s: nat)
    requires Shaped(t) && SlotsInRange(t) && s < SLOTS
    ensures SlotBlock(t, s) == 0 || DATA_START <= SlotBlock(t, s) < DISK_SECTORS
  {
  }

  lemma SlotsStayInRange(t: seq<Inode>, t': seq<Inode>, x: nat)
    requires Shaped(t) && Shaped(t') && x < SLOTS && SlotsInRange(t)
    requires forall s: nat | s < SLOTS && s != x :: SlotBlock(t', s) == SlotBlock(t, s)
    requires SlotBlock(t', x) == 0 || DATA_START <= SlotBlock(t', x) < DISK_SECTORS
    ensures SlotsInRange(t')
  {
    hide SlotBlock;
  }

  lemma MarkedChanged(t: seq<Inode>, t': seq<Inode>, x: nat, b: nat)
    requires Shaped(t) && Shaped(t') && x < SLOTS
    requires forall s: nat | s < SLOTS && s != x :: SlotBlock(t', s) == SlotBlock(t, s)
    requires SlotsDistinct(t)
    ensures b in BlocksOf(t', SLOTS) <==>
            SlotBlock(t', x) == b + DATA_START || (b in BlocksOf(t, SLOTS) && SlotBlock(t, x) != b + DATA_START)
  {
    HeldIs(t, b);
    HeldIs(t', b);
    hide SlotBlock, BlocksOf, Held;
    HeldChanged(t, t', x, b);
  }

  lemma HeldIs(t: seq<Inode>, b: nat)
    requires Shaped(t)
    ensures Held(t, b) <==> b in BlocksOf(t, SLOTS)
  {
    InBlocks(t, SLOTS, b);
    hide SlotBlock, BlocksOf;
  }

  lemma SlotsStayDistinct(t: seq<Inode>, t': seq<Inode>, x: nat)
    requires Shaped(t) && Shaped(t') && x < SLOTS
    requires SlotsDistinct(t)
    requires forall s: nat | s < SLOTS && s != x :: SlotBlock(t', s) == SlotBlock(t, s)
    requires SlotBlock(t', x) != 0 ==> forall s: nat | s < SLOTS && s != x :: SlotBlock(t, s) != SlotBlock(t', x)
    ensures SlotsDistinct(t')
  {
    hide SlotBlock;
    forall s: nat, s': nat | s < SLOTS && s' < SLOTS && SlotBlock(t', s) != 0 && SlotBlock(t', s) == SlotBlock(t', s')
      ensures s == s'
    {
      if s != x { assert SlotBlock(t', s) == SlotBlock(t, s); }
      if s' != x { assert SlotBlock(t', s') == SlotBlock(t, s'); }
    }
  }

  ghost predicate Held(t: seq<Inode>, b: nat)
    requires Shaped(t)
  {
    exists s :: 0 <= s < SLOTS && SlotBlock(t, s) == b + DATA_START
  }

  lemma HeldChanged(t: seq<Inode>, t': seq<Inode>, x: nat, b: nat)
    requires Shaped(t) && Shaped(t') && x < SLOTS
    requires forall s: nat | s < SLOTS && s != x :: SlotBlock(t', s) == SlotBlock(t, s)
    requires forall s: nat | s < SLOTS && s != x && SlotBlock(t, x) != 0 :: SlotBlock(t, s) != SlotBlock(t, x)
    ensures Held(t', b) <==> SlotBlock(t', x) == b + DATA_START || (Held(t, b) && SlotBlock(t, x) != b + DATA_START)
  {
    hide SlotBlock;
    if SlotBlock(t', x) == b + DATA_START { assert Held(t', b); }
    if Held(t, b) && SlotBlock(t, x) != b + DATA_START {
      var s :| 0 <= s < SLOTS && SlotBlock(t, s) == b + DATA_START;
      assert SlotBlock(t', s) == b + DATA_START;
    }
    if Held(t', b) && SlotBlock(t', x) != b + DATA_START {
      var s :| 0 <= s < SLOTS && SlotBlock(t', s) == b + DATA_START;
      assert SlotBlock(t, s) == b + DATA_START;
    }
  }

  // At most 768 of the 2000 blocks are ever marked.
  lemma BlocksBound(t: seq<Inode>, marked: set<nat>)
    requires Owns(t, marked)
    ensures |marked| <= SLOTS && marked <= Range(0, TOTAL_DATA_BLOCKS)
  {
    hide SlotBlock, BlocksOf;
    BlocksAtMost(t, SLOTS);
    forall b | b in marked ensures b in Range(0, TOTAL_DATA_BLOCKS) {
      InBlocks(t, SLOTS, b);
    }
  }

  // So some block is always free: the search in `alloc_block` cannot fail.
  lemma RoomForBlock(t: seq<Inode>, marked: set<nat>)
    requires Owns(t, marked)
    ensures !(Range(0, TOTAL_DATA_BLOCKS) <= marked)
  {
    BlocksBound(t, marked);
    if Range(0, TOTAL_DATA_BLOCKS) <= marked {
      assert marked == Range(0, TOTAL_DATA_BLOCKS);
      RangeSize(0, TOTAL_DATA_BLOCKS);
    }
  }

  // Replacing an inode by one with the same block entries.
  lemma SwapIdle(t: seq<Inode>, marked: set<nat>, i: nat, n: Inode)
    requires Owns(t, marked) && i < MAX_FILES && n.blocks == t[i].blocks
    ensures Owns(t[i := n], marked)
  {
    var t' := t[i := n];
    forall s: nat | s < SLOTS ensures SlotBlock(t', s) == SlotBlock(t, s) {
    }
    SameSlots(t, t', SLOTS);
  }

  lemma SameSlots(t: seq<Inode>, t': seq<Inode>, n: nat)
    requires Shaped(t) && Shaped(t') && n <= SLOTS
    requires forall s: nat | s < SLOTS :: SlotBlock(t', s) == SlotBlock(t, s)
    ensures BlocksOf(t', n) == BlocksOf(t, n)
  {
    hide SlotBlock, BlocksOf, Shaped;
    forall b: nat ensures b in BlocksOf(t', n) <==> b in BlocksOf(t, n) {
      InBlocks(t, n, b);
      InBlocks(t', n, b);
    }
  }

  // ---------- the directory tree ----------

  ghost predicate IsDir(t: seq<Inode>, i: nat) {
    i < |t| && t[i].used && t[i].isDir
  }

  // Every used inode hangs below the root: its parent is a used directory one level up.
  ghost predicate IsTree(t: seq<Inode>, depth: seq<nat>) {
    && |t| == MAX_FILES && |depth| == MAX_FILES
    && IsDir(t, ROOT_INODE) && t[ROOT_INODE].parent == ROOT_INODE && depth[ROOT_INODE] == 0
    && forall i | 0 < i < MAX_FILES && t[i].used ::
         IsDir(t, t[i].parent) && depth[i] == depth[t[i].parent] + 1
  }

  ghost predicate SiblingsUnique(t: seq<Inode>) {
    forall i, j | 0 <= i < j < |t| && t[i].used && t[j].used && t[i].parent == t[j].parent :: t[i].name != t[j].name
  }

  // Inode i and everything above it.
  ghost function Ancestors(t: seq<Inode>, depth: seq<nat>, i: nat): set<nat>
    requires IsTree(t, depth) && i < MAX_FILES && t[i].used
    decreases depth[i]
  {
    if i == ROOT_INODE then {i} else Ancestors(t, depth, t[i].parent) + {i}
  }

  lemma {:induction false} AncestorsCount(t: seq<Inode>, depth: seq<nat>, i: nat)
    requires IsTree(t, depth) && i < MAX_FILES && t[i].used
    ensures |Ancestors(t, depth, i)| == depth[i] + 1
    ensures Ancestors(t, depth, i) <= Range(0, MAX_FILES)
    ensures forall a | a in Ancestors(t, depth, i) :: t[a].used && depth[a] <= depth[i]
    decreases depth[i]
  {
    if i != ROOT_INODE { AncestorsCount(t, depth, t[i].parent); }
  }

  // No path is longer than the inode table.
  lemma DepthBound(t: seq<Inode>, depth: seq<nat>, i: nat)
    requires IsTree(t, depth) && i < MAX_FILES && t[i].used
    ensures depth[i] < MAX_FILES
  {
    AncestorsCount(t, depth, i);
    var a := Ancestors(t, depth, i);
    RangeSize(0, MAX_FILES);
    assert Range(0, MAX_FILES) == a + (Range(0, MAX_FILES) - a);
  }

  ghost predicate NodesOk(t: seq<Inode>) {
    |t| == MAX_FILES && forall i | 0 <= i < MAX_FILES :: NodeOk(t[i])
  }

  ghost predicate TableOk(t: seq<Inode>, marked: set<nat>, cwd: nat, depth: seq<nat>) {
    NodesOk(t) && Owns(t, marked) && IsTree(t, depth) && SiblingsUnique(t) && IsDir(t, cwd)
  }

  ghost predicate FsOk(d: seq<Sector>, cwd: nat, depth: seq<nat>) {
    IsDisk(d) && FromLe(d[0][..4]) == MAGIC && TableOk(Inodes(d), Marked(d), cwd, depth)
  }

  // ---------- the content of a file ----------

  ghost function ContentUpTo(d: seq<Sector>, n: Inode, k: nat): (c: seq<Byte>)
    requires k <= |n.blocks| && forall j | 0 <= j < |n.blocks| :: n.blocks[j] < |d|
    requires n.size <= |n.blocks| * SECTOR_SIZE
    ensures |c| == if k * SECTOR_SIZE < n.size then k * SECTOR_SIZE else n.size
  {
    if k == 0 then []
    else if (k - 1) * SECTOR_SIZE >= n.size then ContentUpTo(d, n, k - 1)
    else
      var rest := n.size - (k - 1) * SECTOR_SIZE;
      var s: seq<Byte> := d[n.blocks[k - 1]];
      ContentUpTo(d, n, k - 1) + s[..if rest < SECTOR_SIZE then rest else SECTOR_SIZE]
  }

  ghost function Content(d: seq<Sector>, n: Inode): (c: seq<Byte>)
    requires NodeOk(n) && IsDisk(d) && n.size <= FILE_MAX_BYTES
    ensures |c| == n.size
  {
    ContentUpTo(d, n, 12)
  }

  lemma {:induction false} ContentFrame(d: seq<Sector>, d': seq<Sector>, n: Inode, k: nat)
    requires k <= |n.blocks| && |d| == |d'| && forall j | 0 <= j < |n.blocks| :: n.blocks[j] < |d|
    requires n.size <= |n.blocks| * SECTOR_SIZE
    requires forall j | 0 <= j < k && j * SECTOR_SIZE < n.size :: d'[n.blocks[j]] == d[n.blocks[j]]
    ensures ContentUpTo(d', n, k) == ContentUpTo(d, n, k)
  {
    if k > 0 { ContentFrame(d, d', n, k - 1); }
  }

  // ---------- what the operations do ----------

  ghost predicate Entry(t: seq<Inode>, dir: nat, name: seq<Byte>, i: nat) {
    i < |t| && t[i].used && t[i].parent == dir && t[i].name == name
  }

  // A name names at most one entry of a directory.
  lemma EntryUnique(t: seq<Inode>, dir: nat, name: seq<Byte>, i: nat, j: nat)
    requires SiblingsUnique(t) && Entry(t, dir, name, i) && Entry(t, dir, name, j)
    ensures i == j
  {
  }

  // Only inode i changed, to n; the bitmap is unchanged.
  ghost predicate InodeStep(d0: seq<Sector>, d1: seq<Sector>, i: nat, n: Inode) {
    && IsDisk(d0) && |d1| == |d0| && i < MAX_FILES
    && Inodes(d1) == Inodes(d0)[i := n] && Marked(d1) == Marked(d0)
    && d1[0] == d0[0] && forall s | DATA_START <= s < |d0| :: d1[s] == d0[s]
  }

  function NewNode(isDir: bool, parent: nat, name: seq<Byte>): Inode {
    Inode(true, isDir, parent, name, 0, ZeroBlocks())
  }

  lemma EntryAdded(t: seq<Inode>, marked: set<nat>, cwd: nat, depth: seq<nat>, i: nat, isDir: bool, name: seq<Byte>)
    requires TableOk(t, marked, cwd, depth) && i < MAX_FILES && !t[i].used
    requires 0 < |name| <= NAME_MAX && 0 !in name && forall j :: !Entry(t, cwd, name, j)
    ensures |depth| == MAX_FILES && TableOk(t[i := NewNode(isDir, cwd, name)], marked, cwd, depth[i := depth[cwd] + 1])
  {
    var n := NewNode(isDir, cwd, name);
    assert NodeOk(t[i]);
    SwapIdle(t, marked, i, n);
    TreeWithLeaf(t, depth, cwd, i, n);
    SiblingsWithNew(t, cwd, i, n);
    hide Owns, IsTree, SiblingsUnique;
  }

  lemma TreeWithLeaf(t: seq<Inode>, depth: seq<nat>, dir: nat, i: nat, n: Inode)
    requires IsTree(t, depth) && IsDir(t, dir) && i < MAX_FILES && !t[i].used && n.used && n.parent == dir
    ensures IsTree(t[i := n], depth[i := depth[dir] + 1])
  {
  }

  lemma SiblingsWithNew(t: seq<Inode>, dir: nat, i: nat, n: Inode)
    requires SiblingsUnique(t) && i < |t| && n.parent == dir && forall j :: !Entry(t, dir, n.name, j)
    ensures SiblingsUnique(t[i := n])
  {
    var t' := t[i := n];
    forall a, b | 0 <= a < b < |t'| && t'[a].used && t'[b].used && t'[a].parent == t'[b].parent
      ensures t'[a].name != t'[b].name
    {
      assert !Entry(t, dir, n.name, a) && !Entry(t, dir, n.name, b);
    }
  }

  lemma EntryRemoved(t: seq<Inode>, marked: set<nat>, cwd: nat, depth: seq<nat>, i: nat)
    requires i < MAX_FILES && i != cwd && i != ROOT_INODE && NodesOk(t)
    requires IsTree(t, depth) && SiblingsUnique(t) && IsDir(t, cwd)
    requires forall j | 0 <= j < MAX_FILES && t[j].used :: t[j].parent != i
    requires Owns(t[i := EmptyInode()], marked)
    ensures TableOk(t[i := EmptyInode()], marked, cwd, depth)
  {
    TreeWithoutLeaf(t, depth, i);
    SiblingsChanged(t, i, EmptyInode());
    hide Owns, IsTree, SiblingsUnique;
  }

  lemma TreeWithoutLeaf(t: seq<Inode>, depth: seq<nat>, i: nat)
    requires IsTree(t, depth) && i < MAX_FILES && i != ROOT_INODE
    requires forall j | 0 <= j < MAX_FILES && t[j].used :: t[j].parent != i
    ensures IsTree(t[i := EmptyInode()], depth)
  {
  }

  lemma SiblingsChanged(t: seq<Inode>, i: nat, n: Inode)
    requires SiblingsUnique(t) && i < |t|
    requires n.used ==> t[i].used && n.parent == t[i].parent && n.name == t[i].name
    ensures SiblingsUnique(t[i := n])
  {
  }

  // Rewriting the blocks and the size of file i.
  lemma FileRewritten(t: seq<Inode>, cwd: nat, depth: seq<nat>, i: nat, n: Inode, marked: set<nat>)
    requires NodesOk(t) && IsTree(t, depth) && SiblingsUnique(t) && IsDir(t, cwd) && i < MAX_FILES
    requires t[i].used && !t[i].isDir && NodeOk(n) && n == t[i].(size := n.size, blocks := n.blocks)
    requires Owns(t[i := n], marked)
    ensures TableOk(t[i := n], marked, cwd, depth)
  {
    SiblingsChanged(t, i, n);
    TreeSameShape(t, depth, i, n);
    hide Owns, IsTree, SiblingsUnique;
  }

  lemma TreeSameShape(t: seq<Inode>, depth: seq<nat>, i: nat, n: Inode)
    requires IsTree(t, depth) && i < MAX_FILES && n.used == t[i].used && n.isDir == t[i].isDir
             && n.parent == t[i].parent
    ensures IsTree(t[i := n], depth)
  {
  }

  // The j-th block of a file with content `data`.
  function Chunk(data: seq<Byte>, j: nat): (c: Sector)
    requires j * SECTOR_SIZE < |data|
  {
    var n := if |data| - j * SECTOR_SIZE < SECTOR_SIZE then |data| - j * SECTOR_SIZE else SECTOR_SIZE;
    data[j * SECTOR_SIZE..j * SECTOR_SIZE + n] + Zeros(SECTOR_SIZE - n)
  }

  lemma {:induction false} ContentOfChunks(d: seq<Sector>, n: Inode, data: seq<Byte>, k: nat)
    requires |n.blocks| == 12 && k <= 12 && n.size == |data| <= FILE_MAX_BYTES
    requires forall j | 0 <= j < 12 :: n.blocks[j] < |d|
    requires forall j | 0 <= j < k && j * SECTOR_SIZE < |data| :: d[n.blocks[j]] == Chunk(data, j)
    ensures ContentUpTo(d, n, k) == data[..if k * SECTOR_SIZE < |data| then k * SECTOR_SIZE else |data|]
  {
    if k > 0 {
      ContentOfChunks(d, n, data, k - 1);
      if (k - 1) * SECTOR_SIZE < |data| {
        var rest := |data| - (k - 1) * SECTOR_SIZE;
        var m := if rest < SECTOR_SIZE then rest else SECTOR_SIZE;
        assert Chunk(data, k - 1)[..m] == data[(k - 1) * SECTOR_SIZE..(k - 1) * SECTOR_SIZE + m];
        assert data[..(k - 1) * SECTOR_SIZE + m]
            == data[..(k - 1) * SECTOR_SIZE] + data[(k - 1) * SECTOR_SIZE..(k - 1) * SECTOR_SIZE + m];
      }
    }
  }

  // While a file is rewritten its inode is only in memory: the pending table is the one on disk with
  // inode i replaced.
  ghost predicate Pending(t: seq<Inode>, i: nat, n: Inode, marked: set<nat>) {
    |t| == MAX_FILES && i < MAX_FILES && |n.blocks| == 12 && Owns(t[i := n], marked)
  }

  // The first k entries released.
  ghost predicate Released(was: Inode, n: Inode, k: nat) {
    && |was.blocks| == 12 && k <= 12 && |n.blocks| == 12 && n == was.(blocks := n.blocks)
    && forall j | 0 <= j < 12 :: n.blocks[j] == if j < k then 0 else was.blocks[j]
  }

  lemma ReleaseOne(t: seq<Inode>, i: nat, was: Inode, n: Inode, k: nat, marked: set<nat>)
    requires Pending(t, i, n, marked) && Released(was, n, k) && k < 12
    ensures n.blocks[k] == 0 ==> Released(was, n, k + 1)
    ensures n.blocks[k] != 0 ==> n.blocks[k] >= DATA_START && Released(was, SetBlock(n, k, 0), k + 1)
                                 && Pending(t, i, SetBlock(n, k, 0), marked - {n.blocks[k] - DATA_START})
  {
    hide Owns;
    if n.blocks[k] != 0 {
      ReleaseBlock(t[i := n], marked, i, k);
      assert t[i := n][i := SetBlock(n, k, 0)] == t[i := SetBlock(n, k, 0)];
    }
  }

  lemma TakeOne(t: seq<Inode>, i: nat, n: Inode, k: nat, blk: nat, marked: set<nat>)
    requires Pending(t, i, n, marked) && k < 12 && n.blocks[k] == 0
    requires DATA_START <= blk < DISK_SECTORS && blk - DATA_START !in marked
    ensures Pending(t, i, SetBlock(n, k, blk), marked + {blk - DATA_START})
  {
    TakeBlock(t[i := n], marked, i, k, blk);
    assert t[i := n][i := SetBlock(n, k, blk)] == t[i := SetBlock(n, k, blk)];
  }

  // The blocks of a file other than the pending one are marked.
  lemma OthersMarked(t: seq<Inode>, i: nat, n: Inode, marked: set<nat>, a: nat, j: nat)
    requires Pending(t, i, n, marked) && a < MAX_FILES && a != i && j < 12 && |t[a].blocks| == 12 && t[a].blocks[j] != 0
    ensures DATA_START <= t[a].blocks[j] < DISK_SECTORS && t[a].blocks[j] - DATA_START in marked
  {
    var t' := t[i := n];
    var s := 12 * a + j;
    assert s / 12 == a && s % 12 == j;
    assert SlotBlock(t', s) == t[a].blocks[j];
    InBlocks(t', SLOTS, t[a].blocks[j] - DATA_START);
  }

  // Every file but i has the content it had.
  ghost predicate OthersKept(d0: seq<Sector>, d1: seq<Sector>, i: nat) {
    && IsDisk(d0) && IsDisk(d1) && NodesOk(Inodes(d0)) && NodesOk(Inodes(d1))
    && forall a: nat | a < MAX_FILES && a != i ::
         Inodes(d1)[a] == Inodes(d0)[a] && Content(d1, Inodes(d1)[a]) == Content(d0, Inodes(d0)[a])
  }

  lemma OthersKeepContent(d0: seq<Sector>, d1: seq<Sector>, i: nat, n: Inode, marked: set<nat>)
    requires IsDisk(d0) && |d1| == |d0| && NodesOk(Inodes(d0)) && NodesOk(Inodes(d1)) && i < MAX_FILES
    requires Pending(Inodes(d0), i, n, marked)
    requires forall a | 0 <= a < MAX_FILES && a != i :: Inodes(d1)[a] == Inodes(d0)[a]
    requires forall s | DATA_START <= s < |d0| && s - DATA_START in marked :: d1[s] == d0[s]
    ensures OthersKept(d0, d1, i)
  {
    hide Inodes, Owns;
    var t := Inodes(d0);
    forall a: nat | a < MAX_FILES && a != i
      ensures Inodes(d1)[a] == t[a] && Content(d1, t[a]) == Content(d0, t[a])
    {
      assert NodeOk(t[a]);
      forall j: nat | j < 12 && j * SECTOR_SIZE < t[a].size ensures d1[t[a].blocks[j]] == d0[t[a].blocks[j]] {
        OthersMarked(t, i, n, marked, a, j);
      }
      ContentFrame(d0, d1, t[a], 12);
    }
  }

  // ---------- formatting ----------

  const SLASH: Byte := 47

  function RootNode(): Inode { Inode(true, true, ROOT_INODE, [SLASH], 0, ZeroBlocks()) }

  function FreshTable(): (t: seq<Inode>)
    ensures |t| == MAX_FILES && t[0] == RootNode() && forall i | 0 < i < MAX_FILES :: t[i] == EmptyInode()
  {
    seq(MAX_FILES, i => if i == 0 then RootNode() else EmptyInode())
  }

  // The table `format` writes, with nothing marked, satisfies the invariant.
  lemma FreshTableOk(t: seq<Inode>)
    requires t == FreshTable()
    ensures TableOk(t, {}, ROOT_INODE, seq(MAX_FILES, _ => 0))
  {
    forall s: nat | s < SLOTS ensures Shaped(t) && SlotBlock(t, s) == 0 {
    }
    NothingHeld(t, SLOTS);
  }

  lemma {:induction false} NothingHeld(t: seq<Inode>, n: nat)
    requires Shaped(t) && n <= SLOTS && forall s: nat | s < SLOTS :: SlotBlock(t, s) == 0
    ensures BlocksOf(t, n) == {}
  {
    if n > 0 { NothingHeld(t, n - 1); }
  }

  // Zeroed sectors hold empty inodes and an empty bitmap.
  lemma ZeroedDisk(d: seq<Sector>)
    requires IsDisk(d) && forall s | BITMAP_START <= s < DATA_START :: d[s] == Zeros(512)
    ensures Marked(d) == {} && forall i | 0 <= i < MAX_FILES :: Inodes(d)[i] == EmptyInode()
  {
    forall i: nat | i < 8192 ensures !IsUsed(Bitmap(d), i) {
      assert Bitmap(d)[i / 8] == 0;
    }
    forall i: nat | i < MAX_FILES ensures InodeAt(d, i) == EmptyInode() {
      assert InodeBytes(d, i)[0] == 0;
    }
  }

  // ---------- how full the disk is ----------

  function BlocksFor(size: nat): nat { (size + SECTOR_SIZE - 1) / SECTOR_SIZE }

  // The blocks the first n files need for their sizes.
  ghost function BlocksNeeded(t: seq<Inode>, n: nat): nat
    requires n <= |t|
  {
    if n == 0 then 0 else BlocksNeeded(t, n - 1) + BlocksFor(t[n - 1].size)
  }

  lemma {:induction false} UsageUpTo(t: seq<Inode>, marked: set<nat>, i: nat, j: nat)
    requires Shaped(t) && Owns(t, marked) && NodesOk(t) && i < MAX_FILES && j <= 12
    ensures |BlocksOf(t, 12 * i + j)|
            == BlocksNeeded(t, i) + if j < BlocksFor(t[i].size) then j else BlocksFor(t[i].size)
    decreases i, j
  {
    hide Owns, NodesOk, SlotBlock, BlocksFor, BlocksOf, BlocksNeeded;
    if j > 0 {
      UsageUpTo(t, marked, i, j - 1);
      OneSlot(t, marked, i, j - 1);
      assert 12 * i + (j - 1) + 1 == 12 * i + j;
    } else if i > 0 {
      UsageUpTo(t, marked, i - 1, 12);
      AtMostTwelve(t, i - 1);
      assert 12 * i + 0 == 12 * (i - 1) + 12;
      assert BlocksNeeded(t, i) == BlocksNeeded(t, i - 1) + BlocksFor(t[i - 1].size) by { NeedStep(t, i); }
    } else {
      NeedStart(t);
    }
  }

  lemma NeedStep(t: seq<Inode>, i: nat)
    requires 0 < i <= |t|
    ensures BlocksNeeded(t, i) == BlocksNeeded(t, i - 1) + BlocksFor(t[i - 1].size)
  {
  }

  lemma NeedStart(t: seq<Inode>)
    requires Shaped(t)
    ensures BlocksOf(t, 0) == {} && BlocksNeeded(t, 0) == 0
  {
  }

  lemma OneSlot(t: seq<Inode>, marked: set<nat>, i: nat, j: nat)
    requires Owns(t, marked) && NodesOk(t) && i < MAX_FILES && j < 12
    ensures |BlocksOf(t, 12 * i + j + 1)| == |BlocksOf(t, 12 * i + j)| + if j < BlocksFor(t[i].size) then 1 else 0
  {
    hide SlotBlock, BlocksOf, BlocksFor, NodesOk;
    var s := 12 * i + j;
    SlotOfFile(t, i, j);
    Demand(j, t[i].size);
    if SlotBlock(t, s) != 0 { NewInBlocks(t, marked, s); }
    BlocksStep(t, s);
  }

  lemma SlotOfFile(t: seq<Inode>, i: nat, j: nat)
    requires Shaped(t) && NodesOk(t) && i < MAX_FILES && j < 12
    ensures SlotBlock(t, 12 * i + j) == t[i].blocks[j]
            && (SlotBlock(t, 12 * i + j) != 0 <==> j * SECTOR_SIZE < t[i].size)
    ensures SlotBlock(t, 12 * i + j) == 0 || SlotBlock(t, 12 * i + j) >= DATA_START
  {
    assert (12 * i + j) / 12 == i && (12 * i + j) % 12 == j;
    assert NodeOk(t[i]);
  }

  lemma Demand(j: nat, size: nat)
    ensures j * SECTOR_SIZE < size <==> j < BlocksFor(size)
  {
  }

  lemma AtMostTwelve(t: seq<Inode>, i: nat)
    requires NodesOk(t) && i < MAX_FILES
    ensures BlocksFor(t[i].size) <= 12
  {
    assert NodeOk(t[i]);
  }

  lemma NewInBlocks(t: seq<Inode>, marked: set<nat>, s: nat)
    requires Owns(t, marked) && s < SLOTS && SlotBlock(t, s) != 0
    ensures SlotBlock(t, s) >= DATA_START && SlotBlock(t, s) - DATA_START !in BlocksOf(t, s)
  {
    hide BlocksOf, SlotBlock;
    InBlocks(t, s, SlotBlock(t, s) - DATA_START);
  }

  // The marked blocks are as many as the sizes of all files call for.
  lemma UsageIsDemand(t: seq<Inode>, marked: set<nat>)
    requires Owns(t, marked) && NodesOk(t)
    ensures |marked| == BlocksNeeded(t, MAX_FILES)
  {
    UsageUpTo(t, marked, 63, 12);
    AtMostTwelve(t, 63);
  }

  // ---------- descendants ----------

  ghost predicate ChildOf(t: seq<Inode>, dir: nat, c: nat) {
    c < |t| && t[c].used && t[c].parent == dir && c != ROOT_INODE
  }

  // x lies below the child c of dir (or is c itself).
  ghost predicate BelowChild(t: seq<Inode>, depth: seq<nat>, dir: nat, c: nat, x: nat)
    requires IsTree(t, depth)
  {
    ChildOf(t, dir, c) && x < MAX_FILES && t[x].used && c in Ancestors(t, depth, x)
  }

  ghost predicate Below(t: seq<Inode>, depth: seq<nat>, dir: nat, x: nat)
    requires IsTree(t, depth)
  {
    exists c :: BelowChild(t, depth, dir, c, x)
  }

  lemma {:induction false} AncestorsClosed(t: seq<Inode>, depth: seq<nat>, x: nat, c: nat)
    requires IsTree(t, depth) && x < MAX_FILES && t[x].used && c in Ancestors(t, depth, x)
    ensures c < MAX_FILES && t[c].used && t[c].parent in Ancestors(t, depth, x) && depth[c] <= depth[x]
    decreases depth[x]
  {
    if x != ROOT_INODE && c != x { AncestorsClosed(t, depth, t[x].parent, c); }
  }

  lemma {:induction false} OneAncestorPerLevel(t: seq<Inode>, depth: seq<nat>, x: nat, a: nat, b: nat)
    requires IsTree(t, depth) && x < MAX_FILES && t[x].used
    requires a in Ancestors(t, depth, x) && b in Ancestors(t, depth, x)
    requires a < MAX_FILES && b < MAX_FILES && depth[a] == depth[b]
    ensures a == b
    decreases depth[x]
  {
    if x != ROOT_INODE {
      if a != x { AncestorsClosed(t, depth, t[x].parent, a); }
      if b != x { AncestorsClosed(t, depth, t[x].parent, b); }
      if a != x && b != x { OneAncestorPerLevel(t, depth, t[x].parent, a, b); }
    }
  }

  // An inode lies below one child of a directory only.
  lemma OneBranch(t: seq<Inode>, depth: seq<nat>, dir: nat, c: nat, c': nat, x: nat)
    requires IsTree(t, depth) && BelowChild(t, depth, dir, c, x) && BelowChild(t, depth, dir, c', x)
    ensures c == c'
  {
    OneAncestorPerLevel(t, depth, x, c, c');
  }

  lemma {:induction false} StepDown(t: seq<Inode>, depth: seq<nat>, c: nat, x: nat)
    requires IsTree(t, depth) && x < MAX_FILES && t[x].used && c in Ancestors(t, depth, x) && x != c
    ensures Below(t, depth, c, x)
    decreases depth[x]
  {
    var p := t[x].parent;
    if p == c {
      assert BelowChild(t, depth, c, x, x);
    } else {
      StepDown(t, depth, c, p);
      var d :| BelowChild(t, depth, c, d, p);
      assert BelowChild(t, depth, c, d, x);
    }
  }

  // Below child c of dir means being c or lying below c.
  lemma BranchIs(t: seq<Inode>, depth: seq<nat>, dir: nat, c: nat, x: nat)
    requires IsTree(t, depth) && ChildOf(t, dir, c)
    ensures BelowChild(t, depth, dir, c, x) <==> x == c || Below(t, depth, c, x)
    ensures Below(t, depth, c, x) ==> x != c && t[c].isDir
  {
    if BelowChild(t, depth, dir, c, x) && x != c { StepDown(t, depth, c, x); }
    if d :| BelowChild(t, depth, c, d, x) {
      AncestorsClosed(t, depth, x, d);
    }
  }

  // The inodes called `name` below the first u inodes that are children of dir.
  ghost function Scope(t: seq<Inode>, depth: seq<nat>, dir: nat, name: seq<Byte>, u: nat): set<nat>
    requires IsTree(t, depth)
  {
    set x: nat | x < MAX_FILES && t[x].name == name && exists c: nat :: c < u && BelowChild(t, depth, dir, c, x)
  }

  // A sequence without repetition of exactly the members of a set.
  ghost predicate Lists(s: seq<nat>, m: set<nat>) {
    (forall a, b | 0 <= a < b < |s| :: s[a] != s[b]) && forall x :: x in s <==> x in m
  }

  lemma ListsJoin(s: seq<nat>, m: set<nat>, s': seq<nat>, m': set<nat>)
    requires Lists(s, m) && Lists(s', m') && m !! m'
    ensures Lists(s + s', m + m')
  {
    forall a, b | 0 <= a < b < |s + s'| ensures (s + s')[a] != (s + s')[b] {
      if a < |s| <= b { assert s[a] in m && s'[b - |s|] in m'; }
    }
  }

  // Depth first: x is above y, or below an earlier child of some directory than y is.
  ghost predicate Precedes(t: seq<Inode>, depth: seq<nat>, x: nat, y: nat)
    requires IsTree(t, depth)
  {
    Below(t, depth, x, y)
    || exists dir: nat, c: nat, c': nat :: c < c' && BelowChild(t, depth, dir, c, x) && BelowChild(t, depth, dir, c', y)
  }

  ghost predicate InOrder(t: seq<Inode>, depth: seq<nat>, s: seq<nat>)
    requires IsTree(t, depth)
  {
    forall a, b | 0 <= a < b < |s| :: Precedes(t, depth, s[a], s[b])
  }

  lemma OrderJoin(t: seq<Inode>, depth: seq<nat>, s: seq<nat>, s': seq<nat>)
    requires IsTree(t, depth) && InOrder(t, depth, s) && InOrder(t, depth, s')
    requires forall x, y | x in s && y in s' :: Precedes(t, depth, x, y)
    ensures InOrder(t, depth, s + s')
  {
    hide Precedes, IsTree;
  }

  // What lies below an earlier child comes before what lies in the branch of a later one.
  lemma BranchesInOrder(t: seq<Inode>, depth: seq<nat>, dir: nat, i: nat, name: seq<Byte>, x: nat, y: nat)
    requires IsTree(t, depth) && ChildOf(t, dir, i)
    requires x in Scope(t, depth, dir, name, i) && y in Branch(t, depth, i, name)
    ensures Precedes(t, depth, x, y)
  {
    hide BelowChild, IsTree;
    assert y == i || Below(t, depth, i, y);
    BranchIs(t, depth, dir, i, y);
  }

  lemma SelfFirst(t: seq<Inode>, depth: seq<nat>, i: nat, name: seq<Byte>, y: nat)
    requires IsTree(t, depth) && y in Scope(t, depth, i, name, MAX_FILES)
    ensures Precedes(t, depth, i, y)
  {
    hide BelowChild, IsTree;
  }

  // An inode itself, if it has the name, and everything below it that has.
  ghost function Branch(t: seq<Inode>, depth: seq<nat>, i: nat, name: seq<Byte>): set<nat>
    requires IsTree(t, depth) && i < MAX_FILES
  {
    (if t[i].name == name then {i} else {}) + if t[i].isDir then Scope(t, depth, i, name, MAX_FILES) else {}
  }

  // What one more inode i adds to the scope.
  lemma ScopeStep(t: seq<Inode>, depth: seq<nat>, dir: nat, name: seq<Byte>, i: nat)
    requires IsTree(t, depth) && i < MAX_FILES
    ensures var s := Scope(t, depth, dir, name, i); var s' := Scope(t, depth, dir, name, i + 1);
            var b := Branch(t, depth, i, name);
            if ChildOf(t, dir, i) then s' == s + b && s !! b && i !in Scope(t, depth, i, name, MAX_FILES)
            else s' == s
  {
    hide IsTree, Ancestors;
    var s, s' := Scope(t, depth, dir, name, i), Scope(t, depth, dir, name, i + 1);
    forall x: nat | x < MAX_FILES
      ensures ChildOf(t, dir, i) ==>
                && (BelowChild(t, depth, dir, i, x) <==> x == i || Below(t, depth, i, x))
                && (Below(t, depth, i, x) ==> x != i && t[i].isDir)
                && (BelowChild(t, depth, dir, i, x) ==> x !in s)
      ensures Below(t, depth, i, x) <==> exists c: nat :: c < MAX_FILES && BelowChild(t, depth, i, c, x)
    {
      if ChildOf(t, dir, i) {
        BranchIs(t, depth, dir, i, x) by { hide BelowChild, Below; }
        if BelowChild(t, depth, dir, i, x) && x in s {
          var c: nat :| c < i && BelowChild(t, depth, dir, c, x);
          OneBranch(t, depth, dir, c, i, x);
        }
      }
      if c :| BelowChild(t, depth, i, c, x) { InTable(t, depth, i, c, x); }
    }
    hide BelowChild, Below, ChildOf;
  }

  lemma InTable(t: seq<Inode>, depth: seq<nat>, dir: nat, c: nat, x: nat)
    requires IsTree(t, depth) && BelowChild(t, depth, dir, c, x)
    ensures c < MAX_FILES
  {
  }

  lemma ScopeStarts(t: seq<Inode>, depth: seq<nat>, dir: nat, name: seq<Byte>)
    requires IsTree(t, depth)
    ensures Scope(t, depth, dir, name, 0) == {}
  {
  }

  // ---------- paths ----------

  ghost function PathOf(t: seq<Inode>, depth: seq<nat>, i: nat): seq<Byte>
    requires IsTree(t, depth) && i < MAX_FILES && t[i].used
    decreases depth[i]
  {
    if i == ROOT_INODE then [] else PathOf(t, depth, t[i].parent) + [SLASH] + t[i].name
  }

  ghost function FullPath(t: seq<Inode>, depth: seq<nat>, i: nat): seq<Byte>
    requires IsTree(t, depth) && i < MAX_FILES && t[i].used
  {
    if i == ROOT_INODE then [SLASH] else PathOf(t, depth, i)
  }

  // The last n components of the path, all of it if there are no more.
  ghost function LastPart(t: seq<Inode>, depth: seq<nat>, i: nat, n: nat): seq<Byte>
    requires IsTree(t, depth) && i < MAX_FILES && t[i].used
    decreases n
  {
    if n == 0 || i == ROOT_INODE then [] else LastPart(t, depth, t[i].parent, n - 1) + [SLASH] + t[i].name
  }

  lemma {:induction false} WholePath(t: seq<Inode>, depth: seq<nat>, i: nat, n: nat)
    requires IsTree(t, depth) && i < MAX_FILES && t[i].used && depth[i] <= n
    ensures LastPart(t, depth, i, n) == PathOf(t, depth, i)
    decreases depth[i]
  {
    if i != ROOT_INODE { WholePath(t, depth, t[i].parent, n - 1); }
  }

  lemma {:induction false} PartOfPath(t: seq<Inode>, depth: seq<nat>, i: nat, n: nat)
    requires IsTree(t, depth) && i < MAX_FILES && t[i].used
    ensures |LastPart(t, depth, i, n)| <= |PathOf(t, depth, i)|
    ensures n < depth[i] ==> |LastPart(t, depth, i, n)| < |PathOf(t, depth, i)|
    decreases n
  {
    if n > 0 && i != ROOT_INODE { PartOfPath(t, depth, t[i].parent, n - 1); }
  }

  lemma PartStep(t: seq<Inode>, depth: seq<nat>, c: nat, n: nat)
    requires IsTree(t, depth) && 0 < c < MAX_FILES && t[c].used
    ensures t[c].parent < MAX_FILES && t[t[c].parent].used
    ensures LastPart(t, depth, c, n + 1) == LastPart(t, depth, t[c].parent, n) + [SLASH] + t[c].name
  {
  }

  lemma PartNone(t: seq<Inode>, depth: seq<nat>, i: nat)
    requires IsTree(t, depth) && i < MAX_FILES && t[i].used
    ensures LastPart(t, depth, i, 0) == []
  {
  }

  // chain[d] is the d-th directory up from i.
  ghost predicate Climbs(t: seq<Inode>, depth: seq<nat>, i: nat, chain: seq<nat>)
    requires IsTree(t, depth)
  {
    && i < MAX_FILES && t[i].used
    && forall d | 0 <= d < |chain| ::
         && 0 < chain[d] < MAX_FILES && t[chain[d]].used && depth[chain[d]] + d == depth[i]
         && (d == 0 ==> chain[d] == i)
         && (d > 0 ==> chain[d - 1] < |t| && chain[d] == t[chain[d - 1]].parent)
  }

  // Where a climb of |chain| steps has got to.
  ghost function Top(t: seq<Inode>, i: nat, chain: seq<nat>): nat
    requires forall d | 0 <= d < |chain| :: chain[d] < |t|
  {
    if chain == [] then i else t[chain[|chain| - 1]].parent
  }

  lemma ClimbOn(t: seq<Inode>, depth: seq<nat>, i: nat, chain: seq<nat>)
    requires IsTree(t, depth) && Climbs(t, depth, i, chain)
    ensures var top := Top(t, i, chain);
            top < MAX_FILES && t[top].used && depth[top] + |chain| == depth[i]
            && (top != ROOT_INODE ==> Climbs(t, depth, i, chain + [top]))
            && (top == ROOT_INODE <==> depth[top] == 0)
  {
  }

  // The part of the path below the end of a climb grows towards its start.
  lemma {:induction false} PartsGrow(t: seq<Inode>, depth: seq<nat>, i: nat, chain: seq<nat>, d: nat)
    requires IsTree(t, depth) && Climbs(t, depth, i, chain) && 0 < d < |chain|
    ensures t[i].parent < MAX_FILES && t[t[i].parent].used
    ensures |LastPart(t, depth, chain[d], |chain| - d)| <= |LastPart(t, depth, t[i].parent, |chain| - 1)|
    decreases d
  {
    hide LastPart;
    assert chain[0] == i && chain[1] == t[chain[0]].parent;
    if d > 1 {
      PartsGrow(t, depth, i, chain, d - 1);
      PartStep(t, depth, chain[d - 1], |chain| - d);
    }
  }

  // ---------- a chain of directories ----------

  function LongName(): seq<Byte> { seq(NAME_MAX, _ => 97) }

  // n directories with the longest names, each inside the one before.
  function Nested(n: nat): (t: seq<Inode>)
    requires n < MAX_FILES
    ensures |t| == MAX_FILES && t[0] == RootNode()
    ensures forall i | 0 < i <= n :: t[i] == NewNode(true, i - 1, LongName())
    ensures forall i | n < i < MAX_FILES :: t[i] == EmptyInode()
  {
    if n == 0 then FreshTable() else Nested(n - 1)[n := NewNode(true, n - 1, LongName())]
  }

  function NestedDepths(n: nat): (d: seq<nat>)
    requires n < MAX_FILES
    ensures |d| == MAX_FILES && forall i | 0 <= i <= n :: d[i] == i
  {
    if n == 0 then seq(MAX_FILES, _ => 0) else NestedDepths(n - 1)[n := n]
  }

  lemma {:induction false} NestedOk(n: nat)
    requires n < MAX_FILES
    ensures TableOk(Nested(n), {}, n, NestedDepths(n))
  {
    hide NodesOk, Owns, IsTree, SiblingsUnique;
    if n == 0 {
      FreshTableOk(Nested(0));
    } else {
      NestedOk(n - 1);
      var t, dir, name := Nested(n - 1), n - 1, LongName();
      assert forall j :: !Entry(t, dir, name, j);
      EntryAdded(t, {}, dir, NestedDepths(n - 1), n, true, name);
    }
  }

  lemma {:induction false} NestedPart(n: nat, i: nat, k: nat)
    requires n < MAX_FILES && IsTree(Nested(n), NestedDepths(n)) && i <= n && i <= k
    ensures |LastPart(Nested(n), NestedDepths(n), i, k)| == 27 * i
    ensures |PathOf(Nested(n), NestedDepths(n), i)| == 27 * i
    decreases i
  {
    hide IsTree;
    if i > 0 { NestedPart(n, i - 1, k - 1); }
  }
}
