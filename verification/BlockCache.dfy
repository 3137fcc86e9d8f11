// The installer's one-block write-back cache over a block device, its undo log,
// and the replay of that log.  Every read, write or seek of the device may fail:
// a failed read spoils the cache buffer, a failed write spoils the device block.
module BlockCache {
  import opened Wrappers
  import opened Bits
  import opened Bitmaps
  import opened Buffers

  const UNINSTALL_DATA_MAX: nat := 256
  const NO_BLOCK: nat := 0xFFFF_FFFF_FFFF_FFFF  // (uint64_t)-1

  datatype Entry = Entry(data: seq<Byte>, loc: nat)

  // ---------- replaying a log ----------

  predicate Fits(s: seq<Byte>, e: Entry) {
    e.data == [] || e.loc + |e.data| <= |s|
  }

  function Put(s: seq<Byte>, loc: nat, data: seq<Byte>): (r: seq<Byte>)
    ensures |r| == |s|
  {
    if data == [] || loc + |data| > |s| then s else Overwrite(s, loc, data)
  }

  // The first n entries written in order.
  function Replay(s: seq<Byte>, log: seq<Entry>, n: nat): (r: seq<Byte>)
    requires n <= |log|
    ensures |r| == |s|
  {
    if n == 0 then s else Put(Replay(s, log, n - 1), log[n - 1].loc, log[n - 1].data)
  }

  ghost predicate UpTo(s: seq<Byte>, log: seq<Entry>, n: nat, r: seq<Byte>)
    requires n <= |log|
  {
    r == Replay(s, log, n) && forall j | 0 <= j < n :: Fits(s, log[j])
  }

  lemma NoneYet(s: seq<Byte>, log: seq<Entry>)
    ensures UpTo(s, log, 0, s)
  {
  }

  lemma NextUpTo(s: seq<Byte>, log: seq<Entry>, n: nat, r: seq<Byte>)
    requires n < |log|
    ensures UpTo(s, log, n, r) && Fits(r, log[n]) ==> UpTo(s, log, n + 1, Put(r, log[n].loc, log[n].data))
  {
  }

  lemma AllUpTo(s: seq<Byte>, log: seq<Entry>, r: seq<Byte>)
    ensures UpTo(s, log, |log|, r) ==> r == Replay(s, log, |log|) && AllFit(r, log)
  {
  }

  predicate Covers(e: Entry, x: nat) {
    e.loc <= x < e.loc + |e.data|
  }

  // A write begun and then repeated from the start is the whole write.
  lemma PutAgain(s: seq<Byte>, loc: nat, data: seq<Byte>, k: nat)
    requires k <= |data| && loc + |data| <= |s|
    ensures Put(Put(s, loc, data[..k]), loc, data) == Put(s, loc, data)
  {
  }

  lemma PutTwice(s: seq<Byte>, loc: nat, data: seq<Byte>, j: nat, k: nat)
    requires j <= |data| && k <= |data| && (j > 0 ==> loc + j <= |s|) && (k > 0 ==> loc + k <= |s|)
    ensures Put(Put(s, loc, data[..j]), loc, data[..k]) == Put(s, loc, data[..if j < k then k else j])
  {
  }

  lemma PutMore(s: seq<Byte>, loc: nat, data: seq<Byte>, k: nat, n: nat)
    requires k < n <= |data| && loc + n <= |s|
    ensures Put(s, loc, data[..n]) == Overwrite(Put(s, loc, data[..k]), loc + k, data[k..n])
  {
    assert data[..n] == data[..k] + data[k..n];
    OverwriteTwice(s, loc, data[..k], data[k..n]);
    NothingWritten(s, loc);
    hide Overwrite;
  }

  lemma NothingWritten(s: seq<Byte>, at: nat)
    requires at <= |s|
    ensures Overwrite(s, at, []) == s
  {
  }

  // ---------- when replaying undoes ----------

  // The earliest entry that covers byte x.
  function FirstCover(log: seq<Entry>, x: nat): (r: Option<nat>)
    ensures r.Some? ==> r.value < |log| && Covers(log[r.value], x) && forall j | 0 <= j < r.value :: !Covers(log[j], x)
    ensures r.None? ==> forall j | 0 <= j < |log| :: !Covers(log[j], x)
  {
    if log == [] then None
    else if Covers(log[0], x) then Some(0)
    else
      var r := FirstCover(log[1..], x);
      if r.None? then None else Some(r.value + 1)
  }

  function Reverse(log: seq<Entry>): (r: seq<Entry>)
    ensures |r| == |log| && forall j | 0 <= j < |r| :: r[j] == log[|log| - 1 - j]
  {
    seq(|log|, j requires 0 <= j < |log| => log[|log| - 1 - j])
  }

  ghost predicate AllFit(s: seq<Byte>, log: seq<Entry>) {
    forall j | 0 <= j < |log| :: Fits(s, log[j])
  }

  // Replaying a log from its end leaves in each byte what its first cover saved.
  lemma {:induction false} ReverseReplay(s: seq<Byte>, log: seq<Entry>, x: nat)
    requires AllFit(s, log) && x < |s|
    ensures var c := FirstCover(log, x);
            Replay(s, Reverse(log), |log|)[x] == if c.None? then s[x] else log[c.value].data[x - log[c.value].loc]
    decreases |log|
  {
    hide Put, Covers;
    if log != [] {
      var rest := log[1..];
      ReverseReplay(s, rest, x);
      ReplayPrefix(s, Reverse(log), Reverse(rest), |rest|);
      assert Reverse(log)[|rest|] == log[0];
      PutAt(Replay(s, Reverse(rest), |rest|), log[0], x);
    }
  }

  lemma PutAt(s: seq<Byte>, e: Entry, x: nat)
    requires Fits(s, e) && x < |s|
    ensures Put(s, e.loc, e.data)[x] == if Covers(e, x) then e.data[x - e.loc] else s[x]
  {
  }

  lemma {:induction false} ReplayPrefix(s: seq<Byte>, l: seq<Entry>, l': seq<Entry>, n: nat)
    requires n <= |l| && n <= |l'| && l[..n] == l'[..n]
    ensures Replay(s, l, n) == Replay(s, l', n)
  {
    if n > 0 {
      assert l[n - 1] == l[..n][n - 1] == l'[n - 1];
      assert l[..n - 1] == l[..n][..n - 1] == l'[..n - 1];
      ReplayPrefix(s, l, l', n - 1);
    }
  }

  // The log saves, for every byte it covers, what the device held at first.
  ghost predicate Saves(log: seq<Entry>, d0: seq<Byte>, x: nat) {
    var c := FirstCover(log, x);
    c.Some? && x < |d0| ==> log[c.value].data[x - log[c.value].loc] == d0[x]
  }

  // Undoing restores a device exactly when the bytes no entry covers were never changed on it.
  lemma UndoExactly(d0: seq<Byte>, dev: seq<Byte>, log: seq<Entry>)
    requires |dev| == |d0| && AllFit(dev, log) && forall x: nat | x < |d0| :: Saves(log, d0, x)
    ensures Replay(dev, Reverse(log), |log|) == d0
            <==> forall x: nat | x < |d0| && FirstCover(log, x).None? :: dev[x] == d0[x]
  {
    var r := Replay(dev, Reverse(log), |log|);
    forall x: nat | x < |d0|
      ensures r[x] == if FirstCover(log, x).None? then dev[x] else d0[x]
    {
      ReverseReplay(dev, log, x);
      assert Saves(log, d0, x);
    }
  }

  // What every moment of an installation satisfies: d0 is the original device, `lost` the bytes an
  // unfinished write has written, which are not logged.
  ghost predicate Undoable(d0: seq<Byte>, flat: seq<Byte>, dev: seq<Byte>, spoiled: set<nat>, log: seq<Entry>,
                           lost: set<nat>) {
    && |flat| == |dev| == |d0| && AllFit(d0, log)
    && (forall x: nat | x < |d0| :: Saves(log, d0, x))
    && forall x: nat | x < |d0| && x !in lost && FirstCover(log, x).None? ::
         flat[x] == d0[x] && (x in spoiled || dev[x] == d0[x])
  }

  // The entry a write of `count` bytes saves.
  function Saved(flat: seq<Byte>, loc: nat, count: nat): Entry
    requires count > 0 ==> loc + count <= |flat|
  {
    Entry(if count == 0 then [] else flat[loc..loc + count], loc)
  }

  lemma FirstCoverGrows(log: seq<Entry>, e: Entry, x: nat)
    ensures FirstCover(log + [e], x) ==
            if FirstCover(log, x).Some? then FirstCover(log, x) else if Covers(e, x) then Some(|log|) else None
  {
    var a, b := FirstCover(log, x), FirstCover(log + [e], x);
    if a.Some? { assert (log + [e])[a.value] == log[a.value]; }
    if b.Some? && b.value < |log| { assert (log + [e])[b.value] == log[b.value]; }
    if Covers(e, x) { assert (log + [e])[|log|] == e; }
  }

  // A completed, logged write keeps the installation undoable.
  lemma WriteLogged(d0: seq<Byte>, flat0: seq<Byte>, dev0: seq<Byte>, spoiled0: set<nat>, log: seq<Entry>,
                    loc: nat, data: seq<Byte>, flat1: seq<Byte>, dev1: seq<Byte>, spoiled1: set<nat>)
    requires Undoable(d0, flat0, dev0, spoiled0, log, {})
    requires |data| > 0 ==> loc + |data| <= |d0|
    requires flat1 == Put(flat0, loc, data)
    requires Cache.OutsideStep(dev0, flat0, spoiled0, dev1, spoiled1, loc, |data|)
    ensures Undoable(d0, flat1, dev1, spoiled1, log + [Saved(flat0, loc, |data|)], {})
  {
    hide FirstCover, Put, Overwrite, Saves, Saved;
    var e := Saved(flat0, loc, |data|);
    SavedIs(flat0, loc, |data|);
    forall x: nat | x < |d0|
      ensures Saves(log + [e], d0, x)
      ensures FirstCover(log + [e], x).None? ==> flat1[x] == d0[x] && (x in spoiled1 || dev1[x] == d0[x])
    {
      SavesMore(log, e, d0, flat0, x);
      if !Covers(e, x) { PutOutside(flat0, loc, data, x); }
    }
  }

  lemma SavedIs(flat: seq<Byte>, loc: nat, count: nat)
    requires count > 0 ==> loc + count <= |flat|
    ensures var e := Saved(flat, loc, count);
            && Fits(flat, e) && (forall x: nat | Covers(e, x) :: x < |flat| && e.data[x - e.loc] == flat[x])
            && forall x: nat | loc <= x < loc + count :: Covers(e, x)
  {
  }

  // One more entry saves what the device held if its bytes were still the original ones.
  lemma SavesMore(log: seq<Entry>, e: Entry, d0: seq<Byte>, flat: seq<Byte>, x: nat)
    requires Saves(log, d0, x) && x < |d0| == |flat|
    requires Covers(e, x) ==> e.data[x - e.loc] == flat[x]
    requires FirstCover(log, x).None? ==> flat[x] == d0[x]
    ensures Saves(log + [e], d0, x)
    ensures FirstCover(log + [e], x).None? <==> FirstCover(log, x).None? && !Covers(e, x)
  {
    hide FirstCover;
    FirstCoverGrows(log, e, x);
  }

  lemma PutOutside(s: seq<Byte>, loc: nat, data: seq<Byte>, x: nat)
    requires x < |s| && !(loc <= x < loc + |data|)
    ensures Put(s, loc, data)[x] == s[x]
  {
  }

  // An unfinished write loses at most the k bytes it wrote; with k = 0, as for a read, nothing.
  lemma WriteUnlogged(d0: seq<Byte>, flat0: seq<Byte>, dev0: seq<Byte>, spoiled0: set<nat>, log: seq<Entry>,
                      loc: nat, data: seq<Byte>, flat1: seq<Byte>, dev1: seq<Byte>, spoiled1: set<nat>)
    requires Undoable(d0, flat0, dev0, spoiled0, log, {})
    requires flat1 == Put(flat0, loc, data)
    requires Cache.OutsideStep(dev0, flat0, spoiled0, dev1, spoiled1, loc, |data|)
    ensures Undoable(d0, flat1, dev1, spoiled1, log, Range(loc, |data|))
  {
    forall x: nat | x < |d0| && x !in Range(loc, |data|) && FirstCover(log, x).None?
      ensures flat1[x] == d0[x] && (x in spoiled1 || dev1[x] == d0[x])
    {
      PutOutside(flat0, loc, data, x);
    }
  }

  // An unfinished write that an undo leaves behind: two blocks of one byte, a write of [1, 1] that fails
  // when its second block cannot be read, after the first has been written back.
  lemma UnfinishedWriteStays()
    ensures var d0, dev := [0, 0], [1, 0];
            && dev == Put(d0, 0, [1, 1][..1])
            && Cache.OutsideStep(d0, d0, {}, dev, {}, 0, 1)
            && Undoable(d0, dev, dev, {}, [], {0})
            && Replay(dev, Reverse([]), 0) != d0
  {
  }

  // Replaying the log from its end restores every byte that was neither lost nor spoiled.
  lemma UndoRestores(d0: seq<Byte>, flat: seq<Byte>, dev: seq<Byte>, spoiled: set<nat>, log: seq<Entry>,
                     lost: set<nat>, x: nat)
    requires Undoable(d0, flat, dev, spoiled, log, lost) && x < |d0| && x !in lost && x !in spoiled
    ensures Replay(dev, Reverse(log), |log|)[x] == d0[x]
  {
    ReverseReplay(dev, log, x);
    assert Saves(log, d0, x);
  }

  // ---------- the cache ----------

  class Cache {
    const blockSize: nat
    const dev: array<Byte>    // the device
    const cache: array<Byte>
    var dirty: bool           // cache_state
    var cachedBlock: nat
    var uninstalling: bool
    const log: array<Entry>   // uninstall_data
    var logged: nat           // uninstall_data_i
    ghost var spoiled: set<nat>  // device bytes a failed write left arbitrary
    ghost var faults: nat        // how many device writes have failed
    ghost var trouble: nat       // how many seeks, reads and writes have failed

    // After `device_init`: block 0 has been read.
    constructor (blockSize: nat, dev: array<Byte>)
      requires 0 < blockSize <= dev.Length
      ensures Valid() && Coherent() && this.dev == dev && this.blockSize == blockSize && fresh(cache) && fresh(log)
      ensures !dirty && !uninstalling && logged == 0 && faults == 0 && Flat() == dev[..]
    {
      this.blockSize, this.dev := blockSize, dev;
      dirty, cachedBlock, uninstalling, logged, spoiled, faults, trouble := false, 0, false, 0, {}, 0, 0;
      var c := new Byte[blockSize];
      var l := new Entry[UNINSTALL_DATA_MAX](_ => Entry([], 0));
      cache, log := c, l;
      new;
      forall i | 0 <= i < blockSize { cache[i] := dev[i]; }
      assert cache[..] == dev[..blockSize];
    }

    // Where a block starts on the device.
    function Start(block: nat): nat { block * blockSize }

    predicate InDevice(block: nat) { Start(block) + blockSize <= dev.Length }

    // The bytes lie in whole blocks of the device.
    predicate Reaches(loc: nat, count: nat)
      requires blockSize > 0
    {
      count > 0 ==> InDevice((loc + count - 1) / blockSize)
    }

    // The cache is empty or of a block of the device.
    ghost predicate Shaped()
      reads `dirty, `cachedBlock
    {
      && blockSize > 0 && cache.Length == blockSize && dev != cache
      && (cachedBlock == NO_BLOCK || InDevice(cachedBlock)) && (dirty ==> cachedBlock != NO_BLOCK)
    }

    ghost predicate Valid()
      reads this
    {
      && Shaped() && log.Length == UNINSTALL_DATA_MAX && logged <= UNINSTALL_DATA_MAX
      && (forall x | x in spoiled :: dirty && Start(cachedBlock) <= x < Start(cachedBlock) + blockSize)
      && (faults == 0 ==> spoiled == {})
    }

    // The buffer holds the block it is said to hold.
    ghost predicate Coherent()
      requires Shaped()
      reads `dirty, `cachedBlock, cache, dev
    {
      cachedBlock == NO_BLOCK || dirty || cache[..] == dev[Start(cachedBlock)..Start(cachedBlock) + blockSize]
    }

    // The device as the installer sees it: a flat array of bytes.
    ghost function Flat(): (s: seq<Byte>)
      requires Shaped()
      reads `dirty, `cachedBlock, cache, dev
      ensures |s| == dev.Length
    {
      if dirty then Overwrite(dev[..], Start(cachedBlock), cache[..]) else dev[..]
    }

    // A failed transfer leaves arbitrary bytes.
    static method Spoil(a: array<Byte>, lo: nat, hi: nat)
      requires lo <= hi <= a.Length
      modifies a
      ensures forall i | 0 <= i < a.Length && !(lo <= i < hi) :: a[i] == old(a[i])
    {
      for i := lo to hi
        invariant forall i | 0 <= i < a.Length && !(lo <= i < hi) :: a[i] == old(a[i])
      {
        a[i] := *;
      }
    }

    // `device_flush_cache`.
    method FlushCache() returns (ok: bool)
      requires Valid()
      modifies this`dirty, this`spoiled, this`faults, this`trouble, dev
      ensures 0 <= faults - old(faults) <= trouble - old(trouble)
      ensures Valid() && Flat() == old(Flat()) && (old(Coherent()) ==> Coherent())
      ensures ok <==> trouble == old(trouble)
      ensures ok ==> !dirty && dev[..] == old(Flat()) && spoiled == {}
      ensures !ok ==> dirty && old(spoiled) <= spoiled
      ensures !ok ==> forall x | 0 <= x < dev.Length && x !in spoiled :: dev[x] == old(dev[x])
    {
      hide Start;
      if !dirty { return true; }
      var at := Start(cachedBlock);
      var seekFails, writeFails: bool := *, *;
      if seekFails || writeFails { trouble := trouble + 1; }
      if seekFails { return false; }
      if writeFails {
        Spoil(dev, at, at + blockSize);
        spoiled := Range(at, blockSize);
        faults := faults + 1;
        return false;
      }
      PutBytes(dev, at, cache[..]);
      dirty := false;
      spoiled := {};
      return true;
    }

    // Each device byte outside `spoiled` is the one it was or the one the installer saw.
    static ghost predicate DevStep(dev0: seq<Byte>, flat0: seq<Byte>, spoiled0: set<nat>, dev1: seq<Byte>,
                                   spoiled1: set<nat>) {
      && |dev1| == |dev0| == |flat0|
      && forall x | 0 <= x < |dev0| && x !in spoiled1 :: dev1[x] == flat0[x] || (x !in spoiled0 && dev1[x] == dev0[x])
    }

    static lemma DevStepRefl(dev0: seq<Byte>, flat0: seq<Byte>, spoiled0: set<nat>)
      requires |dev0| == |flat0|
      ensures DevStep(dev0, flat0, spoiled0, dev0, spoiled0)
    {
    }

    static lemma DevStepTrans(dev0: seq<Byte>, flat: seq<Byte>, spoiled0: set<nat>, dev1: seq<Byte>, spoiled1: set<nat>,
                              dev2: seq<Byte>, spoiled2: set<nat>)
      requires DevStep(dev0, flat, spoiled0, dev1, spoiled1) && DevStep(dev1, flat, spoiled1, dev2, spoiled2)
      ensures DevStep(dev0, flat, spoiled0, dev2, spoiled2)
    {
    }

    // `device_cache_block`.
    method CacheBlock(block: nat) returns (ok: bool)
      requires Valid() && block < NO_BLOCK
      modifies this`dirty, this`cachedBlock, this`spoiled, this`faults, this`trouble, dev, cache
      ensures 0 <= faults - old(faults) <= trouble - old(trouble)
      ensures Valid() && Flat() == old(Flat())
      ensures old(Coherent()) && ok ==> Coherent() && InDevice(block)
      ensures ok ==> cachedBlock == block
      ensures ok <==> trouble == old(trouble) && InDevice(block)
      ensures DevStep(old(dev[..]), old(Flat()), old(spoiled), dev[..], spoiled)
    {
      hide Overwrite, Start;
      if cachedBlock == block { return true; }
      if dirty {
        var flushed := FlushCache();
        if !flushed { return false; }
      }
      var seekFails, readFails: bool := *, *;
      if seekFails || readFails { trouble := trouble + 1; }
      if seekFails { return false; }
      if readFails || !InDevice(block) {
        Spoil(cache, 0, cache.Length);
        return false;
      }
      var at := Start(block);
      forall i | 0 <= i < blockSize { cache[i] := dev[at + i]; }
      assert cache[..] == dev[at..at + blockSize];
      cachedBlock := block;
      return true;
    }

    // `_device_read`: on success the buffer holds the bytes of the flat view; that view never changes.
    method DeviceRead(loc: nat, count: nat) returns (ok: bool, buffer: seq<Byte>)
      requires Valid() && loc + count < NO_BLOCK
      modifies this`dirty, this`cachedBlock, this`spoiled, this`faults, this`trouble, dev, cache
      ensures 0 <= faults - old(faults) <= trouble - old(trouble)
      ensures Valid() && Flat() == old(Flat())
      ensures old(Coherent()) && ok ==> Coherent() && (count > 0 ==> loc + count <= dev.Length)
      ensures old(Coherent()) && ok ==> buffer == if count == 0 then [] else Flat()[loc..loc + count]
      ensures DevStep(old(dev[..]), old(Flat()), old(spoiled), dev[..], spoiled)
      ensures ok ==> |buffer| == count
      ensures ok <==> trouble == old(trouble) && Reaches(loc, count)
    {
      hide Overwrite, Start, DevStep, Flat, Coherent, Reaches, InDevice;
      NoneReached(loc);
      ghost var f := Flat();
      DevStepRefl(dev[..], f, spoiled);
      var progress := 0;
      buffer := [];
      while progress < count
        invariant trouble == old(trouble) && (progress == count ==> Reaches(loc, count))
        invariant progress == |buffer| <= count && Valid() && Flat() == f
                  && 0 <= faults - old(faults) <= trouble - old(trouble)
        invariant old(Coherent()) ==> Coherent() && (progress > 0 ==> loc + progress <= |f|)
        invariant old(Coherent()) ==> buffer == if progress == 0 then [] else f[loc..loc + progress]
        invariant DevStep(old(dev[..]), f, old(spoiled), dev[..], spoiled)
        decreases count - progress
      {
        var block := (loc + progress) / blockSize;
        BlockOf(loc + progress);
        LastBlock(loc, progress, count);
        ghost var d1, s1 := dev[..], spoiled;
        var cached := CacheBlock(block);
        DevStepTrans(old(dev[..]), f, old(spoiled), d1, s1, dev[..], spoiled);
        if !cached { return false, buffer; }
        var offset := (loc + progress) % blockSize;
        var chunk := if count - progress > blockSize - offset then blockSize - offset else count - progress;
        var bytes := cache[offset..offset + chunk];
        if old(Coherent()) {
          CachedBytes(offset, chunk);
          ReadMore(f, loc, buffer, bytes);
        }
        buffer := buffer + bytes;
        progress := progress + chunk;
      }
      return true, buffer;
    }

    static lemma ReadMore(f: seq<Byte>, loc: nat, buffer: seq<Byte>, bytes: seq<Byte>)
      requires loc + |buffer| + |bytes| <= |f| && buffer == (if buffer == [] then [] else f[loc..loc + |buffer|])
      requires bytes == f[loc + |buffer|..loc + |buffer| + |bytes|]
      ensures buffer + bytes == f[loc..loc + |buffer + bytes|]
    {
    }

    // The block of a byte on the way lies before the last block, or is it.
    lemma LastBlock(loc: nat, done: nat, count: nat)
      requires blockSize > 0 && done < count
      ensures Reaches(loc, count) ==> InDevice((loc + done) / blockSize)
      ensures InDevice((loc + done) / blockSize) && count - done <= blockSize - (loc + done) % blockSize ==>
              Reaches(loc, count)
    {
      var x, y := loc + done, loc + count - 1;
      DivMonotonic(x, y, blockSize);
      Product(x / blockSize, y / blockSize, blockSize);
      if count - done <= blockSize - x % blockSize { SameQuotient(x, y, blockSize); }
    }

    lemma InsideBlock(block: nat, end: nat)
      requires InDevice(block) && end <= blockSize
      ensures Start(block) + end <= dev.Length
    {
    }

    lemma NoneReached(loc: nat)
      requires blockSize > 0
      ensures Reaches(loc, 0)
    {
    }

    lemma BlockOf(x: nat)
      requires blockSize > 0
      ensures Start(x / blockSize) + x % blockSize == x && x / blockSize <= x && x % blockSize < blockSize
    {
      DivParts(x, blockSize);
      QuotientSmall(x / blockSize, blockSize);
    }

    // The buffer shows the flat bytes of its block.
    lemma CachedBytes(offset: nat, chunk: nat)
      requires Valid() && Coherent() && cachedBlock != NO_BLOCK && offset + chunk <= blockSize
      ensures InDevice(cachedBlock)
      ensures cache[offset..offset + chunk] == Flat()[Start(cachedBlock) + offset..Start(cachedBlock) + offset + chunk]
    {
    }

    // What one call of `_device_write` leaves outside the bytes it was asked to write.
    static ghost predicate OutsideStep(dev0: seq<Byte>, flat0: seq<Byte>, spoiled0: set<nat>, dev1: seq<Byte>,
                                       spoiled1: set<nat>,
                                       loc: nat, count: nat) {
      && |dev1| == |dev0| == |flat0|
      && forall x | 0 <= x < |dev0| && x !in spoiled1 && !(loc <= x < loc + count) ::
           dev1[x] == flat0[x] || (x !in spoiled0 && dev1[x] == dev0[x])
    }

    static lemma OutsideThenStep(dev0: seq<Byte>, flat0: seq<Byte>, spoiled0: set<nat>, dev1: seq<Byte>,
                                 flat1: seq<Byte>,
                                 spoiled1: set<nat>, dev2: seq<Byte>, spoiled2: set<nat>, loc: nat, count: nat,
                                     data: seq<Byte>)
      requires OutsideStep(dev0, flat0, spoiled0, dev1, spoiled1, loc, count) && |data| <= count
      requires DevStep(dev1, flat1, spoiled1, dev2, spoiled2) && flat1 == Put(flat0, loc, data)
      ensures OutsideStep(dev0, flat0, spoiled0, dev2, spoiled2, loc, count)
    {
      forall x | 0 <= x < |dev0| && !(loc <= x < loc + count) ensures flat1[x] == flat0[x] {
      }
    }

    // The copying loop of `_device_write`.
    method WriteThrough(data: seq<Byte>, loc: nat) returns (ok: bool, ghost k: nat)
      requires Valid() && loc + |data| < NO_BLOCK
      modifies this`dirty, this`cachedBlock, this`spoiled, this`faults, this`trouble, dev, cache
      ensures 0 <= faults - old(faults) <= trouble - old(trouble)
      ensures Valid() && k <= |data|
      ensures old(Coherent()) ==> (k > 0 ==> loc + k <= dev.Length) && Flat() == Put(old(Flat()), loc, data[..k])
      ensures old(Coherent()) && ok ==> Coherent() && k == |data|
      ensures old(Coherent()) ==> OutsideStep(old(dev[..]), old(Flat()), old(spoiled), dev[..], spoiled, loc, k)
      ensures ok <==> trouble == old(trouble) && Reaches(loc, |data|)
    {
      hide Overwrite, Put, Start, DevStep, OutsideStep, Flat, Coherent, Reaches, InDevice;
      NoneReached(loc);
      var progress := 0;
      k := 0;
      NothingPut(Flat(), loc, data);
      NothingOutside(dev[..], Flat(), spoiled, loc);
      while progress < |data|
        invariant trouble == old(trouble) && (progress == |data| ==> Reaches(loc, |data|))
        invariant progress == k <= |data| && Valid() && 0 <= faults - old(faults) <= trouble - old(trouble)
        invariant old(Coherent()) ==> Coherent() && (k > 0 ==> loc + k <= dev.Length)
        invariant old(Coherent()) ==> Flat() == Put(old(Flat()), loc, data[..k])
        invariant old(Coherent()) ==> OutsideStep(old(dev[..]), old(Flat()), old(spoiled), dev[..], spoiled, loc, k)
        decreases |data| - progress
      {
        var block := (loc + progress) / blockSize;
        BlockOf(loc + progress);
        LastBlock(loc, progress, |data|);
        ghost var d1, f1, s1 := dev[..], Flat(), spoiled;
        var cached := CacheBlock(block);
        if old(Coherent()) {
          OutsideThenStep(old(dev[..]), old(Flat()), old(spoiled), d1, f1, s1, dev[..], spoiled, loc, k, data[..k]);
        }
        if !cached { return false, k; }
        var offset := (loc + progress) % blockSize;
        var chunk := if |data| - progress > blockSize - offset then blockSize - offset else |data| - progress;
        if old(Coherent()) {
          InsideBlock(block, offset + chunk);
          PutMore(old(Flat()), loc, data, k, k + chunk);
          OutsideGrows(old(dev[..]), old(Flat()), old(spoiled), dev[..], spoiled, loc, k, k + chunk);
        }
        StoreInCache(offset, data[progress..progress + chunk]);
        progress := progress + chunk;
        k := progress;
      }
      return true, k;
    }

    static lemma NothingPut(s: seq<Byte>, loc: nat, data: seq<Byte>)
      ensures Put(s, loc, data[..0]) == s
    {
    }

    static lemma NothingOutside(dev0: seq<Byte>, flat0: seq<Byte>, spoiled0: set<nat>, loc: nat)
      requires |dev0| == |flat0|
      ensures OutsideStep(dev0, flat0, spoiled0, dev0, spoiled0, loc, 0)
    {
    }

    static lemma OutsideGrows(dev0: seq<Byte>, flat0: seq<Byte>, spoiled0: set<nat>, dev1: seq<Byte>,
                              spoiled1: set<nat>,
                              loc: nat, k: nat, n: nat)
      requires OutsideStep(dev0, flat0, spoiled0, dev1, spoiled1, loc, k) && k <= n
      ensures OutsideStep(dev0, flat0, spoiled0, dev1, spoiled1, loc, n)
    {
    }

    // A read, or a flush, is a step outside no bytes at all.
    static lemma DevStepOutside(dev0: seq<Byte>, flat0: seq<Byte>, spoiled0: set<nat>, dev1: seq<Byte>,
                                spoiled1: set<nat>, loc: nat)
      requires DevStep(dev0, flat0, spoiled0, dev1, spoiled1)
      ensures OutsideStep(dev0, flat0, spoiled0, dev1, spoiled1, loc, 0)
    {
    }

    // `memcpy(&cache[offset], ...); cache_state = CACHE_DIRTY`.
    method StoreInCache(offset: nat, bytes: seq<Byte>)
      requires Valid() && offset + |bytes| <= blockSize && cachedBlock != NO_BLOCK
      modifies this`dirty, cache
      ensures Valid() && Coherent() && dirty && InDevice(cachedBlock)
      ensures old(Coherent()) ==> Flat() == Overwrite(old(Flat()), Start(cachedBlock) + offset, bytes)
    {
      hide Overwrite, Start;
      CacheOverlay(dev[..], Start(cachedBlock), cache[..], offset, bytes);
      PutBytes(cache, offset, bytes);
      dirty := true;
    }

    ghost function Log(): seq<Entry>
      requires logged <= log.Length
      reads this, log
    {
      log[..logged]
    }

    // `_device_write`.  While installing, the bytes about to be overwritten are saved first; the entry
    // counts only once the whole write is done.
    method DeviceWrite(data: seq<Byte>, loc: nat) returns (ok: bool, ghost k: nat)
      requires Valid() && loc + |data| < NO_BLOCK
      modifies this`dirty, this`cachedBlock, this`spoiled, this`faults, this`trouble, this`logged, dev, cache, log
      ensures 0 <= faults - old(faults) <= trouble - old(trouble)
      ensures Valid() && k <= |data|
      ensures old(Coherent()) ==> (k > 0 ==> loc + k <= dev.Length) && Flat() == Put(old(Flat()), loc, data[..k])
      ensures old(Coherent()) && ok ==> Coherent() && k == |data|
      ensures old(Coherent()) ==> OutsideStep(old(dev[..]), old(Flat()), old(spoiled), dev[..], spoiled, loc, k)
      ensures !ok || uninstalling ==> Log() == old(Log())
      ensures uninstalling ==> log[..] == old(log[..])
      ensures old(Coherent()) && ok && !uninstalling ==> Log() == old(Log()) + [Saved(old(Flat()), loc, |data|)]
      ensures !ok && !uninstalling && old(Coherent()) && trouble == old(trouble) ==> k == 0
      ensures ok <==>
              && trouble == old(trouble) && Reaches(loc, |data|)
              && (uninstalling || old(logged) < UNINSTALL_DATA_MAX)
    {
      hide Overwrite, Put, Start, DevStep, OutsideStep, Coherent, Flat;
      ghost var flat0 := Flat();
      NothingPut(flat0, loc, data);
      NothingOutside(dev[..], flat0, spoiled, loc);
      if !uninstalling {
        if logged >= UNINSTALL_DATA_MAX { return false, 0; }
        ghost var log0 := log[..logged];
        var readOk, saved := DeviceRead(loc, |data|);
        DevStepOutside(old(dev[..]), flat0, old(spoiled), dev[..], spoiled, loc);
        if !readOk { return false, 0; }
        log[logged] := Entry(saved, loc);
        assert log[..logged] == log0;
      }
      ghost var d1, s1 := dev[..], spoiled;
      ok, k := WriteThrough(data, loc);
      if old(Coherent()) {
        OutsideGrows(old(dev[..]), flat0, old(spoiled), d1, s1, loc, 0, k);
        OutsideTrans(old(dev[..]), flat0, old(spoiled), d1, s1, dev[..], spoiled, loc, k);
      }
      if !ok { return; }
      if !uninstalling { logged := logged + 1; }
    }

    static lemma OutsideTrans(dev0: seq<Byte>, flat: seq<Byte>, spoiled0: set<nat>, dev1: seq<Byte>, spoiled1: set<nat>,
                              dev2: seq<Byte>, spoiled2: set<nat>, loc: nat, count: nat)
      requires OutsideStep(dev0, flat, spoiled0, dev1, spoiled1, loc, count)
      requires OutsideStep(dev1, flat, spoiled1, dev2, spoiled2, loc, count)
      ensures OutsideStep(dev0, flat, spoiled0, dev2, spoiled2, loc, count)
    {
    }

    // `reverse_uninstall_data`, through the second array as the source does.
    method ReverseUninstallData()
      requires Valid()
      modifies log
      ensures Valid() && Log() == Reverse(old(Log()))
      ensures forall i | 0 <= i < logged :: log[i] == old(log[logged - 1 - i])
    {
      var rev := new Entry[UNINSTALL_DATA_MAX](_ => Entry([], 0));
      var j: int := logged - 1;
      for i := 0 to logged
        invariant j == logged - 1 - i
        invariant log[..] == old(log[..])
        invariant forall m | 0 <= m < i :: rev[logged - 1 - m] == log[m]
      {
        rev[j] := log[i];
        j := j - 1;
      }
      forall m | 0 <= m < logged { log[m] := rev[m]; }
      assert forall m | 0 <= m < logged :: log[m] == old(log[logged - 1 - m]);
      assert log[..logged] == Reverse(old(log[..logged]));
    }

    // Every entry lies in whole blocks of the device.
    ghost predicate AllReach()
      requires blockSize > 0 && logged <= log.Length
      reads `logged, log
    {
      forall i | 0 <= i < logged :: Reaches(log[i].loc, |log[i].data|)
    }

    // `uninstall`: true only if every entry was applied in order and is on the device.  `failures` counts
    // the I/O calls that failed within each entry and in the last flush.  With at most one in each entry
    // all of them are applied, and the answer is false exactly if the last flush failed, which leaves a
    // dirty block behind.
    method Uninstall() returns (ret: bool, ghost failures: seq<nat>)
      requires Valid() && forall i | 0 <= i < logged :: log[i].loc + |log[i].data| < NO_BLOCK
      modifies this`dirty, this`cachedBlock, this`spoiled, this`faults, this`trouble, this`uninstalling, this`logged,
               dev, cache, log
      ensures 0 <= faults - old(faults) <= trouble - old(trouble)
      ensures Valid() && Log() == old(Log())
      ensures ret ==> !dirty && AllFit(dev[..], Log())
      ensures ret ==> dev[..] == Replay(old(dev[..]), Log(), |Log()|)
      ensures AllReach() && trouble == old(trouble) ==> ret
      ensures |failures| == logged + 1 && trouble == old(trouble) + Total(failures)
      ensures AllReach() && AtMostOneEach(failures[..logged]) ==>
                Coherent() && Flat() == Replay(old(dev[..]), Log(), |Log()|) && (ret <==> failures[logged] == 0)
      ensures failures[logged] == 0 <==> !dirty
      ensures AllReach() && trouble <= old(trouble) + 1 ==> (ret <==> !dirty)
    {
      hide Overwrite, Put, Start, OutsideStep, Total, Reaches, AtMostOneEach, Replay, Fits, AllFit, UpTo;
      failures := [];
      NoFailures();
      var flushFailed, writeFailed := false, false;
      uninstalling := true;
      dirty := false;
      cachedBlock := NO_BLOCK;
      spoiled := {};
      ghost var d0, entries, all := dev[..], Log(), AllReach();
      NoneYet(d0, entries);
      for i := 0 to logged
        invariant Valid() && uninstalling && log[..] == old(log[..]) && logged == old(logged)
                  && 0 <= faults - old(faults) <= trouble - old(trouble)
        invariant |failures| == i && trouble == old(trouble) + Total(failures)
        invariant all && AtMostOneEach(failures) ==> !flushFailed && !writeFailed
        invariant !flushFailed && !writeFailed ==> Coherent() && UpTo(d0, entries, i, Flat())
      {
        ghost var before, f := trouble, Flat();
        assert log[i] == entries[i] && (all ==> Reaches(log[i].loc, |log[i].data|));
        var failedFlush, failedWrite, _ := Apply(log[i], flushFailed || writeFailed);
        NextUpTo(d0, entries, i, f);
        MoreFailures(failures, trouble - before);
        failures := failures + [trouble - before];
        flushFailed := flushFailed || failedFlush;
        writeFailed := writeFailed || failedWrite;
      }
      ghost var before := trouble;
      AllUpTo(d0, entries, Flat());
      var flushed := FlushCache();
      ret := flushed && !flushFailed && !writeFailed;
      MoreFailures(failures, trouble - before);
      if Total(failures) <= 1 { FewInAll(failures); }
      assert (failures + [trouble - before])[..logged] == failures;
      failures := failures + [trouble - before];
      assert AllReach() ==> all;
    }

    // One entry of `uninstall`: one retry, after a flush and a reset of the cache.  As long as no flush
    // failed, the first k bytes of the entry are written and nothing else; all of them unless both tries
    // failed, for which it takes two I/O calls that fail.
    method Apply(e: Entry, ghost hopeless: bool) returns (flushFailed: bool, writeFailed: bool, ghost k: nat)
      requires Valid() && uninstalling && e.loc + |e.data| < NO_BLOCK
      requires !hopeless ==> Coherent()
      modifies this`dirty, this`cachedBlock, this`spoiled, this`faults, this`trouble, this`logged, dev, cache, log
      ensures 0 <= faults - old(faults) <= trouble - old(trouble)
      ensures Valid() && log[..] == old(log[..]) && logged == old(logged)
      ensures trouble <= old(trouble) + 1 && Reaches(e.loc, |e.data|) ==> !flushFailed && !writeFailed
      ensures k <= |e.data|
      ensures !hopeless && !flushFailed ==>
                (k > 0 ==> e.loc + k <= dev.Length) && Flat() == Put(old(Flat()), e.loc, e.data[..k])
      ensures !hopeless && !flushFailed && !writeFailed ==>
                Coherent() && Fits(old(Flat()), e) && Flat() == Put(old(Flat()), e.loc, e.data)
    {
      hide Overwrite, Start, OutsideStep;
      flushFailed, writeFailed, k := false, false, 0;
      ghost var f := Flat();
      var retry := false;
      while true
        invariant Valid() && log[..] == old(log[..]) && logged == old(logged) && k <= |e.data|
                  && 0 <= faults - old(faults) <= trouble - old(trouble)
        invariant !hopeless && !flushFailed ==>
                  Coherent() && (k > 0 ==> e.loc + k <= |f|) && Flat() == Put(f, e.loc, e.data[..k])
        invariant !retry ==> k == 0
        invariant Reaches(e.loc, |e.data|) ==>
                  (retry ==> trouble > old(trouble)) && (flushFailed ==> trouble > old(trouble) + 1)
        decreases !retry
      {
        var ok;
        ghost var j: nat;
        ok, j := DeviceWrite(e.data, e.loc);
        if ok {
          if !hopeless && !flushFailed {
            assert e.data[..j] == e.data;
            if e.data != [] { PutAgain(f, e.loc, e.data, k); }
            assert e.data[..|e.data|] == e.data;
          }
          k := |e.data|;
          break;
        }
        if retry {
          if !hopeless && !flushFailed { PutTwice(f, e.loc, e.data, k, j); }
          k := if j < k then k else j;
          writeFailed := true;
          break;
        }
        k := j;
        var flushed := FlushCache();
        if !flushed { flushFailed := true; }
        dirty := false;
        cachedBlock := NO_BLOCK;
        spoiled := {};
        retry := true;
      }
    }

    predicate StepReaches(step: Step)
      requires blockSize > 0
    {
      match step
      case Reading(loc, count) => Reaches(loc, count)
      case Writing(loc, data) => Reaches(loc, |data|)
    }

    // The reads, the writes and the final flush of an installation, up to the first failure.  `done`
    // steps were completed; `lost` are the bytes the next one wrote.
    method Install(steps: seq<Step>) returns (ok: bool, ghost done: nat, ghost lost: set<nat>)
      requires Valid() && Coherent() && !dirty && !uninstalling && logged == 0 && faults == 0
      requires forall i | 0 <= i < |steps| :: steps[i].InRange()
      modifies this`dirty, this`cachedBlock, this`spoiled, this`faults, this`trouble, this`logged, dev, cache, log
      ensures 0 <= faults - old(faults) <= trouble - old(trouble)
      ensures Valid() && !uninstalling && Undoable(old(dev[..]), Flat(), dev[..], spoiled, Log(), lost)
      ensures forall i | 0 <= i < logged ::
                log[i].loc + |log[i].data| < NO_BLOCK && Reaches(log[i].loc, |log[i].data|)
      ensures ok <==> trouble == old(trouble) && (forall i | 0 <= i < |steps| :: StepReaches(steps[i]))
                      && WriteCount(steps) <= UNINSTALL_DATA_MAX
      ensures ok ==> done == |steps| && logged == WriteCount(steps) && !dirty && spoiled == {}
      ensures ok ==> dev[..] == Flat() == Applied(old(dev[..]), steps)
      ensures done <= |steps| && (trouble == old(trouble) || done == |steps| ==> lost == {})
      ensures lost != {} ==> steps[done].Writing? && lost <= Range(steps[done].loc, |steps[done].data|)
    {
      hide Overwrite, Put, Start, OutsideStep, DevStep, Undoable, Coherent, Flat, Reaches, Range, WriteCount, Applied;
      ghost var d0 := dev[..];
      lost, done := {}, 0;
      StartUndoable();
      NoWrites(d0, steps);
      for i := 0 to |steps|
        invariant done == i && lost == {} && Valid() && Coherent() && !uninstalling
        invariant faults == old(faults) && trouble == old(trouble)
        invariant logged == WriteCount(steps[..i]) <= UNINSTALL_DATA_MAX
        invariant Flat() == Applied(d0, steps[..i])
        invariant Undoable(d0, Flat(), dev[..], spoiled, Log(), {})
        invariant forall j | 0 <= j < i :: StepReaches(steps[j])
        invariant forall j | 0 <= j < logged ::
                    log[j].loc + |log[j].data| < NO_BLOCK && Reaches(log[j].loc, |log[j].data|)
      {
        OneMoreStep(d0, steps, i);
        ok, lost := Perform(steps[i], d0);
        if !ok { return; }
        done := i + 1;
      }
      assert steps[..|steps|] == steps;
      ghost var f1, d1, s1 := Flat(), dev[..], spoiled;
      ok := FlushCache();
      FlushUndoable(d0, f1, d1, s1, dev[..], spoiled, Log());
    }

    // One step of an installation.
    method Perform(step: Step, ghost d0: seq<Byte>) returns (ok: bool, ghost lost: set<nat>)
      requires Valid() && Coherent() && !uninstalling && step.InRange()
      requires |d0| == dev.Length && Undoable(d0, Flat(), dev[..], spoiled, Log(), {})
      requires forall j | 0 <= j < logged :: log[j].loc + |log[j].data| < NO_BLOCK && Reaches(log[j].loc, |log[j].data|)
      modifies this`dirty, this`cachedBlock, this`spoiled, this`faults, this`trouble, this`logged, dev, cache, log
      ensures 0 <= faults - old(faults) <= trouble - old(trouble)
      ensures Valid() && Undoable(d0, Flat(), dev[..], spoiled, Log(), lost)
      ensures forall j | 0 <= j < logged :: log[j].loc + |log[j].data| < NO_BLOCK && Reaches(log[j].loc, |log[j].data|)
      ensures ok <==> trouble == old(trouble) && StepReaches(step) && old(logged) + step.Entries() <= UNINSTALL_DATA_MAX
      ensures ok ==> Coherent() && logged == old(logged) + step.Entries() && Flat() == step.On(old(Flat()))
      ensures ok || trouble == old(trouble) ==> lost == {}
      ensures lost != {} ==> step.Writing? && lost <= Range(step.loc, |step.data|)
    {
      hide Overwrite, Put, Start, OutsideStep, DevStep, Undoable, Coherent, Flat, Reaches, Range;
      ghost var f1, d1, s1, l1 := Flat(), dev[..], spoiled, Log();
      match step {
        case Reading(loc, count) =>
          var bytes;
          ok, bytes := DeviceRead(loc, count);
          DevStepOutside(d1, f1, s1, dev[..], spoiled, loc);
          NothingPut(f1, loc, []);
          WriteUnlogged(d0, f1, d1, s1, l1, loc, [], Flat(), dev[..], spoiled);
          NoBytes(loc);
          lost := {};
        case Writing(loc, data) =>
          ghost var k: nat;
          ok, k := DeviceWrite(data, loc);
          if ok {
            assert data[..k] == data;
            WriteLogged(d0, f1, d1, s1, l1, loc, data, Flat(), dev[..], spoiled);
            lost := {};
            assert forall j | 0 <= j < old(logged) :: log[j] == Log()[j] == l1[j];
            assert log[logged - 1] == Log()[logged - 1];
          } else {
            WriteUnlogged(d0, f1, d1, s1, l1, loc, data[..k], Flat(), dev[..], spoiled);
            lost := Range(loc, k);
            NoBytes(loc);
            FewerBytes(loc, k, |data|);
            assert forall j | 0 <= j < logged :: log[j] == Log()[j] == l1[j];
          }
      }
    }

    lemma StartUndoable()
      requires Shaped() && !dirty && logged == 0 <= log.Length
      ensures Undoable(dev[..], Flat(), dev[..], {}, Log(), {}) && Flat() == dev[..]
    {
    }

    // `reverse_uninstall_data` and `uninstall`, as after a failed installation or, with the log loaded
    // from its file, later.  A reported undo restores the device exactly when every byte that no entry
    // covers is the original one before the undo begins.
    method Undo(ghost d0: seq<Byte>, ghost lost: set<nat>) returns (undone: bool)
      requires Valid() && |d0| == dev.Length && Undoable(d0, Flat(), dev[..], spoiled, Log(), lost)
      requires forall i | 0 <= i < logged :: log[i].loc + |log[i].data| < NO_BLOCK && Reaches(log[i].loc, |log[i].data|)
      modifies this`dirty, this`cachedBlock, this`spoiled, this`faults, this`trouble, this`uninstalling, this`logged,
               dev, cache, log
      ensures 0 <= faults - old(faults) <= trouble - old(trouble)
      ensures Valid() && Log() == Reverse(old(Log()))
      ensures trouble == old(trouble) ==> undone
      ensures trouble <= old(trouble) + 1 ==> (undone <==> !dirty)
      ensures undone ==> forall x: nat | x < |d0| && x !in lost && x !in old(spoiled) :: dev[x] == d0[x]
      ensures undone ==> (dev[..] == d0 <==>
                          old(forall x: nat | x < |d0| && FirstCover(Log(), x).None? :: dev[x] == d0[x]))
    {
      hide Overwrite, Put, Start, OutsideStep, Undoable, Coherent, Flat, Replay, Reverse, AllFit, Fits, Covers,
           FirstCover, Reaches;
      ghost var d1, l1 := dev[..], Log();
      AllRestored(d0, Flat(), d1, spoiled, l1, lost);
      ReverseUninstallData();
      ghost var failures;
      undone, failures := Uninstall();
    }

    // An installation, ended by success or by the first failure, and then undone; `mid` is the device
    // between the two, after a success the original with every write applied.  Without I/O failures
    // the whole device is restored whatever was refused on the way; a single one is made up for wherever
    // it comes, but for the very last flush, which leaves a dirty block; after a successful installation a
    // reported undo restores it whatever had to be retried; and after a failed one a reported undo leaves
    // at most the bytes an unfinished write had written and those of the one block, `torn`, that the
    // device may have failed to write.
    method InstallAndUndo(steps: seq<Step>)
      returns (installed: bool, undone: bool, ghost mid: seq<Byte>, ghost done: nat, ghost lost: set<nat>,
               ghost torn: nat)
      requires Valid() && Coherent() && !dirty && !uninstalling && logged == 0 && faults == 0
      requires forall i | 0 <= i < |steps| :: steps[i].InRange()
      modifies this`dirty, this`cachedBlock, this`spoiled, this`faults, this`trouble, this`uninstalling, this`logged,
               dev, cache, log
      ensures 0 <= faults - old(faults) <= trouble - old(trouble)
      ensures installed ==> mid == Applied(old(dev[..]), steps)
      ensures installed ==>
                (forall i | 0 <= i < |steps| :: StepReaches(steps[i])) && WriteCount(steps) <= UNINSTALL_DATA_MAX
      ensures (&& trouble == old(trouble) && (forall i | 0 <= i < |steps| :: StepReaches(steps[i]))
               && WriteCount(steps) <= UNINSTALL_DATA_MAX) ==> installed
      ensures trouble == old(trouble) ==> undone && dev[..] == old(dev[..])
      ensures trouble <= old(trouble) + 1 ==> (undone <==> !dirty)
      ensures installed && undone ==> dev[..] == old(dev[..])
      ensures undone ==> forall x: nat | x < dev.Length && x !in lost :: dev[x] == old(dev[x])
      ensures done <= |steps| && (installed ==> done == |steps| && lost == {})
      ensures forall x | x in lost ::
                (done < |steps| && steps[done].Writing? && steps[done].loc <= x < steps[done].loc + |steps[done].data|)
                || (faults > 0 && Start(torn) <= x < Start(torn) + blockSize)
    {
      hide Overwrite, Put, Start, OutsideStep, Undoable, Coherent, Flat, Replay, Reverse, AllFit, Fits, Covers,
           FirstCover, Reaches, StepReaches, WriteCount, Applied;
      ghost var d0 := dev[..];
      installed, done, lost := Install(steps);
      mid := dev[..];
      ghost var s1, b1 := spoiled, cachedBlock;
      undone := Undo(d0, lost);
      lost, torn := lost + s1, b1;
      if lost == {} && undone { assert dev[..] == d0; }
    }
  }

  function Total(failures: seq<nat>): nat {
    if failures == [] then 0 else Total(failures[..|failures| - 1]) + failures[|failures| - 1]
  }

  predicate AtMostOneEach(failures: seq<nat>) { forall i | 0 <= i < |failures| :: failures[i] <= 1 }

  lemma NoFailures()
    ensures Total([]) == 0 && AtMostOneEach([])
  {
  }

  lemma MoreFailures(failures: seq<nat>, n: nat)
    ensures Total(failures + [n]) == Total(failures) + n
    ensures AtMostOneEach(failures + [n]) <==> AtMostOneEach(failures) && n <= 1
  {
    var more := failures + [n];
    assert more[..|failures|] == failures && more[|failures|] == n;
    assert forall i | 0 <= i < |failures| :: more[i] == failures[i];
  }

  lemma {:induction false} FewInAll(failures: seq<nat>)
    requires Total(failures) <= 1
    ensures AtMostOneEach(failures)
  {
    if failures != [] {
      var last := |failures| - 1;
      FewInAll(failures[..last]);
      assert failures == failures[..last] + [failures[last]];
      MoreFailures(failures[..last], failures[last]);
    }
  }

  // A step of an installation: every read and write of the program goes through one of these.
  datatype Step = Reading(loc: nat, count: nat) | Writing(loc: nat, data: seq<Byte>) {
    predicate InRange() {
      match this
      case Reading(loc, count) => loc + count < NO_BLOCK
      case Writing(loc, data) => loc + |data| < NO_BLOCK
    }

    function Entries(): nat { if Writing? then 1 else 0 }

    // The bytes of the device after the step.
    function On(s: seq<Byte>): seq<Byte> { if Writing? then Put(s, loc, data) else s }
  }

  // The bytes of the device after all the steps.
  function Applied(s: seq<Byte>, steps: seq<Step>): seq<Byte> {
    if steps == [] then s else steps[|steps| - 1].On(Applied(s, steps[..|steps| - 1]))
  }

  function WriteCount(steps: seq<Step>): nat {
    if steps == [] then 0 else WriteCount(steps[..|steps| - 1]) + steps[|steps| - 1].Entries()
  }

  lemma NoWrites(s: seq<Byte>, steps: seq<Step>)
    ensures WriteCount(steps[..0]) == 0 && Applied(s, steps[..0]) == s
  {
  }

  lemma {:induction false} OneMoreStep(s: seq<Byte>, steps: seq<Step>, i: nat)
    requires i < |steps|
    ensures Applied(s, steps[..i + 1]) == steps[i].On(Applied(s, steps[..i]))
    ensures WriteCount(steps[..i + 1]) == WriteCount(steps[..i]) + steps[i].Entries()
    ensures WriteCount(steps[..i + 1]) <= WriteCount(steps)
    decreases |steps| - i
  {
    assert steps[..i + 1][..i] == steps[..i];
    if i + 1 < |steps| {
      OneMoreStep(s, steps, i + 1);
    } else {
      assert steps[..i + 1] == steps;
    }
  }

  lemma NoBytes(loc: nat)
    ensures Range(loc, 0) == {}
  {
  }

  lemma FewerBytes(loc: nat, k: nat, n: nat)
    requires k <= n
    ensures Range(loc, k) <= Range(loc, n)
  {
  }

  // The final flush, done or failed.
  lemma FlushUndoable(d0: seq<Byte>, flat: seq<Byte>, dev0: seq<Byte>, spoiled0: set<nat>, dev1: seq<Byte>,
                      spoiled1: set<nat>,
                      log: seq<Entry>)
    requires Undoable(d0, flat, dev0, spoiled0, log, {}) && |dev1| == |dev0|
    requires dev1 == flat
             || (spoiled0 <= spoiled1 && forall x | 0 <= x < |dev0| && x !in spoiled1 :: dev1[x] == dev0[x])
    ensures Undoable(d0, flat, dev1, spoiled1, log, {})
  {
    hide FirstCover, Saves, AllFit;
  }

  lemma AllRestored(d0: seq<Byte>, flat: seq<Byte>, dev: seq<Byte>, spoiled: set<nat>, log: seq<Entry>, lost: set<nat>)
    requires Undoable(d0, flat, dev, spoiled, log, lost)
    ensures var r := Replay(dev, Reverse(log), |log|);
            && (forall x: nat | x < |d0| && x !in lost && x !in spoiled :: r[x] == d0[x])
            && (r == d0 <==> forall x: nat | x < |d0| && FirstCover(log, x).None? :: dev[x] == d0[x])
  {
    UndoExactly(d0, dev, log);
    forall x: nat | x < |d0| && x !in lost && x !in spoiled ensures Replay(dev, Reverse(log), |log|)[x] == d0[x] {
      UndoRestores(d0, flat, dev, spoiled, log, lost, x);
    }
  }

  // A write into the cached copy of a block is a write into the device view.
  lemma CacheOverlay(dev: seq<Byte>, start: nat, cache: seq<Byte>, offset: nat, bytes: seq<Byte>)
    requires start + |cache| <= |dev| && offset + |bytes| <= |cache|
    ensures Overwrite(dev, start, Overwrite(cache, offset, bytes))
            == Overwrite(Overwrite(dev, start, cache), start + offset, bytes)
    ensures cache == dev[start..start + |cache|] ==> Overwrite(dev, start, cache) == dev
  {
  }

  lemma DivParts(x: nat, d: nat)
    requires d > 0
    ensures x == x / d * d + x % d
  {
  }

  lemma {:induction false} Product(a: nat, b: nat, d: nat)
    requires a <= b
    ensures a * d <= b * d
  {
  }

  lemma Cancel(a: nat, b: nat, d: nat)
    requires a * d < b * d + d
    ensures a <= b
  {
    if a > b { Product(b + 1, a, d); }
  }

  lemma DivMonotonic(x: nat, y: nat, d: nat)
    requires x <= y && d > 0
    ensures x / d <= y / d
  {
    DivParts(x, d);
    DivParts(y, d);
    Cancel(x / d, y / d, d);
  }

  lemma SameQuotient(x: nat, y: nat, d: nat)
    requires d > 0 && x <= y < x + d - x % d
    ensures y / d == x / d
  {
    DivMonotonic(x, y, d);
    DivParts(x, d);
    DivParts(y, d);
    Cancel(y / d, x / d, d);
  }

  lemma QuotientSmall(q: nat, d: nat)
    requires d > 0
    ensures q <= q * d
  {
    assert q * d == q + q * (d - 1);
  }
}
