# IluminOS in Dafny

A model of the stateful core of IluminOS and of the disk installer it bundles, with proofs about it.
Five independent machines are modelled, each as a class whose methods change fields, arrays and bytes
in place as the source does, and each is proved against functions and predicates on values.

* **Virtual memory.** `FrameAllocator` is the bitmap of physical frames, which takes its own storage
  out of the memory it manages. `PageTables` defines what the processor's four-level walk of
  section 4.5 of the Intel SDM, Volume 3A, reads out of memory, and `TableEdits` proves what a single
  write does to all walks at once. `Paging` is the page-table code on top: a radix tree edited in
  physical memory refines a finite map from pages to entries, and a TLB that may hold any walks when
  the kernel starts and may cache any walk at any time stays coherent. What the code does with a large
  page on its way, which it takes for a table, is told as well, and so is what each walk allows: a page
  may be written or executed as its flags and every link above it say. `HeapWindow` and `Heap` are the
  heap that grows on page faults, whose pages are all writable. `BitmapStorage` lays the bitmap over the bytes of memory it occupies
  and shows that nothing read from tables or heap changes by it. `Boot` brings all up in order
  and runs any interleaving of stores with their page faults, cached walks, frame allocations and
  mappings elsewhere: no frame is ever used twice, what the program stores in its heap is what it
  reads back even through cached walks, and with frames enough nothing panics.
* **Filesystem.** `FsLayout` is the on-disk encoding, `FsInvariant` the ownership of blocks and the
  directory tree, and `Fs` the operations over an array of sectors. The marked blocks are exactly the
  blocks of the files, no block belongs to two, so at most 768 of 2000 are ever used and the "disk
  full" exit of `write`, which would leave freed blocks referenced, is never taken. `FsTree` is the
  disk seen from outside, a finite map of named files with their contents: every command is one step
  of that map, with its answer, so that after any run a file holds what was last written to it.
* **The installer's block cache.** `BlockCache` is the one-block write-back cache of `limine.c`, its
  log of overwritten bytes and the undo that replays the log backwards, over a device whose seeks,
  reads and writes may fail at any point. `Chs` and `SignatureScan` are two small algorithms of the
  same file.
* **Expression interpreter.** `ScriptGrammar` is the grammar and the meaning of expressions,
  `ScriptPrinter` writes them with the fewest parentheses, `ScriptRun` says what the evaluator comes to
  on any tokens, past a fault as well, and that on an expression this is the expression's fate,
  `ScriptFaults` says of texts that are no expression when they can panic and which error they get, and
  `Script` is the tokenizer and the recursive-descent evaluator, with 64-bit arithmetic that stops on
  overflow.
* **Modal editor.** `EditorText` relates lines to file bytes and says what every edit does to both,
  `EditorKeys` what each key does to a session and what whole runs keep, `Editor` is the fixed
  23 by 79 grid, and `EditorOnDisk` edits a file of the filesystem.

`Bits`, `Bitmaps`, `Buffers` and `Wrappers` are shared by them.

Main results: `Boot.BootAndRun`, `Heap.KernelHeap.Run`, `Paging.AddressSpace.Map`,
`Fs.FileSystem.Write` with `Fs.WriteThenRead`, `FsTree.Run` with `FsTree.LastFill`,
`Fs.FileSystem.FindRecursive`, `BlockCache.Cache.Undo`,
`BlockCache.Cache.InstallAndUndo`, `BlockCache.Cache.Uninstall`, `Script.EvalExpr` with
`Script.WrittenDenotes` and `Script.CalculatedAnywhere`, `EditorKeys.TypingTakenBack`, `EditorText.SaveAfterLoad` and
`EditorOnDisk.EditFile`.

Where the code does something its reader might not expect, the model follows the code:

* A file with 23 or more newlines is opened with its 23rd line missing, not truncated after it
  (`EditorText.LastRowIsDropped`), so saving it loses text; `EditorText.SaveAfterLoad` gives the exact
  condition for a faithful round trip.
* The editor ignores the result of `fs::write`. Its saves reach the disk exactly when the current
  directory has a plain file of that name before the session (`EditorOnDisk.EditFile`); on any other
  name every `:w` is lost although the unsaved mark disappears (`EditorOnDisk.SaveClearsMark`).
* A stored name ends at its first NUL, but `create` and `mkdir` look for the whole name: one with a NUL
  is never refused as taken, and the disk stays in order exactly when the part before the NUL is neither
  empty nor taken (`Fs.FileSystem.Create`, with an example in `Fs.FileSystem.NulNameLost`).
* `pwd_into` keeps the last 16 components and cuts the text at 256 bytes, or panics, which happens
  exactly when the components before the last already fill the buffer; its answer is the path exactly
  when that has at most 16 components and 256 bytes (`Fs.FileSystem.PwdInto`). Ten directories with the
  longest names inside each other are cut, eleven panic (`Fs.FileSystem.DeepPaths`).
* The signature scan stops one signature length short of the end, so an image of the minimum size it
  accepts is never enrolled (`SignatureScan.SmallestImageMissed`).
* `next_table` and `next_table_existing` take a large-page entry for a table
  (`Paging.AddressSpace.NextTable`, `Paging.AddressSpace.ExistingIsChild`). With one on the path `map`
  reports success and changes no translation, `unmap` leaves the page mapped, and both write into the
  frame they found; each does what it says exactly when there is none (`Paging.AddressSpace.Map`,
  `Paging.AddressSpace.Unmap`). `is_mapped` is then right exactly when a bit of that frame happens to be
  set (`Paging.AddressSpace.IsMapped`); `PageTables.LargePageMisread` is a memory where it is not.
* The bitmap is stored from the start of the first entry large enough, but the frames taken out for it
  are counted from the frame of that address. They house it exactly when the entry does not start too
  far into a frame (`FrameAllocator.HousedWhenFits`, `FrameAllocator.FrameBitmap.TryInit`), which every
  page-aligned map sees to (`FrameAllocator.AlignedFits`); in `FrameAllocator.UnalignedBitmapIsShared`
  the end of the bitmap lies in a free frame. This too is hypothetical: the Limine boot protocol aligns
  USABLE entries to pages, though the code does not check it.
* Were frame 0 free, the first allocation would hand it out for the root table, and the kernel would
  take itself to have no tables of its own (`Paging.AddressSpace.Init`). This is hypothetical: it needs
  a memory map with an entry for frame 0 marked USABLE (`FrameAllocator.FrameZeroCanBeFree`), which
  nothing in the code excludes, and no bootloader is known to send one.
* A write to the device that fails part-way is not logged, so an undo leaves the bytes it had written
  (`BlockCache.UnfinishedWriteStays`). A reported undo restores the device exactly when every byte that
  no log entry covers is the original one when it begins (`BlockCache.Cache.Undo`), which holds after
  every successful installation and whenever no I/O call fails (`BlockCache.Cache.InstallAndUndo`).
* In `calc`, `1 /` and `1 / )` are a division by zero, not a missing value: what stands for the missing
  operand is a zero (`ScriptFaults.OperandMissing`). A second `*` or `/` in a row is likewise read as if
  a zero stood before it (`ScriptFaults.OperatorMisplaced`).
* `:q` does not ask about unsaved changes (`EditorKeys.CommandRuns`).

## Model

| member | source | states |
|---|---|---|
| Bitmaps.OrTakesOne | kernel/src/mem/allocator.rs:32-34 | setting a bit takes exactly that index out of the free set of the whole bitmap |
| Bitmaps.AndNotGivesOne | kernel/src/mem/allocator.rs:36-38 | clearing a bit adds exactly that index |
| FrameAllocator.FrameBitmap.SetUsed | kernel/src/mem/allocator.rs:32-34 | the free set loses exactly this frame |
| FrameAllocator.FrameBitmap.SetFree | kernel/src/mem/allocator.rs:36-38 | the free set gains exactly this frame |
| FrameAllocator.FrameBitmap.MarkRangeUsed | kernel/src/mem/allocator.rs:40-44 | the free set loses exactly the range |
| FrameAllocator.FrameBitmap.MarkRangeFree | kernel/src/mem/allocator.rs:46-50 | the free set gains exactly the range |
| FrameAllocator.FrameBitmap.FindFreeRun | kernel/src/mem/allocator.rs:53-73 | the smallest start of a free run, None exactly when there is none or the count is zero |
| FrameAllocator.FrameBitmap.AllocFrames | kernel/src/mem/allocator.rs:119-125 | takes the first free run out of the free set, never a reserved frame; fails, changing nothing, exactly when no run exists |
| FrameAllocator.FrameBitmap.FreeFrame | kernel/src/mem/allocator.rs:83-88 | returns the frame of an address, ignoring addresses beyond the bitmap |
| FrameAllocator.HighestAddress | kernel/src/mem/allocator.rs:157-158 | the least upper bound of all entries' ends |
| FrameAllocator.UsableFramesAreCovered | kernel/src/mem/allocator.rs:184-191 | for a page-aligned map the frames opened up are exactly those lying in a USABLE entry |
| FrameAllocator.HousedWhenFits | kernel/src/mem/allocator.rs:175-195 | the frames counted from the one of the first byte house the bitmap exactly when that byte is not too far into its frame |
| FrameAllocator.AlignedFits | kernel/src/mem/allocator.rs:175-195 | every page-aligned map meets that condition |
| FrameAllocator.UnalignedBitmapIsShared | kernel/src/mem/allocator.rs:175-195 | a concrete map whose bitmap ends in a frame that is free |
| FrameAllocator.FrameZeroCanBeFree | kernel/src/mem/allocator.rs:167-195 | a concrete map that leaves frame 0 free |
| FrameAllocator.FrameBitmap.FindRegion | kernel/src/mem/allocator.rs:167-173 | the first USABLE entry large enough for the bitmap |
| FrameAllocator.FrameBitmap.OpenUsable | kernel/src/mem/allocator.rs:179-191 | from all-used, the free set becomes the USABLE frames |
| FrameAllocator.FrameBitmap.TryInit | kernel/src/mem/allocator.rs:146-199 | succeeds exactly when map, offset and room for the bitmap are there; the free set is then the USABLE frames minus those taken out for the bitmap, which house it exactly when its entry does not start too far into a frame |
| PageTables.AlignDownIs | kernel/src/mem/paging.rs:48-50 | masking rounds down to a multiple of 4096 |
| PageTables.AddrField | kernel/src/mem/paging.rs:13 | the address mask extracts the page-aligned physical address of an entry |
| PageTables.LeafEntryMeans | kernel/src/mem/paging.rs:99 | with no address bits in the flags, the leaf entry is present and names the frame of `phys` |
| PageTables.LeafEntryBits | kernel/src/mem/paging.rs:99 | bit by bit it is the page's address, the flags and the present bit, and nothing more |
| PageTables.LeafRights | kernel/src/mem/paging.rs:99 | it allows what the flags allow |
| PageTables.LeafEntryIsPresent | kernel/src/mem/paging.rs:99 | whatever the address and flags, the entry written is a present one and carries every flag |
| PageTables.LinkEntryMeans | kernel/src/mem/paging.rs:52-62 | the link entry is present and writable, maps no large page, names the new table's frame and takes no right away from the pages below it |
| PageTables.LinkEntryBits | kernel/src/mem/paging.rs:60 | bit by bit it is the table's address, the present and the writable bit |
| PageTables.RightsAlongAre | kernel/src/mem/paging.rs:7-11 | a page may be written exactly when every entry of its walk has the writable bit, and executed exactly when none has the no-execute bit |
| PageTables.RightsOfWalk | kernel/src/mem/paging.rs:87-102 | a page's rights are those of its leaf, cut down by the three links above it |
| PageTables.Indices | kernel/src/mem/paging.rs:40-46 | the four shifts and masks are the radix digits that name the page |
| PageTables.KeyNamesPage | kernel/src/mem/paging.rs:40-46 | two addresses share all four indices exactly when they lie in the same page of the 48-bit space |
| PageTables.WalkOfLeaf | kernel/src/mem/paging.rs:130-152 | once three tables are there, the page is mapped exactly when the leaf is present, and to that leaf |
| PageTables.WalkOfGap | kernel/src/mem/paging.rs:64-67 | a walk that misses a table faults |
| PageTables.FollowedTree | kernel/src/mem/paging.rs:64-67 | without a large page on the path the code finds exactly the tables of the tree |
| PageTables.HugeIsMapped | kernel/src/mem/paging.rs:64-67 | with one the page is mapped, by fewer than four entries |
| PageTables.LargePageMisread | kernel/src/mem/paging.rs:130-152 | a concrete memory in which a mapped page is taken to be unmapped |
| TableEdits.LinkTables | kernel/src/mem/paging.rs:52-62 | linking a cleared frame adds a table at exactly one path of the tree |
| TableEdits.LinkWalk | kernel/src/mem/paging.rs:52-62 | linking a fresh table changes no page's walk |
| TableEdits.LinkKeepsRights | kernel/src/mem/paging.rs:52-62 | nor what the links on any path allow |
| TableEdits.LinkKeepsTree | kernel/src/mem/paging.rs:52-62 | the tables still form a tree without sharing |
| TableEdits.LeafWalk | kernel/src/mem/paging.rs:98-101 | writing one leaf entry leaves every other page's walk unchanged entry by entry |
| TableEdits.LeafReadsBack | kernel/src/mem/paging.rs:98-101 | the written page reads the new entry back, or faults when it is not present |
| TableEdits.LeafUpdatesPages | kernel/src/mem/paging.rs:98-101 | as a finite map, exactly one key is set or removed |
| TableEdits.DataKeepsAll | kernel/src/mem/heap.rs:28-38 | overwriting a frame that is no table changes no table, walk or page |
| TableEdits.CopyKeepsAll | kernel/src/mem/paging.rs:69-81 | switching to a copy of the root preserves every translation and the tree |
| TableEdits.SharedKeepsAll | kernel/src/mem/paging.rs:69-81 | memories that agree on the frames of the tables have the same tree, walks and pages |
| Paging.AddressSpace.Init | kernel/src/mem/paging.rs:69-81 | the root is switched to a fresh frame, every walk, table and cached translation survives; panics exactly without a free frame |
| Paging.AddressSpace.NextTable | kernel/src/mem/paging.rs:52-62 | returns the child table, linking a cleared fresh one if missing, by a writable link that changes what no path allows; a large page is taken for a table, and exactly then the frame returned is not the tree's child; fails exactly when the table is missing and no frame is free |
| Paging.AddressSpace.TablesFor | kernel/src/mem/paging.rs:92-97 | all three tables above the page exist afterwards, or a data frame behind a large page is found and no translation changes; fails exactly when fewer frames are free than tables missing, or none for a word behind a large page |
| Paging.AddressSpace.WriteLeaf | kernel/src/mem/paging.rs:98-101 | one entry is written and only that page's cached translation goes; on a data frame no translation changes |
| Paging.AddressSpace.Map | kernel/src/mem/paging.rs:87-102 | exactly the target page becomes the new entry, with the rights of `flags` as far as the links already on its path leave them, every other walk is unchanged, the frames taken are the new tables, the TLB loses one page, all if and only if no large page is on the path; with one it reports success and changes no translation; the outcomes are told apart exactly |
| Paging.AddressSpace.ExistingIsChild | kernel/src/mem/paging.rs:64-67 | a read-only step follows the tree exactly where there is no large page |
| Paging.AddressSpace.Unmap | kernel/src/mem/paging.rs:105-128 | exactly one page is removed and invalidated; it stays mapped exactly when a large page is on its path |
| Paging.AddressSpace.IsMapped | kernel/src/mem/paging.rs:130-152 | decides the domain of the finite map exactly when no large page is on the path or the word it looks at there has its lowest bit set |
| Paging.AddressSpace.Translate | kernel/src/mem/paging.rs:31-33 | from the TLB or by a walk, the processor gets the entry the page is mapped by, a fault on a page that is not, and a fault with the present bit on a write that some entry of the walk forbids |
| Paging.ThreeLinks | kernel/src/mem/paging.rs:92-97 | three calls of `next_table` together add only the missing tables on one path |
| Paging.PreparedThenWritten | kernel/src/mem/paging.rs:87-102 | preparing the tables and writing the leaf is one map update |
| HeapWindow.KeyOfWindowAddress | kernel/src/mem/heap.rs:60-70 | rounding a faulting address down stays in its window page |
| HeapWindow.PageKeyInjective | kernel/src/mem/heap.rs:10-13 | distinct window pages have distinct indices |
| HeapWindow.WindowPagesAfter | kernel/src/mem/heap.rs:28-38 | mapping a window page adds that page alone and keeps the others' frames |
| HeapWindow.BackedAfter | kernel/src/mem/heap.rs:28-38 | window pages stay backed by distinct used frames that are neither tables nor bitmap |
| HeapWindow.WritableAfter | kernel/src/mem/heap.rs:28-38 | every page of the window stays writable and not executable, its links included |
| HeapWindow.SameUseKeeps | kernel/src/mem/heap.rs:28-38 | so it does while the window's walks and links are what they were |
| HeapWindow.AccountedAfter | kernel/src/mem/heap.rs:28-38 | every frame gone from the budget is a heap page's or one of 34 window tables |
| HeapWindow.BackedElsewhere | kernel/src/mem/paging.rs:87-102 | mapping outside the window leaves the window backed as before |
| HeapWindow.Bill | kernel/src/mem/heap.rs:28-82 | the frames taken for the window are one a page and at most 34 tables |
| Heap.KernelHeap.BackPage | kernel/src/mem/heap.rs:28-38 | one more page is backed by a free frame, writable and not executable along its whole walk, contents and other walks kept; both failures stated exactly |
| Heap.KernelHeap.MapAndCommit | kernel/src/mem/heap.rs:28-38 | the pages backed grow by exactly the range and COMMITTED by its length; succeeds when the budget covers the range and 37 frames |
| Heap.KernelHeap.Init | kernel/src/mem/heap.rs:40-58 | exactly the first 256 pages are backed, or the emergency block is used when there are no own tables |
| Heap.KernelHeap.Grow | kernel/src/mem/heap.rs:60-82 | true adds exactly the faulting page, writable and not executable, and 4096 to COMMITTED; false changes nothing and happens exactly outside the window, on a mapped page, or without frames; the panic has its exact condition |
| Heap.KernelHeap.Reach | kernel/src/mem/fault.rs:81-99 | an access, a write included, faults exactly on a page not backed and is never denied; otherwise a cached walk and a fresh one lead to the page's own frame |
| Heap.KernelHeap.Access | kernel/src/mem/fault.rs:81-99 | a missing page is grown and the access retried; the frame reached, by a cached walk or a fresh one, is the page's own, and for a write one that may be written; fails exactly when the page is missing and there are too few frames for it and its tables |
| Heap.KernelHeap.StoreWord | kernel/src/mem/fault.rs:81-88 | a store into a page whose walk allows it changes that word and no table, bitmap frame or other heap page |
| Heap.KernelHeap.TouchPage | kernel/src/mem/fault.rs:81-99 | the word is stored and every other word keeps its value; fails exactly on a missing page with too few frames |
| Heap.KernelHeap.TakeFrames | kernel/src/mem/allocator.rs:119-125 | a driver's allocation keeps every invariant |
| Heap.KernelHeap.MapOutside | kernel/src/mem/paging.rs:87-102 | a mapping outside the window keeps every invariant and every heap word |
| Heap.KernelHeap.UnmapOutside | kernel/src/mem/paging.rs:105-128 | so does an unmapping |
| Heap.KernelHeap.Run | kernel/src/mem/heap.rs:28-82 | over any interleaving, with walks cached at any time: all invariants, every page writable, pages gained equal faults served, COMMITTED is 4096 a page, every last store can be read back, and no panic when the budget covers the demand |
| Boot.FreshAllocator | kernel/src/mem/allocator.rs:146-199 | the bootloader's tables are never in the free set |
| Boot.BitmapInMemory | kernel/src/mem/allocator.rs:175-177 | every byte of the bitmap, from its address on, lies in memory and in the frames taken out for it |
| Boot.NewSpace | kernel/src/mem/allocator.rs:146-199 | over the bootloader's tables and any TLB it leaves, the allocator is up exactly when it can start; free are then exactly the USABLE frames but those taken out for the bitmap |
| Boot.PagingInit | kernel/src/mem/mod.rs:7-12 | allocator and root switch keep every translation; fails only without frames |
| Boot.MemInit | kernel/src/mem/mod.rs:7-12 | all subsystems up and valid, translations outside the window kept; fails only when fewer than 294 usable frames are left beside the bitmap |
| Boot.BootAndRun | kernel/src/mem/mod.rs:7-12 | from power-on the heap has 256 pages and one for every fault served, at most 16128, all writable and not executable, COMMITTED counts them, every last store is read back under the kernel's cr3, with the bitmap in place as well, and enough USABLE frames keep any run alive |
| BitmapStorage.BitmapReads | kernel/src/mem/allocator.rs:175-177 | every byte of the bitmap is read back at its physical address, and every other byte of memory is what it was |
| BitmapStorage.BitmapByteWritten | kernel/src/mem/allocator.rs:32-38 | changing a byte of the bitmap changes that byte of memory and no other |
| BitmapStorage.TablesBesideBitmap | kernel/src/mem/allocator.rs:193-195 | with the bitmap stored in its reserved frames, tables, walks and pages are the same |
| BitmapStorage.HeapBesideBitmap | kernel/src/mem/allocator.rs:193-195 | so are the heap's pages and all their words |
| BitmapStorage.WritesCommute | kernel/src/mem/allocator.rs:193-195 | a write to a frame without a byte of the bitmap is the same with the bitmap in place |
| FsLayout.LeRoundTrip | kernel/src/fs/mod.rs:109-183 | little-endian words, low byte first, read back |
| FsLayout.EncodeFields | kernel/src/fs/mod.rs:149-183 | where each field of the record lies |
| FsLayout.NameReadsBack | kernel/src/fs/mod.rs:125-134 | a stored name reads back exactly when it has no NUL |
| FsLayout.InodeRoundTrip | kernel/src/fs/mod.rs:109-183 | decoding an encoded inode gives it back exactly when its name has no NUL, and otherwise with the name cut there; an unused one as empty |
| FsLayout.InodeWritten | kernel/src/fs/mod.rs:149-183 | writing an inode leaves the other inode of its sector, the bitmap and all others intact |
| FsLayout.BlockWritten | kernel/src/fs/mod.rs:424-461 | data blocks lie apart from inodes and bitmap |
| FsLayout.BitmapWritten | kernel/src/fs/mod.rs:70-77 | the bitmap sectors lie apart from the inodes |
| FsInvariant.ReleaseBlock | kernel/src/fs/mod.rs:94-105 | releasing a held block keeps marked blocks equal to held blocks |
| FsInvariant.TakeBlock | kernel/src/fs/mod.rs:79-92 | so does taking an unmarked one |
| FsInvariant.BlocksBound | kernel/src/fs/mod.rs:79-105 | at most 768 of the 2000 blocks are marked |
| FsInvariant.RoomForBlock | kernel/src/fs/mod.rs:79-92 | a free block always exists |
| FsInvariant.DepthBound | kernel/src/fs/mod.rs:269-281 | no directory chain is longer than the inode table |
| FsInvariant.EntryUnique | kernel/src/fs/mod.rs:228-236 | a name names at most one entry of a directory |
| FsInvariant.EntryAdded | kernel/src/fs/mod.rs:302-339 | a new entry keeps tree, unique names and ownership |
| FsInvariant.EntryRemoved | kernel/src/fs/mod.rs:464-486 | so does removing a childless one |
| FsInvariant.UsageIsDemand | kernel/src/fs/mod.rs:488-500 | as many blocks are marked as the file sizes call for |
| FsInvariant.OneBranch | kernel/src/fs/mod.rs:269-281 | an inode lies below one child of a directory only |
| FsInvariant.ScopeStep | kernel/src/fs/mod.rs:269-281 | what one more child adds to a search, without overlap |
| FsInvariant.BranchesInOrder | kernel/src/fs/mod.rs:269-281 | what lies below an earlier child comes before the branch of a later one |
| Fs.FileSystem.AllocBlock | kernel/src/fs/mod.rs:79-92 | marks the first unmarked block and nothing else; None only when all 2000 are marked |
| Fs.FileSystem.FreeBlock | kernel/src/fs/mod.rs:94-105 | unmarks exactly the block, ignoring addresses below the data area |
| Fs.FileSystem.ReadInode | kernel/src/fs/mod.rs:109-147 | decodes the inode at its slot |
| Fs.FileSystem.WriteInode | kernel/src/fs/mod.rs:149-183 | exactly one inode of the table changes, to the one written with its name cut at a NUL; no block or mark does |
| Fs.FileSystem.FindInDir | kernel/src/fs/mod.rs:228-236 | the first entry with the name, None exactly when there is none |
| Fs.FileSystem.AllocInode | kernel/src/fs/mod.rs:292-299 | the first unused inode, None exactly when all are used |
| Fs.FileSystem.Create | kernel/src/fs/mod.rs:302-319 | each refusal exactly under its condition; otherwise one new empty file and nothing else; the invariant is kept exactly when the name, cut at its first NUL, is not empty and not taken |
| Fs.FileSystem.Mkdir | kernel/src/fs/mod.rs:322-339 | the same for a directory |
| Fs.FileSystem.NulNameLost | kernel/src/fs/mod.rs:302-339 | a concrete directory and name with a NUL that is accepted although the name it is read as is taken |
| Fs.FileSystem.Format | kernel/src/fs/mod.rs:187-209 | root directory only, nothing marked, data area untouched |
| Fs.FileSystem.Mount | kernel/src/fs/mod.rs:211-219 | a disk with the magic number keeps everything, any other is formatted; it is in order afterwards exactly when it was or had no magic number |
| Fs.FileSystem.Chdir | kernel/src/fs/mod.rs:342-363 | the current directory moves to a live directory or stays, each outcome exactly |
| Fs.FileSystem.ReleaseAll | kernel/src/fs/mod.rs:434-439 | every block of a file is freed, no other mark changes |
| Fs.FileSystem.StoreBlocks | kernel/src/fs/mod.rs:446-456 | the new blocks hold the data in order, blocks of other files are untouched, and allocation cannot fail |
| Fs.FileSystem.Write | kernel/src/fs/mod.rs:424-461 | on success the file holds exactly the data, every other file keeps inode and content; each error exactly; never "disk full" |
| Fs.FileSystem.Read | kernel/src/fs/mod.rs:399-422 | the content of the named file, each error exactly |
| Fs.WriteThenRead | kernel/src/fs/mod.rs:399-461 | a read after a successful write returns the data written |
| Fs.FileSystem.Remove | kernel/src/fs/mod.rs:464-486 | a file or empty directory goes with its blocks, everything else stays; each refusal exactly |
| Fs.FileSystem.Drop | kernel/src/fs/mod.rs:478-485 | neither the root nor the current directory can be removed |
| Fs.FileSystem.UsedBlocks | kernel/src/fs/mod.rs:488-500 | equals what the files' sizes need, at most 768 |
| Fs.FileSystem.FindRecursive | kernel/src/fs/mod.rs:269-281 | terminates and reports every matching descendant exactly once, with its kind, depth first in the order of the inodes |
| Fs.FileSystem.PwdInto | kernel/src/fs/mod.rs:366-395 | the first 256 bytes of the last 16 components; panics exactly when the components before the last have 256 bytes or more; is the full path exactly when that has at most 16 components and 256 bytes |
| Fs.FileSystem.ShownIsFullPath | kernel/src/fs/mod.rs:366-395 | what is shown is the full path exactly when that has at most 16 components and 256 bytes |
| Fs.FileSystem.DeepPaths | kernel/src/fs/mod.rs:366-395 | a concrete tree whose path is cut and one whose path panics |
| FsTree.CreateSeen | kernel/src/fs/mod.rs:302-339 | on the map, one new empty node in the lowest free place, under the name as it will be read, or one of three refusals in their order |
| FsTree.LostSeen | kernel/src/fs/mod.rs:302-339 | a name is lost on the map exactly when the disk falls out of order by it |
| FsTree.WriteSeen | kernel/src/fs/mod.rs:424-461 | on the map, the data of the one file named changes, or one of three refusals |
| FsTree.RemoveSeen | kernel/src/fs/mod.rs:464-486 | on the map, the one node named goes, or one of two refusals |
| FsTree.EnterSeen | kernel/src/fs/mod.rs:342-363 | on the map, only the current directory changes |
| FsTree.Perform | kernel/src/fs/mod.rs:211-486 | each command that loses no name, or a reboot, is one step of the map with its answer |
| FsTree.Run | kernel/src/fs/mod.rs:211-486 | any run of commands and reboots that loses no name keeps the whole invariant and is, answers included, a run of the map |
| FsTree.NoNulKeepsNames | kernel/src/fs/mod.rs:302-339 | names without NUL are never lost |
| FsTree.StepKeepsData | kernel/src/fs/mod.rs:302-486 | a step leaves a file alone unless it creates or writes it |
| FsTree.LastFill | kernel/src/fs/mod.rs:302-486 | after any run, every file holds what was last written to it, or nothing if it was created and never written |
| BlockCache.PutAgain | limine/limine.c:530-549 | a write begun and repeated from the start is the whole write |
| BlockCache.ReverseReplay | limine/limine.c:328-334 | replaying a log from its end leaves in each byte what its first cover saved |
| BlockCache.UndoExactly | limine/limine.c:520-551 | undoing restores a device if and only if the bytes no entry covers were never changed on it |
| BlockCache.WriteLogged | limine/limine.c:463-518 | a completed write keeps the installation undoable |
| BlockCache.WriteUnlogged | limine/limine.c:463-518 | an unfinished one loses at most the bytes it had written |
| BlockCache.UnfinishedWriteStays | limine/limine.c:463-518 | a concrete one: one byte of two written, nothing logged, and the undo leaves it |
| BlockCache.UndoRestores | limine/limine.c:520-551 | every byte neither lost nor spoiled comes back |
| BlockCache.Cache.FlushCache | limine/limine.c:266-285 | the flat content is unchanged and the device equals it; fails exactly when an I/O call does |
| BlockCache.Cache.CacheBlock | limine/limine.c:287-312 | the flat content is unchanged; succeeds exactly without I/O failure on a block of the device |
| BlockCache.Cache.DeviceRead | limine/limine.c:441-461 | returns that stretch of the flat content across blocks; succeeds exactly when no I/O call fails and the blocks exist |
| BlockCache.Cache.WriteThrough | limine/limine.c:492-512 | overwrites a prefix of that stretch, all of it on success, and nothing outside the prefix |
| BlockCache.Cache.DeviceWrite | limine/limine.c:463-518 | the flat content is overwritten and its old bytes logged; success exactly characterised; one refused without an I/O failure writes nothing |
| BlockCache.Cache.ReverseUninstallData | limine/limine.c:328-334 | the log is reversed |
| BlockCache.Cache.Apply | limine/limine.c:530-549 | as long as no flush failed, a prefix of the entry is written and nothing else, all of it unless both tries failed; with at most one I/O failure, on an entry that lies in the device, neither the write nor a flush is given up |
| BlockCache.Cache.Uninstall | limine/limine.c:520-570 | true only if every entry was applied in order and is on the device; always true without I/O failures; with at most one within each entry all are applied, and the answer is false exactly when the last flush failed |
| BlockCache.Cache.Install | limine/limine.c:1166-1190 | reads, writes and the final flush, up to the first failure: on success the device is the original with every write applied in order; the installation stays undoable however it ends; success exactly characterised |
| BlockCache.Cache.Perform | limine/limine.c:1170-1187 | one read or write of an installation keeps it undoable; what a failed write wrote is lost, and nothing without an I/O failure |
| BlockCache.Cache.Undo | limine/limine.c:1202-1207 | a reported undo restores the device if and only if every byte no entry covers is the original one before it; without I/O failures it is reported, and with a single one unless that left a dirty block |
| BlockCache.Cache.InstallAndUndo | limine/limine.c:1166-1210 | installed only if every step lies in the device and the log has room, and always then without I/O failures, with every write applied in between; without I/O failures the whole device is restored whatever was refused; a single one is made up for unless it is the last flush; after a successful installation a reported undo restores it all; after a failed one all but what the unfinished write wrote and the one block a failed device write may have torn |
| Chs.Lba2Chs | limine/limine.c:151-172 | the packed bytes decode to the block number, saturated at the last expressible one |
| Chs.DecodeInjective | limine/limine.c:151-172 | no other bytes in the geometry decode to it |
| SignatureScan.Find | limine/limine.c:1298-1320 | terminates although its index moves back; the leftmost occurrence, found exactly when one lies in the scanned range, with room for the checksum |
| SignatureScan.SmallestImageMissed | limine/limine.c:1287-1322 | the smallest image accepted is never matched |
| ScriptGrammar.TruncDivIs | kernel/src/apps/script.rs:118-139 | division truncates toward zero |
| ScriptGrammar.FateIsValue | kernel/src/apps/script.rs:83-184 | an expression has a value exactly when evaluation meets no overflow, no zero divisor and no undefined name |
| ScriptGrammar.SumSound | kernel/src/apps/script.rs:99-115 | what is parsed are the tokens read |
| ScriptGrammar.SumComplete | kernel/src/apps/script.rs:99-115 | an expression's tokens parse to that expression |
| ScriptGrammar.ParsesExactly | kernel/src/apps/script.rs:83-96 | the whole token list is an expression exactly when the parser consumes it all |
| ScriptGrammar.Unambiguous | kernel/src/apps/script.rs:99-184 | no two trees have the same tokens |
| ScriptPrinter.PrintsExpr | kernel/src/apps/script.rs:99-184 | the printed tree is the expression |
| ScriptPrinter.FewestInSum | kernel/src/apps/script.rs:99-184 | no other tree for it has fewer parentheses |
| ScriptPrinter.SpellReads | kernel/src/apps/script.rs:201-238 | tokenizing spelled tokens gives them back |
| ScriptRun.AtomReported | kernel/src/apps/script.rs:142-184 | where the grammar has an atom the run has its value and end, the panic on overflow, the undefined name noted; elsewhere an error or a panic |
| ScriptRun.ProductReported | kernel/src/apps/script.rs:118-139 | so for a product, left associative |
| ScriptRun.SumReported | kernel/src/apps/script.rs:99-115 | so for a sum |
| ScriptRun.SumGoesOn | kernel/src/apps/script.rs:99-115 | an error once noted is never cleared |
| ScriptRun.PastTheFault | kernel/src/apps/script.rs:99-139 | after a zero divisor the rest may be read to its end or overflow, by two concrete texts |
| ScriptFaults.PanicMeans | kernel/src/apps/script.rs:83-184 | on any tokens evaluation panics only if some expression that they spell in their order, missing operands read as zero, has a number or a result outside 64 bits |
| ScriptFaults.SmallNeverPanics | kernel/src/apps/script.rs:83-184 | never while the product of the operands, each one larger than it is, stays within 2^63, however they are put together |
| ScriptFaults.ErrorMeans | kernel/src/apps/script.rs:83-184 | no error without its cause among the tokens: the empty text and only it, leftover tokens exactly after a complete expression that has a value, a missing value only at the end, an unexpected token only where an operand is looked for, and so on |
| ScriptFaults.LeftOverAnswer | kernel/src/apps/script.rs:89-94 | a complete expression with a value, then a token that cannot continue it: unexpected tokens |
| ScriptFaults.Unclosed | kernel/src/apps/script.rs:160-173 | any number of parentheses opened and not closed around an expression that evaluates: the missing parenthesis; the panic if it overflows |
| ScriptFaults.OperandMissing | kernel/src/apps/script.rs:118-147 | an operator with nothing after it: the missing value, with `)` after it: the unexpected token, but for `/`, which is a division by zero |
| ScriptFaults.LastDivisionByZero | kernel/src/apps/script.rs:118-139 | a division by zero that no sign follows: that error, whatever else follows |
| ScriptFaults.OperatorMisplaced | kernel/src/apps/script.rs:118-183 | `*` or `/` at the start or after an operator, then an operand: the unexpected token, unless the operand is an undefined name or divides by zero |
| ScriptFaults.PlusMisplaced | kernel/src/apps/script.rs:99-183 | `+` after a sign: the unexpected token, unless the product after it names an undefined variable; the panic exactly when adding it overflows |
| ScriptFaults.ClosedFirst | kernel/src/apps/script.rs:142-183 | `)` first: the unexpected token; `-` alone: the missing value; `(` alone: the missing parenthesis |
| ScriptFaults.SumRuns | kernel/src/apps/script.rs:99-115 | having read the tokens of a sum, the run holds its value, whatever follows |
| Script.Tokenize | kernel/src/apps/script.rs:201-238 | the tokens of the text, the panic of a number too large exactly when it has none |
| Script.LexIsScan | kernel/src/apps/script.rs:201-238 | the tokens are the maximal words of the text in order, with every meaningful byte in one of them |
| Script.Interp.GetVar | kernel/src/apps/script.rs:25-32 | the list is a finite map |
| Script.Interp.SetVar | kernel/src/apps/script.rs:35-43 | exactly one name of the map changes |
| Script.Interp.ParseAtom | kernel/src/apps/script.rs:142-184 | value, end and error are those of the run on any tokens; the panic exactly when it panics |
| Script.Interp.ParseMulDiv | kernel/src/apps/script.rs:118-139 | the same for products |
| Script.Interp.ParseAddSub | kernel/src/apps/script.rs:99-115 | the same for sums |
| Script.Interp.Eval | kernel/src/apps/script.rs:83-96 | the outcome is exactly that of the text; a value without error exactly when the text denotes it |
| Script.CalculatedMeans | kernel/src/apps/script.rs:83-96 | on a complete expression without a zero divisor the outcome is a panic exactly on overflow and an undefined variable exactly when it names one and does not; with one there is no value |
| Script.CalculatedAnywhere | kernel/src/apps/script.rs:83-96 | on any text: a panic only at a number or a result outside 64 bits, never with small operands, and no error without its cause |
| Script.EvalExpr | kernel/src/apps/script.rs:256-263 | the outcome of any text: a panic, which error, or a value; Ok(v) exactly when the text is one complete expression with value v; a panic only at a number or a result outside 64 bits |
| Script.WrittenDenotes | kernel/src/apps/script.rs:83-238 | any expression, printed with the fewest parentheses, denotes exactly its value |
| EditorText.JoinSplit | kernel/src/apps/editor.rs:64-88 | splitting at newlines loses nothing |
| EditorText.SplitJoin | kernel/src/apps/editor.rs:355-374 | lines without newlines survive joining |
| EditorText.SavedFits | kernel/src/apps/editor.rs:355-374 | a saved text has at most 1839 bytes, so nothing is cut |
| EditorText.LoadAfterSave | kernel/src/apps/editor.rs:64-88 | opening a saved text gives the same lines |
| EditorText.SaveAfterLoad | kernel/src/apps/editor.rs:64-88 | saving an opened file gives the same bytes if and only if it has at most 22 newlines and no line over 79 bytes |
| EditorText.LastRowIsDropped | kernel/src/apps/editor.rs:70-78 | a longer file is shown with an empty last row |
| EditorText.TypedInserts | kernel/src/apps/editor.rs:188-203 | a typed character is inserted into the file at the cursor |
| EditorText.EnteredInserts | kernel/src/apps/editor.rs:206-232 | Enter inserts a newline byte at the cursor |
| EditorText.ErasedRemoves | kernel/src/apps/editor.rs:235-266 | backspace removes the byte before the cursor, newline or not, and does nothing exactly at the start or when the lines do not fit together |
| EditorText.SplitThenErase | kernel/src/apps/editor.rs:206-266 | Enter then backspace restores text and cursor |
| EditorText.TypeThenErase | kernel/src/apps/editor.rs:188-266 | so do a character and backspace |
| EditorText.CutRemoves | kernel/src/apps/editor.rs:269-282 | `x` and `dw` remove one stretch at the cursor, which stays where it is or steps back onto the end of the line |
| EditorText.PastInk | kernel/src/apps/editor.rs:313-317 | the first space at or after the cursor, or the end of the line |
| EditorText.PastSpaces | kernel/src/apps/editor.rs:318-321 | the first character after those spaces that is none, or the end of the line |
| EditorText.WordEnd | kernel/src/apps/editor.rs:313-321 | past the rest of the word at the cursor and all the spaces after it |
| EditorText.LineDeletedRemoves | kernel/src/apps/editor.rs:285-305 | `dd` removes the line's bytes with one newline |
| EditorText.LineDeletedCursor | kernel/src/apps/editor.rs:285-305 | the cursor is then at the start of the line that was below, or of the last one |
| EditorText.OpenedIsSplitAtEnd | kernel/src/apps/editor.rs:336-352 | `o` is Enter at the end of the line |
| EditorKeys.StepKeeps | kernel/src/apps/editor.rs:95-173 | every key keeps 1 to 23 lines of at most 79 bytes without newlines and the cursor within its mode's bound |
| EditorKeys.InsertModeIsFlat | kernel/src/apps/editor.rs:144-156 | insert mode is a byte buffer with a cursor |
| EditorKeys.NormalModeCuts | kernel/src/apps/editor.rs:110-142 | a normal-mode key removes at most one stretch or inserts one newline |
| EditorKeys.MoveKeyMeans | kernel/src/apps/editor.rs:123-130 | each movement key goes to its own place, one on if there is one, or to an end of the line |
| EditorKeys.InsertModeEntered | kernel/src/apps/editor.rs:131-135 | i, a, A and I put the cursor before or after the character or at an end of the line; Esc after `a` is as if neither was pressed |
| EditorKeys.EscapeMeans | kernel/src/apps/editor.rs:146-150 | Esc keeps the text and steps one to the left, if it can |
| EditorKeys.WordCut | kernel/src/apps/editor.rs:110-120 | `dw` takes the rest of the word and the spaces after it out of the line, and nothing else |
| EditorKeys.LineDropped | kernel/src/apps/editor.rs:110-120 | `dd` takes the line with one newline out of the file, or empties the only line |
| EditorKeys.LineOpened | kernel/src/apps/editor.rs:136-136 | `o` puts a newline at the end of the line and the cursor after it, if the screen has a line left, and enters insert mode |
| EditorKeys.PendingDropped | kernel/src/apps/editor.rs:110-120 | after `d` any key but `d` and `w` does nothing |
| EditorKeys.StepMarks | kernel/src/apps/editor.rs:110-156 | a key outside commands marks the session as changed exactly when it changes the text or is the second d of `dd` |
| EditorKeys.RunKeepsClean | kernel/src/apps/editor.rs:49-57 | over any run, a session not marked as changed shows the text last loaded or saved |
| EditorKeys.RunSavesTexts | kernel/src/apps/editor.rs:355-374 | every buffer ever saved can be opened and saved again unchanged |
| EditorKeys.TypingInserts | kernel/src/apps/editor.rs:144-232 | a run of typed keys is inserted into the file at the cursor |
| EditorKeys.TypingTakenBack | kernel/src/apps/editor.rs:188-266 | as many backspaces restore text and cursor |
| EditorKeys.CommandRuns | kernel/src/apps/editor.rs:158-185 | whatever is typed as a command: w, wq and x save the text once and clear the mark, q, q!, wq and x quit, nothing else does either, and the text stays |
| Editor.Editor.ReadLines | kernel/src/apps/editor.rs:64-88 | the grid shows the file's lines cut to the screen |
| Editor.Editor.ClampCursor | kernel/src/apps/editor.rs:95-108 | the cursor moves to the nearest place its mode allows |
| Editor.Editor.InsertChar | kernel/src/apps/editor.rs:188-203 | the shifting loop inserts one character, or nothing when the line is full |
| Editor.Editor.InsertNewline | kernel/src/apps/editor.rs:206-232 | the row shifts split the line, or nothing when the screen is full |
| Editor.Editor.Backspace | kernel/src/apps/editor.rs:235-266 | one character removed or two lines merged |
| Editor.Editor.DeleteChar | kernel/src/apps/editor.rs:269-282 | the character under the cursor goes |
| Editor.Editor.DeleteLine | kernel/src/apps/editor.rs:285-305 | the line goes, the only one is emptied |
| Editor.Editor.FindWordEnd | kernel/src/apps/editor.rs:313-321 | the two scans end past the word and the spaces after it |
| Editor.Editor.DeleteWord | kernel/src/apps/editor.rs:308-333 | the word and the spaces after it go |
| Editor.Editor.OpenLineBelow | kernel/src/apps/editor.rs:336-352 | an empty line appears below |
| Editor.Editor.Save | kernel/src/apps/editor.rs:355-374 | the lines joined by newlines are handed over whole |
| Editor.Editor.HandleNormal | kernel/src/apps/editor.rs:110-142 | the grid after a normal-mode key is the session's next state |
| Editor.Editor.HandleInsert | kernel/src/apps/editor.rs:144-156 | the same for insert mode |
| Editor.Editor.HandleCommand | kernel/src/apps/editor.rs:158-173 | the same for command mode |
| Editor.Editor.ExecCommand | kernel/src/apps/editor.rs:176-185 | each command does to the grid what it does to the session |
| Editor.Editor.Run | kernel/src/apps/editor.rs:49-57 | the loop until quit is the session after the keys |
| EditorOnDisk.OverwriteHolds | kernel/src/fs/mod.rs:424-461 | writing an existing file succeeds and leaves it holding the new bytes |
| EditorOnDisk.ReadNeedsFile | kernel/src/fs/mod.rs:399-422 | reading succeeds exactly on the name of a plain file of the current directory |
| EditorOnDisk.ShownIsOnDisk | kernel/src/apps/editor.rs:33-60 | what an unmarked session shows is what opening the file again would show |
| EditorOnDisk.SaveClearsMark | kernel/src/apps/editor.rs:355-374 | `:w` clears the unsaved mark after any keys, without regard to the disk |
| EditorOnDisk.LeftByCommand | kernel/src/apps/editor.rs:176-185 | a session ends at the first command that quits, with the text as it was; wq and x leave it as the bytes last saved, q and q! leave those that were |
| EditorOnDisk.EditFile | kernel/src/apps/editor.rs:33-60 | the file is found exactly when the disk has a plain one of that name; then after any run of keys the disk holds the bytes last saved, after wq or x the text shown, after q or q! what was there before; otherwise every save is lost and the disk is unchanged |

## Left out

- FsTree.Run: stops short of a command that loses a name; what a disk out of order does afterwards is not described.
- FsTree.Perform: the same.
- Paging.AddressSpace.Map: assumes that the frames a large page on the path is taken for lie in memory and are no page tables; a write into a table there could change any translation.
- Paging.AddressSpace.TablesFor: the same assumption.
- Paging.AddressSpace.Unmap: the same assumption.
- Paging.AddressSpace.IsMapped: the same assumption.
- Heap.KernelHeap.MapOutside: assumes no large page on the path, since what is written behind one may be the heap's.
- Heap.KernelHeap.UnmapOutside: the same assumption.
- FrameAllocator.FrameBitmap.TryInit: sums of base and length are unbounded here, so a memory map whose ends wrap around 64 bits is not modelled.
- Heap.KernelHeap.StoreWord: stores are whole aligned words; partial and unaligned stores are not.
- Boot.BootAndRun: assumes what the bootloader hands over, a tree of tables outside USABLE memory, an empty heap window, tables already on the window's paths linked as writable, and a map whose bitmap stays in its frames, as every page-aligned one does.
- Paging.AddressSpace.Translate: the processor honours the writable bit in kernel mode, as with the write-protect bit of cr0 set; instruction fetches and user mode are not modelled.
- BlockCache.Cache.DeviceWrite: allocation failure of the saved copy is not modelled; positions stay below 2^64.
- BlockCache.Cache.Apply: which bytes stay behind after a failed flush is not stated; the undo then reports failure.
- SignatureScan.Find: reading the file and writing the checksum are not modelled, only the search.
- `linked_list_allocator` inside the heap window, the emergency heap's own blocks, and other library code.
- The physical-memory offset and raw pointers behind `table_at`; memory is an array of 512-word frames.
- The interrupt table, inline assembly and the user bit; a page fault is a call of `grow` followed by a retry.
- Failed sector reads and writes and crashes in the filesystem, whose code ignores the driver's result.
- `list`, `list_dir`, `name_of` and `total_blocks`, which would only add easy members.
- The second "file too big" exit of `write`, which the first one makes unreachable.
- Storing the undo log in a file and loading it, partition tables, GPT and argument handling in the installer.
- `exec_line` and `run_file` of the script language; only expressions are modelled. An arithmetic overflow is the panic of the development profile.
- Drawing, syntax highlighting and the status bar of the editor.
- ATA, PCI, network, sound, mouse, keyboard and timer drivers, the desktop, the shell and the browsers.
