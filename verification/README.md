# pinkyOS in Dafny

pinkyOS is a small Unix-like kernel in C, with its user programs.  This project models the parts of it whose
correctness is hardest to see, and proves what they are for:

- **Crash-safe disk** (`LogDisk`, `LogCrash`, `BufTrace`, `Bio`, `Wal`): the buffer cache and the redo log.  The physical
  writes of the C code are one sequence; the machine may stop between any two of them, during recovery too, any
  number of times.  What survives is always a serial history of whole transactions.
- **Buddy allocator** (`BuddyTiling`, `BuddyMarks`, `Buddy`, `BuddyOrder`, `DList`, `Bits`): bitmaps and packed
  16-bit list links in memory, proved to represent a fully merged tiling of the heap.
- **File system** (`FsLayout`, `FsDisk`, `FsBudget`, `FsWrite`, `FsCrash`, `FsFree`, `FsWitness`, `Fs`): block bitmap,
  inodes with direct and indirect blocks, their layout on the disk's words, the exact set of sectors every write and
  every truncation logs, the buffers that takes, and files that survive a crash at any point of a write.
- **Processes, pipes and open files** (`ProcTable`, `Proc`, `Pipe`, `FileTable`): the process forest and
  sleep/wakeup, the ring buffer with wrapping counters, and exact reference counts.
- **Address spaces** (`VmTree`, `Vm`): three-level page tables as a map from pages to physical pages.
- **User programs** (`FreeList`, `Umalloc`, `Sh`, `ShGrammar`, `ShLines`, `ShPrint`, `Grep`): the circular first-fit
  allocator, the shell's parser and the regular-expression matcher.

Code that updates state in place is modelled by classes and loops; each method is proved against a predicate or
function of abstract state (a tiling, a logical disk, a file's bytes, a family tree, a translation), and the laws
are proved about that state.  A `panic` in the C code that the invariants rule out is a dead branch with
`assert false`; one that users can provoke is a result (`None`, `OutOfBlocks`).

`dafny verify dfyconfig.toml` checks everything.

## How the main results fit together

- `LogCrash.HistoryIsSerial` talks about sequences of sector writes.  `Wal.LogDev.RunTxns` and the constructor
  (recovery) prove that the C code, running through the cache of `Bio`, emits exactly those sequences, for any list of
  transactions.  A transaction there is a trace of bread, log_write and brelse, so that clients may hold several
  buffers, as bmap does.
- `BuddyTiling` knows nothing of bitmaps: it shows that a fully merged tiling is determined by its free units, and
  that looking for a free block from an order upwards finds one whenever an aligned free block exists.
  `BuddyMarks` relates one order's marks to a set of blocks; `Buddy.Kmem` carries both through the code.
- In `Fs` every block in use has one owner, given by a function from blocks to owners.  Sharing, leaks and freeing a
  free block are excluded by that one invariant, and the frame "no other file changes" follows from it.
- Every change `Fs` makes to the disk is a log_write, and the list of them is kept: applied to the disk on which the
  transaction began, they give the file system as it now is, word for word.  So `Fs.FileSystem.Filewrite` yields the
  transactions that the log's theorems are about, as traces that `Wal.LogDev.RunTxns` accepts, and
  `FsCrash.CrashDuringWrite` puts the two together: the disk that
  comes back after a crash holds the old file with a whole number of chunks laid over it, read from its words alone.
- First-fit allocation makes the sectors a write logs a function of the image before it (`FsBudget.WriteSectors`).
  The methods log exactly that set, `LogCrash.RoomAtEveryCall` turns its size into log_write's check at every call, and
  `FsWitness.ChunkRoom` finds the size of log that is enough for all images, by building the worst.  Nothing is held
  while a buffer is asked for but what the write logs, so `BufTrace.LeanNeeds` turns the same number into the number of
  buffers, and `FsWitness.BufferRoom` finds how many are enough.
- `Sh` has the parser as it runs and as functions of the line.  `ShGrammar` states the grammar without a parser, as trees
  with the tokens they spell and the command they mean, and `ShGrammar.ParseIff` says that the parser decides it.  What
  `ShLines` and `ShPrint` say about tokens and about writing commands down follows from the trees.
- In `Vm` the same device (each table page has one role, each physical page one place) gives "no other translation
  changes" and "released once".

## Where the code and its promise part

- `deallocuvm` jumps over a missing page table to the start of the next one, and its loop then steps past that
  page.  `Vm.TornIsExactIff` says exactly when the whole range is still unmapped; `Vm.GapSurvives` has an address space
  where it is not, and a page stays mapped and taken; `Vm.ContiguousIsExact` says that address spaces without gaps,
  which is all the kernel builds, are not affected.
- `balloc` scans up to the end of the disk, log included, and `mkfs` does not mark the log's blocks in use.
  `FsBudget.ScanStaysInData` and `FsBudget.ScanReachesLog` say exactly when the block found is a data block and when it
  is one of the log's; in `Fs.FullImage` a file fills the data area of a fresh image and the next block is the log's
  header.
- `filewrite` cuts its data into chunks so that no transaction is too big.  A chunk can log ten sectors, and a log of
  `LOGSIZE` blocks, as `mkfs` makes it, holds nine.  `FsWitness.ChunkRoom` gives the exact bound (six, and one for each
  bitmap sector of the data area up to four), on images with the log in question; `FsWitness.MkfsLog` says that
  `mkfs`'s log meets it up to three bitmap sectors, and `FsBudget.OneBitmapSector` that `mkfs`'s images have one.
- A larger log does not help: such a chunk then needs eleven buffers and there are ten.  `FsWitness.BufferRoom` gives
  the exact number, and `FsWitness.KernelBuffers` says that `NBUF` is enough up to three bitmap sectors.
- Closing the last reference to an unlinked file frees it in one transaction, which `log_write` also checks when it
  logs the inode a second time.  `FsFree.PutRoom`: the log must hold two sectors more than there are bitmap sectors.
- `kill` does not look whether a slot is in use, a fork that fails half-way leaves its pid in the slot, and `allocproc`
  does not clear the flag.  `Proc.BornKilled` has a child that is killed from birth although nobody killed its pid;
  `ProcTable.KilledIff` says that only a slot hit while it was free does this.
- The 16-bit link `NIL` is no mark's index exactly when the heap has at most 65535 * 2048 bytes:
  `Buddy.NilIsNoIndexIff`.

## Model

| member | source | states |
|---|---|---|
| `LogDisk.InstallPrefixKeepsMeaning` | src/log.c:70-86 | copying any initial part of the logged sectors home leaves the disk's meaning (home sectors, overlaid by the committed log) unchanged |
| `LogDisk.InstalledAndErased` | src/log.c:128-134 | after install_trans and the clearing of the header, every home sector holds what the disk meant, and the log is empty |
| `LogDisk.RecoveryPrefixKeepsMeaning` | src/log.c:128-134 | recovery cut off after any number of its writes leaves a disk that means the same and can be recovered again |
| `LogCrash.HeaderCommits` | src/log.c:109-126 | the header write is the commit point: right after it the disk means the whole transaction |
| `LogCrash.CrashInTransaction` | src/log.c:148-202 | a crash between any two writes of log_write* and commit_trans leaves the old contents up to the header write and the new contents from it on |
| `LogCrash.TransactionCompletes` | src/log.c:148-161 | a completed commit leaves the log quiet and the new contents in the home sectors |
| `LogCrash.CrashInRun` | src/log.c:136-202 | a crash anywhere in a sequence of transactions preserves exactly those whose header was written, in order |
| `LogCrash.RebootRestores` | src/log.c:53-68 | however often recovery itself is interrupted, completing it restores exactly the pre-crash meaning |
| `LogCrash.LhOfCounts` | src/log.c:184-199 | the header names each logged sector once, so log.lh.n is the number of distinct sectors logged |
| `LogCrash.RoomAtEveryCall` | src/log.c:176-178 | when the last call logs a sector not logged before, no call of the transaction trips the size check if and only if the distinct sectors are no more than the limit |
| `LogCrash.RoomForRepeat` | src/log.c:176-188 | a last call for a sector logged before is checked all the same: then they must be fewer than the limit |
| `BufTrace.LeanNeeds` | src/bio.c:83-94 | a transaction that, while it asks for a buffer, holds only sectors it logs never meets "bget: no buffers" if and only if those are fewer than the buffers |
| `BufTrace.CommitFits` | src/log.c:148-161 | if it never does, commit_trans finds a buffer too |
| `LogCrash.HistoryIsSerial` | src/log.c:53-202 | over any number of runs, crashes and interrupted recoveries, the disk is that of a machine which ran the surviving transactions one after the other and never crashed |
| `Bio.LogicalIsUnique` | src/bio.c:29-36 | the cache and the physical disk determine one logical disk |
| `Bio.MoveToFront` | src/bio.c:131-136 | relinking a buffer behind the list head keeps the ring a ring over the same buffers, that one first |
| `Bio.Bcache.constructor` | src/bio.c:38-56 | the empty cache on an image is consistent and shows the image |
| `Bio.Bcache.Bget` | src/bio.c:61-94 | bget returns the one buffer of the sector, or recycles an idle clean one; at most one buffer per sector and the logical disk are kept |
| `Bio.Bcache.FindCached` | src/bio.c:69-80 | the forward loop finds the buffer of a sector if and only if there is one |
| `Bio.Bcache.FindSpare` | src/bio.c:83-91 | the backward loop finds the least recently released idle clean buffer, or there is none |
| `Bio.Bcache.Iderw` | src/memide.c:33-63 | a dirty buffer's data goes to its sector, an invalid one is filled from it, and nothing else changes |
| `Bio.Bcache.Bread` | src/bio.c:97-108 | bread returns a buffer with the logical contents of its sector; the logical and the physical disk stay the same |
| `Bio.Bcache.Store` | src/log.c:193 | writing into a held buffer changes that buffer only |
| `Bio.Bcache.MarkDirty` | src/log.c:201 | pinning a held buffer makes its data the logical contents of its sector |
| `Bio.Bcache.Bwrite` | src/bio.c:111-119 | the data becomes the sector's contents, physically and logically, by one write |
| `Bio.Bcache.Overwrite` | src/log.c:193-194 | new data stored in a held buffer and written is the sector's contents |
| `Bio.Bcache.Brelse` | src/bio.c:123-142 | a released buffer is first in the ring; the logical disk is unchanged provided modified data was pinned or written |
| `Wal.SpareIff` | src/bio.c:83-94 | bget finds a buffer to recycle if and only if not all are held or pinned |
| `Wal.TakenFit` | src/log.c:171-202 | the buffers held or pinned are no more than the sectors held or logged |
| `Wal.LogicalIsContents` | src/log.c:171-202 | outside held buffers the cache shows the disk as the transaction leaves it |
| `Wal.CommitAddsUp` | src/log.c:148-161 | header, install and erase are exactly the write sequence of the crash model |
| `Wal.RecoveryAddsUp` | src/log.c:128-134 | so are the phases of recover_from_log |
| `Wal.EncodeHead` | src/log.c:113-120 | the encoded header decodes to the same sectors |
| `Wal.LogDev.BeginTrans` | src/log.c:136-146 | one caller at a time holds the log; the others sleep |
| `Wal.LogDev.LogWrite` | src/log.c:171-202 | one block goes to its log slot (an old slot if logged before), the sector's logical contents change and its home sector does not |
| `Wal.LogDev.FindSlot` | src/log.c:184-188 | the search finds the sector's slot, or the next free one |
| `Wal.LogDev.WriteHead` | src/log.c:109-126 | the on-disk header becomes the in-memory one by one write |
| `Wal.LogDev.InstallTrans` | src/log.c:70-86 | every logged sector's home gets its slot's block, in log order, and is unpinned |
| `Wal.LogDev.InstallOne` | src/log.c:76-85 | one such copy, through two buffers |
| `Wal.LogDev.Commit` | src/log.c:150-155 | the writes of a non-empty commit, in order |
| `Wal.LogDev.CommitTrans` | src/log.c:148-161 | the device's writes since the transaction began are exactly the modelled sequence; afterwards physical and logical disk agree, the home area holds the transaction and nothing is pinned |
| `Wal.LogDev.Read` | src/bio.c:97-108 | between log_writes bread still finds a buffer, with the contents the transaction has given the sector |
| `Wal.LogDev.Modify` | src/fs.c:515 | changing a held buffer changes nothing the log relies on |
| `Wal.LogDev.Release` | src/fs.c:517 | nor does releasing a logged one |
| `Wal.LogDev.FetchStep` | src/bio.c:97-108 | bread by a client that may hold others: one buffer more held, with the transaction's contents |
| `Wal.LogDev.PutStep` | src/fs.c:515-516 | storing into a held buffer and log_write: the transaction is longer by that write |
| `Wal.LogDev.DropStep` | src/fs.c:517 | brelse: one buffer fewer held |
| `Wal.LogDev.RunTxn` | src/log.c:136-202 | begin_trans, any trace of bread, log_write and brelse within the log and the buffers, commit_trans: the device sees exactly the modelled writes of the transaction, and neither panic is reached |
| `Wal.LogDev.RunTxns` | src/log.c:136-202 | any list of such transactions: the device sees exactly the run that the crash theorems are about |
| `Wal.LogDev.constructor` | src/log.c:53-68 | recovery from any header the log code can have written emits the modelled writes and ends with a quiet log and every home sector at its meaning |
| `Wal.LogDev.ReadHead` | src/log.c:89-104 | the in-memory header becomes the on-disk one |
| `BuddyTiling.WhollyFreeIsCovered` | src/buddy.c:260-281 | in a fully merged tiling an aligned block all of whose units are free lies inside one free block |
| `BuddyTiling.FreeUnitsDetermineBlocks` | src/buddy.c:260-281 | the set of free units determines the free blocks of every order |
| `BuddyTiling.WhollyFreeIffSomeLevel` | src/buddy.c:221-242 | some aligned block of an order is wholly free if and only if an order at or above it has a free block |
| `BuddyTiling.UnitHasOneOwner` | src/buddy.c:221-281 | distinct free or live blocks share no unit |
| `BuddyTiling.LiveUnitsAreNotFree` | src/buddy.c:221-281 | no unit is both free and allocated |
| `BuddyTiling.HalvedKeepsTiling` | src/buddy.c:221-242 | cutting a live block in two keeps a merged tiling of the heap |
| `BuddyTiling.JoinedKeepsTiling` | src/buddy.c:276-280 | joining two live buddies keeps it too |
| `BuddyMarks.LnksRoundTrip` | src/buddy.c:22-31 | packing two 16-bit links and unpacking them loses nothing |
| `BuddyMarks.MarkedMapped` | src/buddy.c:157-189 | setting a bit adds exactly that block |
| `BuddyMarks.UnmarkedMapped` | src/buddy.c:115-154 | clearing it removes exactly that block |
| `BuddyMarks.PushedChained` | src/buddy.c:176-188 | pushing a mark keeps the doubly linked list of the marks with a bit set, each once |
| `BuddyMarks.RemovedChained` | src/buddy.c:131-153 | unlinking an emptied mark does too |
| `BuddyMarks.LinksAreInverse` | src/buddy.c:22-31 | prev and next are mutually inverse along the list |
| `BuddyMarks.EmptyIffNoneFree` | src/buddy.c:192-216 | the list is empty if and only if the order has no free block |
| `BuddyMarks.FreeBlocksDetermineBitmaps` | src/buddy.c:22-31 | an order's free blocks determine its bitmaps |
| `Buddy.NilIsNoIndexIff` | src/buddy.c:22-31 | every mark of every block of the heap has an index below NIL if and only if the heap has at most 65535 * 2048 bytes |
| `Buddy.RoomForMarks` | src/buddy.c:84-104 | the marks reserved end before the heap, and every block of the heap has one that a link can name |
| `Buddy.MarksTile` | src/buddy.c:22-25 | the bytes reserved for marks are those of their two 32-bit words each, every one in one word |
| `Buddy.LayOut` | src/buddy.c:87-104 | the slices of marks of different orders are consecutive, disjoint, and end where the heap starts |
| `Buddy.Kmem.constructor` | src/buddy.c:74-112 | after initialisation with a heap up to that size the whole heap is free, merged, and disjoint from the marks |
| `Buddy.Kmem.ClearMarks` | src/buddy.c:95-100 | every order starts with no free block |
| `Buddy.Kmem.FreeHeap` | src/buddy.c:106-111 | the loop over top-order blocks makes exactly the heap free |
| `Buddy.Kmem.MarkBlk` | src/buddy.c:157-189 | one more free block of that order, in bitmap and list |
| `Buddy.Kmem.Link` | src/buddy.c:176-188 | the mark is inserted at the head of its list |
| `Buddy.Kmem.UnmarkBlk` | src/buddy.c:115-154 | one free block fewer; none of the panics is reached |
| `Buddy.Kmem.Unlink` | src/buddy.c:131-153 | the emptied mark leaves the list |
| `Buddy.Kmem.GetBlk` | src/buddy.c:192-216 | a free block of the order, taken out of it |
| `Buddy.Kmem.Alloc` | src/buddy.c:221-242 | fails if and only if no order at or above has a free block; otherwise a live block of that order, with the rest of the split block free |
| `Buddy.Kmem.Release` | src/buddy.c:260-281 | merging upwards gives back exactly the block's units and a merged tiling |
| `Buddy.Kmem.KMalloc` | src/buddy.c:245-258 | NULL if and only if no aligned block of the size is wholly free; otherwise such a block inside the heap, whose units and no others stop being free |
| `Buddy.Kmem.KFree` | src/buddy.c:285-294 | exactly the block's units become free |
| `Buddy.Kmem.AddressInHeap` | src/buddy.c:54-62 | a block lies in the heap and is aligned to its size |
| `Buddy.Kmem.KMallocThenKFree` | src/buddy.c:245-294 | kfree after kmalloc restores every bitmap exactly |
| `Buddy.Kmem.FreeIsUnheld` | src/buddy.c:221-294 | the wholly free blocks are those in the heap of which the client holds no unit |
| `Buddy.Kmem.Ask` | src/buddy.c:245-258 | kmalloc as the client sees it: the answer in terms of what it holds |
| `Buddy.Kmem.Serve` | src/buddy.c:221-294 | any script of requests by a client that frees what it holds: no panic is reached, free and held blocks tile the heap, and each request is served exactly when some block of its order in the heap overlaps nothing then held |
| `BuddyOrder.SmearIsMask` | src/buddy.c:314-320 | the or-shift cascade gives 2^h - 1, h the bit length |
| `BuddyOrder.GetOrder` | src/buddy.c:310-336 | the least order whose block holds v bytes; the panic exactly for 0 and sizes above the largest block |
| `FsLayout.PutWordRoundTrip` | src/fs.c:394-400 | an indirect entry reads back and leaves the other entries |
| `FsLayout.NoSharing` | src/fs.c:363-369 | no block is in two files or twice in one, and every file block is marked in use |
| `FsLayout.NoLeak` | src/fs.c:47-99 | a data block is marked in use if and only if some inode reaches it |
| `FsLayout.TooLargeIff` | src/fs.c:508 | a byte without a direct slot and without four bytes of one indirect block exists exactly past MAXFILE blocks |
| `FsLayout.FoundAtPlace` | src/fs.c:373-407 | every block of a file is found at its place in the inode or its indirect block |
| `FsLayout.RepsEntry` | src/fs.c:394-400 | the next indirect entry adds the block |
| `FsDisk.BitIsLocal` | src/fs.h:45-46 | a bit of the bitmap is in one sector: changing it changes no other |
| `FsDisk.DinodeIsLocal` | src/fs.h:39-40 | an inode is in one sector |
| `FsDisk.BitReadsBack` | src/fs.c:66-68 | bit bi % 8 of byte bi / 8 of its sector is the block's bit, for every block of the image |
| `FsDisk.InodeReadsBack` | src/fs.c:206-223 | the words iupdate lays out read back as the same inode, signed fields and all |
| `FsDisk.BlockReadsBack` | src/fs.h:4-9 | so do the bytes of a data block |
| `FsBudget.ScanFrom` | src/fs.c:59-75 | the lowest clear bit, or there is none |
| `FsBudget.ScanStaysInData` | src/fs.c:59-78 | the block balloc's scan finds is a data block if and only if the data area is not full |
| `FsBudget.ScanReachesLog` | src/fs.c:59-78 | it is a block of the log if and only if the data area is full and some log block is not marked |
| `FsBudget.AllocsSplit` | src/fs.c:59-75 | n + m calls of balloc hand out what n calls do and then m calls on the bitmap left |
| `FsBudget.AllocsInside` | src/fs.c:59-75 | as many blocks as the data area has free all come from it |
| `FsBudget.ChunkFits` | src/file.c:147-153 | wherever a filewrite chunk starts it touches at most four blocks and allocates at most four |
| `FsBudget.ChunkOfImage` | src/file.c:147-153 | on every consistent image, every chunk logs at most six sectors and one for each bitmap sector of the data area, up to four |
| `FsBudget.OneBitmapSector` | src/tools/mkfs.c:235-249 | an image of at most 4096 blocks has one bitmap sector |
| `FsWitness.WitnessOk` | src/file.c:153 | an image with an empty root directory, chosen blocks free and the rest of the data area in files of twelve blocks is consistent |
| `FsWitness.WorstCount` | src/file.c:153 | a full chunk that starts inside the last direct block of such a file logs six sectors and every bitmap sector of the four free blocks |
| `FsWitness.ChunkRoom` | src/file.c:147-153 | a log of nlog blocks takes all chunks of all files on all consistent images with that log and w bitmap sectors if and only if min(LOGSIZE, nlog - 1) is at least 6 + min(w, 4) |
| `FsWitness.MkfsLog` | src/tools/mkfs.c:19 | a log of mkfs's size does if and only if there are at most three |
| `FsWitness.BufferRoom` | src/bio.c:83-94 | n buffers are enough for all chunks that their log takes if and only if n is at least 7 + min(w, 4) |
| `FsWitness.KernelBuffers` | src/param.h:10 | NBUF buffers are if and only if there are at most three bitmap sectors |
| `FsWrite.PatchBlock` | src/fs.c:513-517 | copying into one block of a file patches those bytes of the file and no others |
| `FsWrite.PatchedIsSpliced` | src/fs.c:491-526 | a patched file's bytes are the old ones with the new laid over |
| `FsWrite.SectorsTurn` | src/fs.c:512-518 | the sectors logged up to a block and those of that block's turn are the sectors up to the next |
| `FsWrite.TallyTurn` | src/fs.c:512-518 | bitmap, file and sectors logged after a turn of writei's loop are those of the longer write |
| `FsWrite.BlockIsNew` | src/fs.c:512-518 | a write inside the file logs its last block for the first time |
| `FsWrite.InodeIsNew` | src/fs.c:520-523 | a write that grows it logs the inode last, and for the first time |
| `FsCrash.FileReadsBack` | src/fs.c:363-369 | inode, indirect block and data blocks read from the disk's words give every file as the kernel sees it |
| `FsCrash.ChunkFitsIff` | src/log.c:176-178 | every log_write of a chunk finds room if and only if the sectors it logs are no more than the log holds |
| `FsCrash.IsChunkTrace` | src/fs.c:394-402 | "bget: no buffers" is unreachable from a chunk if and only if its sectors are fewer than the buffers, the indirect block held across balloc included |
| `FsCrash.RoomyChunk` | src/file.c:147-153 | with room for the worst chunk in log and buffers every chunk is a transaction that the log device runs |
| `FsCrash.CrashDuringWrite` | src/file.c:156-182 | after a crash at any sector write of a filewrite and any interrupted recoveries, the file on disk is the old one with exactly the committed chunks laid over it, and every other file is untouched |
| `FsFree.PutBound` | src/fs.c:331-354 | freeing an inode logs its sector and at most the bitmap sectors of the data area |
| `FsFree.PutFitsIff` | src/log.c:176-178 | the log takes it if and only if it holds one sector more than are logged |
| `FsFree.StrewnOk` | src/file.c:80-84 | an image with one unlinked file, its blocks in as many bitmap sectors as wanted, is consistent |
| `FsFree.PutRoom` | src/file.c:80-84 | a log that holds c sectors takes the freeing of every file on every image with w bitmap sectors if and only if w + 1 < c |
| `Fs.FullImage` | src/tools/mkfs.c:235-249 | a fresh image whose one data block has been written: balloc's scan returns the first block of the log |
| `Fs.FileSystem.constructor` | src/tools/mkfs.c:88-107 | an image without files, the log's bits clear as mkfs leaves them, satisfies the invariant |
| `Fs.FileSystem.SetBit` | src/fs.c:66-68 | a bit is changed and its sector logged; the transaction again gives the image |
| `Fs.FileSystem.SetBlk` | src/fs.c:513-517 | so for a block |
| `Fs.FileSystem.SetHeld` | src/fs.c:397-400 | so for a block whose buffer is held, and stays so |
| `Fs.FileSystem.SetDinode` | src/fs.c:211-221 | so for an inode |
| `Fs.FileSystem.FindFree` | src/fs.c:59-75 | the two loops find the lowest clear bit of the whole image |
| `Fs.FileSystem.Balloc` | src/fs.c:50-78 | the lowest free block of the image, marked, zeroed and logged with its bitmap sector; the panic if and only if every block is marked |
| `Fs.FileSystem.AllocData` | src/fs.c:50-78 | a data block if and only if the data area is not full |
| `Fs.FileSystem.Bfree` | src/fs.c:81-99 | the block's bit is cleared and its bitmap sector logged; "freeing free block" is not reached |
| `Fs.FileSystem.Bmap` | src/fs.c:373-407 | the address of a block of the file, or a fresh zeroed block appended to it if and only if the data area has the one or two blocks needed; exactly those, their bitmap sectors and the indirect block are logged; other files and the file's data stay, and nothing changes if the block exists |
| `Fs.FileSystem.AllocDirect` | src/fs.c:379-381 | a fresh block becomes the next direct one |
| `Fs.FileSystem.AllocInd` | src/fs.c:390-392 | a fresh block becomes the indirect block |
| `Fs.FileSystem.AllocEntry` | src/fs.c:394-402 | a fresh block becomes the next indirect one, the indirect block's buffer being held meanwhile |
| `Fs.FileSystem.WriteBlock` | src/fs.c:513-517 | one turn of writei: a patch within one block, the blocks it takes and the sectors it logs |
| `Fs.FileSystem.WriteBlocks` | src/fs.c:512-518 | the loop: src is laid over the file, which grows to the blocks it needs; it completes if and only if the data area has them |
| `Fs.FileSystem.Writei` | src/fs.c:491-526 | -1 exactly for a gap, wrap-around, or a file some byte of which has no place in an inode, with nothing changed; out of blocks exactly when the data area has too few; otherwise the file is spliced with src, every other file is unchanged, the inode on disk equals the one in memory, and exactly the sectors WriteSectors computes from the image before are logged |
| `Fs.FileSystem.SetSize` | src/fs.c:520-523 | the grown inode goes to disk and the file system is at rest |
| `Fs.FileSystem.Iupdate` | src/fs.c:206-223 | the disk inode becomes the in-memory one |
| `Fs.FileSystem.Readi` | src/fs.c:458-487 | the slice of the file's bytes, cut at its size; nothing changes |
| `Fs.FileSystem.ReadBlock` | src/fs.c:479-484 | one turn of its loop |
| `Fs.FileSystem.FreeDirect` | src/fs.c:420-425 | every direct block's bit is cleared once |
| `Fs.FileSystem.FreeIndirect` | src/fs.c:427-440 | every indirect entry's bit and the indirect block's are cleared once |
| `Fs.FileSystem.Itrunc` | src/fs.c:414-444 | exactly the file's bits are cleared, their sectors and the inode's logged, and the inode is empty in memory and on disk |
| `Fs.FileSystem.Iput` | src/fs.c:331-354 | the last reference to an unlinked inode frees exactly its blocks and the inode; no other file changes; as a transaction of its own the log takes it if and only if it holds one sector more than are logged |
| `Fs.FileSystem.Ilock` | src/fs.c:276-311 | loading an inode from disk changes no file |
| `Fs.FileSystem.Recycle` | src/fs.c:249-259 | forgetting an in-memory inode loses nothing |
| `Fs.FileSystem.Restart` | src/fs.c:206-223 | with memory lost between transactions, every file is intact: iupdate has written every inode through |
| `Fs.FileSystem.Ialloc` | src/fs.c:178-203 | the lowest free inode, empty and not in memory; the panic if and only if there is none |
| `Fs.FileSystem.WriteChunk` | src/file.c:163-171 | one transaction of filewrite: its sectors are those the image before determines; the log takes it if and only if they are no more than it holds, and the buffers if and only if they are fewer |
| `Fs.FileSystem.Filewrite` | src/file.c:131-188 | the bytes written are a whole number of chunks of src laid over the file at the offset, which moves with them; all of src unless writei refuses the next chunk or the data area is too full for it; log and buffers take every chunk if they have room for the worst; the chunks are a run that CrashDuringWrite covers; "short filewrite" is unreachable |
| `ProcTable.EveryoneDescendsFromInit` | src/proc.c:179-311 | following parents from any process in use reaches init |
| `ProcTable.AncestorsAreOlder` | src/proc.c:179-311 | an ancestor was born before its descendant, at any distance |
| `ProcTable.NoCycle` | src/proc.c:179-311 | parent links have no cycle |
| `ProcTable.WokenKeepsInv` | src/proc.c:453-462 | waking all sleepers of a channel keeps the process invariant |
| `ProcTable.AliveUpdate` | src/proc.c:357-450 | a change of scheduling state keeps it, if nobody goes to sleep in wait with a zombie child |
| `ProcTable.FailedFork` | src/proc.c:189-195 | a fork that fails half-way leaves the table as it was but for a used-up pid |
| `ProcTable.ForkKeepsInv` | src/proc.c:179-217 | a new child keeps the invariant; live children = forks minus waits |
| `ProcTable.ReapKeepsInv` | src/proc.c:285-298 | reaping a zombie keeps it |
| `ProcTable.ExitedAt` | src/proc.c:244-259 | where each process ends up when one exits |
| `ProcTable.ExitKeepsInv` | src/proc.c:222-263 | exit keeps the forest, and no parent sleeps in wait over a zombie child |
| `ProcTable.KillKeepsInv` | src/proc.c:474-496 | marking the first slot with a pid keeps the invariant |
| `ProcTable.KilledIff` | src/proc.c:474-496 | in every run a process is marked if and only if its pid was killed since it was born, unless its slot was hit while free |
| `Proc.Ptable.constructor` | src/proc.c:117-150 | init alone in its slot, runnable and not killed, satisfies the invariant |
| `Proc.Ptable.Wakeup1` | src/proc.c:453-462 | exactly the sleepers of the channel become runnable |
| `Proc.Ptable.Wakeup` | src/proc.c:465-470 | so does wakeup, and the invariant holds |
| `Proc.Ptable.FindUnused` | src/proc.c:58-64 | the first unused slot, or there is none |
| `Proc.Ptable.Fork` | src/proc.c:179-217 | the first unused slot holds a runnable child of the caller with a new pid; failure exactly without a slot or memory, with the family unchanged and what is left in the slot |
| `Proc.Ptable.Exit` | src/proc.c:222-263 | the caller is a zombie, its children are init's, and parent (and init, if it inherits a zombie) are awake |
| `Proc.Ptable.PassOnChildren` | src/proc.c:247-256 | the loop hands every child to init and wakes init for a zombie |
| `Proc.Ptable.Wait` | src/proc.c:267-311 | a zombie child is reaped if there is one; otherwise -1 exactly without children or when killed; otherwise the caller sleeps on its own address with a live child |
| `Proc.Ptable.Run` | src/proc.c:321-355 | the scheduler's switch keeps the invariant; one process runs |
| `Proc.Ptable.Yield` | src/proc.c:385-392 | the caller becomes runnable |
| `Proc.Ptable.Sleep` | src/proc.c:415-450 | the caller sleeps on the channel |
| `Proc.Ptable.Kill` | src/proc.c:474-496 | for any pid: the first slot with it, in use or not, is marked, and made runnable if it slept; nothing else changes |
| `Proc.BornKilled` | src/proc.c:66-76 | after a failed fork, a kill of the pid it left behind marks the next child before it is born |
| `Pipe.FullTest` | src/pipe.c:101 | with wrapping 32-bit counters the full test is exact |
| `Pipe.EmptyTest` | src/pipe.c:125 | so is the empty test |
| `Pipe.RingIndex` | src/pipe.c:111 | the ring index is right across the wrap |
| `Pipe.RingSlotsDistinct` | src/pipe.c:94-146 | live bytes are in different slots |
| `Pipe.PipeDev.constructor` | src/pipe.c:32-41 | a new pipe is empty and open |
| `Pipe.PipeDev.NeverBothAsleep` | src/pipe.c:94-146 | a reader and a writer are never both asleep |
| `Pipe.PipeDev.Write` | src/pipe.c:94-117 | the bytes accepted are appended in order until done, broken or full; before sleeping every reader has been woken |
| `Pipe.PipeDev.Append` | src/pipe.c:111 | one byte joins the contents |
| `Pipe.PipeDev.Read` | src/pipe.c:119-146 | the oldest bytes, as many as there are up to n, are delivered in order and every writer is woken; it sleeps only on an empty pipe with a writer |
| `Pipe.PipeDev.Take` | src/pipe.c:139 | the oldest byte leaves the contents |
| `Pipe.PipeDev.Close` | src/pipe.c:71-91 | closing an end wakes the other side; the pipe is freed when both are closed |
| `FileTable.LastClose` | src/file.c:67-79 | closing the last reference to a pipe end keeps each open end at one file, and no pipe unopened |
| `FileTable.Files.constructor` | src/file.c:12-21 | the empty table satisfies the invariant |
| `FileTable.Files.FileAlloc` | src/file.c:24-40 | the first free file with one reference, or there is none |
| `FileTable.Files.FileDup` | src/file.c:43-54 | one more reference |
| `FileTable.Files.FileClose` | src/file.c:57-85 | one reference fewer; the last one closes the pipe end, and frees the pipe if the other end is closed; all other files and pipes as they were |
| `FileTable.Files.PipeClose` | src/pipe.c:71-91 | the end is closed and the pipe freed exactly when both are |
| `FileTable.Files.FdAlloc` | src/sysfile.c:45-57 | the lowest free descriptor, or none is free |
| `FileTable.Files.ArgFd` | src/sysfile.c:19-41 | a descriptor in range names a file with references, otherwise failure |
| `FileTable.Files.SysDup` | src/sysfile.c:59-75 | succeeds exactly with an open descriptor and a free one; the lowest free one then names the same file, and counts stay exact |
| `FileTable.Files.SysClose` | src/sysfile.c:103-116 | succeeds exactly for an open descriptor, which is then free; counts stay exact |
| `FileTable.Files.PipeAlloc` | src/pipe.c:21-69 | two files and a pipe exactly when two files are free and there is memory, otherwise nothing left behind |
| `FileTable.Files.TwoFds` | src/sysfile.c:490-495 | the two lowest descriptors exactly when two are free, otherwise none |
| `FileTable.Files.SysPipe` | src/sysfile.c:476-507 | both descriptors and the pipe exactly when there is room for all of it, otherwise no change of files, descriptors and pipes |
| `FileTable.Files.SysOpen` | src/sysfile.c:357-374 | a file and the lowest descriptor for the inode exactly when both are free, otherwise neither |
| `FileTable.Files.Fork` | src/proc.c:204-208 | the child has the parent's descriptors, with exact counts, and every file is what it was |
| `FileTable.Files.Exit` | src/proc.c:232-237 | every descriptor of the process is closed, no other changes, and every file still open is what it was |
| `FileTable.Files.PipeLivesWhileOpen` | src/pipe.c:71-91 | a pipe is in memory if and only if some process has a descriptor for one of its ends |
| `VmTree.PathsDiffer` | src/vm.c:90-130 | a page table serves one stretch of one address space |
| `VmTree.AddRoot` | src/vm.c:370-373 | a new page directory maps nothing and changes no translation |
| `VmTree.AddMid` | src/vm.c:101-109 | a new middle table changes no translation |
| `VmTree.AddLeaf` | src/vm.c:115-127 | nor does a new page table |
| `VmTree.SetPte` | src/vm.c:152 | writing an entry changes that translation and no other in any address space |
| `VmTree.ReleaseLeaf` | src/vm.c:332-337 | each page table of a directory is released once |
| `VmTree.ReleaseMid` | src/vm.c:329-339 | each middle table too, after its page tables |
| `VmTree.Pruned` | src/vm.c:327-342 | the other trees are as they were |
| `Vm.SameOwners` | src/vm.c:244-273 | the translations determine which physical pages are taken |
| `Vm.TornIsExactIff` | src/vm.c:279-310 | deallocuvm unmaps its whole range if and only if no page it skips is mapped |
| `Vm.ContiguousIsExact` | src/vm.c:279-310 | it does when the mapped pages come first |
| `Vm.Vmm.Gap` | src/vm.c:279-310 | an address space with page 512 mapped and no page table for the pages before it satisfies the invariant |
| `Vm.GapSurvives` | src/vm.c:279-310 | deallocuvm of it down to 0 leaves page 512 mapped and its physical page taken |
| `Vm.Vmm.constructor` | src/vm.c:58-65 | with no address space and some free pages the invariant holds |
| `Vm.Vmm.KptAlloc` | src/vm.c:67-86 | a table page nobody uses |
| `Vm.Vmm.Walk` | src/vm.c:90-130 | the page table of an address, adding empty tables if asked; no translation changes |
| `Vm.Vmm.MapPage` | src/vm.c:143-152 | one page is mapped |
| `Vm.Vmm.MapPages` | src/vm.c:135-162 | exactly the pages the range touches are mapped, to successive physical pages; no other translation changes; "remap" and -1 are unreachable |
| `Vm.Vmm.UnmapPage` | src/vm.c:297-306 | the page at an address is freed once |
| `Vm.Vmm.DeallocUvm` | src/vm.c:279-310 | exactly which pages of the range are unmapped and freed, skips included |
| `Vm.Vmm.AllocUvm` | src/vm.c:244-273 | succeeds exactly when the new size is an address and there are as many free pages as pages to add, or the size shrinks; all new pages, fresh and zeroed, or every translation, free page and owner as before |
| `Vm.Vmm.GrowOne` | src/vm.c:255-270 | one turn of the loop takes one free page and maps it |
| `Vm.Vmm.Undo` | src/vm.c:262-266 | the retreat restores them |
| `Vm.Vmm.FreeTables` | src/vm.c:327-342 | the directory's tables are released, each once |
| `Vm.Vmm.FreeVm` | src/vm.c:314-343 | unless deallocuvm skips a mapped page, all pages and tables of the address space are free, each released once, and every other address space is untouched |
| `Vm.Vmm.CopyUvm` | src/vm.c:362-402 | succeeds exactly with enough free pages: the same pages with the same access bits and contents on pages of its own, or no page and no table taken |
| `FreeList.InsertedSorted` | src/usr/umalloc.c:33-42 | inserting and coalescing keeps the list address-ordered with no two free blocks touching |
| `FreeList.InsertedUnits` | src/usr/umalloc.c:33-42 | and adds exactly the block's units |
| `FreeList.TakenSorted` | src/usr/umalloc.c:75-82 | taking a block or its tail keeps the order |
| `FreeList.TakenUnits` | src/usr/umalloc.c:75-82 | and removes exactly those units |
| `Umalloc.FreeKeepsHeap` | src/usr/umalloc.c:25-44 | the header writes of free keep ring, blocks and conservation |
| `Umalloc.TakeKeepsHeap` | src/usr/umalloc.c:75-84 | so do those of malloc |
| `Umalloc.CoreJoins` | src/usr/umalloc.c:47-61 | new core joins as an allocated block |
| `Umalloc.FitAppears` | src/usr/umalloc.c:86-88 | after more core some free block is large enough |
| `Umalloc.Units` | src/usr/umalloc.c:69 | the least number of units that hold a header and nbytes |
| `Umalloc.Heap.constructor` | src/usr/umalloc.c:21-22 | the heap before the first call |
| `Umalloc.Heap.FindPredecessor` | src/usr/umalloc.c:30-32 | free's search ends within one lap at the right place |
| `Umalloc.Heap.Free` | src/usr/umalloc.c:25-44 | exactly the block's units become free |
| `Umalloc.Heap.Morecore` | src/usr/umalloc.c:47-61 | sbrk's memory joins the free units |
| `Umalloc.Heap.TakeFrom` | src/usr/umalloc.c:75-84 | unlinking or cutting the tail |
| `Umalloc.Heap.Malloc` | src/usr/umalloc.c:64-90 | a live block of enough units; more core is asked for once and only if nothing fits, and NULL only if that is refused |
| `Sh.Parser.GetToken` | src/usr/sh.c:266-309 | the token at the cursor |
| `Sh.Parser.Peek` | src/usr/sh.c:311-321 | the next character after blanks, cursor moved to it |
| `Sh.Parser.ParseRedirs` | src/usr/sh.c:375-398 | the redirections at the cursor, as the grammar says |
| `Sh.Parser.ParseArgs` | src/usr/sh.c:430-446 | arguments and redirections of a simple command, at most nine |
| `Sh.Parser.ParseExec` | src/usr/sh.c:416-447 | a simple command or a block |
| `Sh.Parser.ParseBlock` | src/usr/sh.c:400-414 | a parenthesised line and its redirections |
| `Sh.Parser.ParsePipe` | src/usr/sh.c:362-373 | a pipeline |
| `Sh.Parser.ParseLine` | src/usr/sh.c:345-360 | a line; the cursor only advances and never passes the end |
| `Sh.LineWords` | src/usr/sh.c:345-447 | every word of a parsed command is a maximal run of word characters, arguments and sides of pipes and lists are in line order, and a later redirection is further out |
| `Sh.NulTerminate` | src/usr/sh.c:450-494 | a NUL after every word of the command and nowhere else |
| `Sh.WordReads` | src/usr/sh.c:450-494 | each word is then a C string equal to its slice of the line |
| `Sh.ParseCmd` | src/usr/sh.c:328-343 | the parse of the whole line or a syntax error, with every word readable in place |
| `ShGrammar.Ahead` | src/usr/sh.c:311-321 | peek sees the kind of the next token |
| `ShGrammar.LineSound` | src/usr/sh.c:345-360 | whatever the parser accepts is spelled by a derivation tree and parsed as what the tree means |
| `ShGrammar.LineComplete` | src/usr/sh.c:345-360 | tokens that a tree spells, up to the end or a closing parenthesis, are accepted as what it means |
| `ShGrammar.ParseReads` | src/usr/sh.c:328-343 | a line whose words read as a tree says is accepted, and the command read the same way is what the tree means |
| `ShGrammar.ParseIff` | src/usr/sh.c:328-447 | the parser accepts exactly the lines of the grammar (simple commands with arguments and redirections in any order, blocks, pipelines, ampersands, semicolons), each with one meaning |
| `ShLines.NoTokenLost` | src/usr/sh.c:328-447 | the words of the command and the files of its redirections are the words of the line, there is one redirection for each operator with its mode and descriptor, and one pipe, list or background node for each of its symbols |
| `ShLines.OrderKept` | src/usr/sh.c:328-447 | the order of the words on the line is kept in the command |
| `ShPrint.LexInverts` | src/usr/sh.c:266-309 | tokens written with any blanks between them, and none where they do not run together, are read back |
| `ShPrint.ParseInvertsRender` | src/usr/sh.c:328-447 | a line of the grammar, with or without parentheses and however spaced, is read as what its tree means |
| `ShPrint.ParseInvertsPrint` | src/usr/sh.c:328-447 | any command with legal words and at most nine arguments, written in parentheses, is read back as that command |
| `ShPrint.ReadIff` | src/usr/sh.c:328-447 | the commands that some line gives are exactly those |
| `Grep.ItemsOfPattern` | src/usr/grep.c:84-95 | reading a pattern inverts writing one, for every list of items a pattern can say |
| `Grep.PatternOfItems` | src/usr/grep.c:84-95 | every pattern is the writing of the items it is read as |
| `Grep.EndMatches` | src/usr/grep.c:90-91 | a final $ matches exactly at the end |
| `Grep.OneMatches` | src/usr/grep.c:92-93 | one item against the first character |
| `Grep.StarMatches` | src/usr/grep.c:98-105 | c* followed by a pattern matches if and only if the pattern does after some run of c |
| `Grep.Match` | src/usr/grep.c:72-81 | match is true if and only if the pattern's language has a word at some position (at the start under ^) |
| `Grep.MatchHere` | src/usr/grep.c:84-95 | the same at the beginning of the text |
| `Grep.MatchStar` | src/usr/grep.c:98-105 | the same for a starred item, by trying every run |

## Left out

- Multi-CPU memory ordering, spinlock atomics, interrupts, context switches, boot, MMU registers and TLB: hardware; the steps here are those between acquiring and releasing a lock.
- Device drivers, console, traps, system-call argument fetching, ELF loading in exec.c: plumbing with easy claims.
- src/kalloc.c, src/kernel/pagenav.c and src/virtio.h: not part of the kernel that is built.
- Directories and path names (dirlookup, dirlink, namex, create, sys_unlink, sys_link): clients of readi and writei.
- Inode reference counts and the busy flag (iget, idup, iunlock): the model keeps which inodes are valid in memory, by number.
- Device inodes: readi and writei hand them to the device, so the contracts exclude T_DEV.
- mkfs's host I/O and the files it puts on the image; the layout constants are used.
- A program that runs Fs over Wal: Fs yields traces, Wal runs any such traces, and the crash theorems are about the run they share.
- Fs.FileSystem.AllocData: when the data area is full the code goes on with a log block, or panics if those are marked; the model stops there (OutOfBlocks), and what a file in the log does to it is not followed.
- Fs.FileSystem.Filewrite: no other process writes the file or takes blocks between two chunks.
- Fs.FileSystem.Iput: whether the caller has the last reference is a parameter.
- Fs.FileSystem.Ilock: the busy flag and sleeping on it are not modelled.
- Fs.FileSystem.Recycle: iget's search, its counts and the limit NINODE are not modelled.
- iput outside a transaction, which some system calls do, or inside a larger one; how many buffers a truncation needs.
- Bio.Bcache.Bread: asks that the sector's buffer is not held and that one can be recycled; Bget has the sleep and the panic.
- Wal.LogDev.constructor: a header with repeated or impossible sectors, which the log code never writes, is not covered.
- Proc.Ptable.Kill: that a killed process ends is not claimed, since the trap code never looks at the flag.
- FileTable.Files.SysOpen: the access mode, which read and write look at, is not kept.
- Fileclose on an inode calls iput, which is the subject of Fs; FileTable only drops the file.
- Sh.Parser.ParseRedirs: returns the redirections instead of wrapping at once, because the code goes on filling the exec node after wrapping it.
- Pid overflow after 2^31 forks.
- Wal.LogDev.CommitTrans: asks that no buffer is held and that fewer than NBUF sectors are logged, which CommitFits gives for a transaction that found its buffers.
- Wal.LogDev.RunTxn: one client at a time; other processes that hold buffers meanwhile are not modelled.
- Buddy.Kmem.KFree: asks that the caller frees a block it was given with the order it asked for; the code detects only some other frees.
- Fs.FileSystem.Bmap: asks for a block of the file or the next one; the kernel never asks for others, as writei refuses gaps.
- Vm.Vmm.FreeVm: asks that deallocuvm skips no mapped page, which holds without gaps from 0, as exec, fork and sbrk build address spaces; with one the page table of a mapped page would be freed.
- Vm.Vmm.KptAlloc: takes never-used table pages from an endless supply; the fallback to the buddy allocator, with an order that does not match the table size, is not modelled.
- Umalloc.Heap.Malloc: sbrk's answer is a parameter; 32-bit overflow of the unit count is not modelled.
- Sleeping loops: each call models one pass under the lock, up to sleeping or returning; that a woken process is scheduled is not claimed. Pipe has no step for a kill that wakes a sleeper.
- Proc.Ptable.Run: which runnable process the scheduler's scan picks is left open.
- grep's line buffer, the other user utilities and usertests: I/O loops and finite tests.
