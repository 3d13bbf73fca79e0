# Verification of the uva-os-world5 kernel's storage stack and its neighbours

A Dafny model of an xv6-style kernel, with proofs. `dafny verify dfyconfig.toml` checks the whole project.

- **File system** (`Blocks`, `Layout`, `DiskImage`, `Volume`, `Demand`, `FileSystem`, `Truncation`, `Ledger`): the disk
  as raw 512-byte blocks, with the bitmap and the inodes inside them, the block allocator, the three-level block map,
  reads, writes, truncation and inode allocation as methods over that disk. `Volume` is the theory of pointer
  slots and ownership. `DiskImage` says at which byte of the disk everything lies. `Demand` is the theory of the
  blocks a loop over a file needs: how far it gets, what it takes and when it stops the machine follow from the free
  blocks and the filled slots before it.
- **Whole runs of the file system** (`Runs`, `Replies`, `Accounts`, `Sizes`, `Leaks`): any run of operations is a run
  on plain byte sequences with the slots each file fills, it is determined by its operations, and it stops exactly
  where that simple system says; every block is followed through it.
- **Directories and paths** (`Names`, `Directory`, `Paths`, `Walks`): 16-byte entries as finite maps, and path walking
  with its reference counts, as a function of path, tree and references.
- **Buffer cache** (`BufferCache`, `BufferRing`): a state machine over all interleavings of any number of threads,
  and the circular list with its prev and next links, whose critical sections are the machine's steps.
- **In-memory inode table** (`InodeTable`, `InodeSafety`, `InodeNests`, `InodeOrphans`, `InodeRuns`): the iget, idup,
  ilock, iput and ialloc protocol as a state machine, with the window in iput where the table lock is let go and with
  ".." entries that outlive the inode they name; what every run keeps, when references stay good, in which directories
  a ".." can be stale, which inodes are lost, and three concrete runs.
- **malloc and free** (`Heap`, `HeapClients`): the pool and its free lists, and which runs of requests it can serve.
- **Two-word arithmetic** (`WideArith`), **pipes** (`Pipe`), **console input** (`Console`) and **LEB128** (`Leb128`,
  section 7.6 of the DWARF 4 standard).
- `Counting` counts threads and requests; `Rings` is the ring that pipes and console share.

Panics and BUG stop the machine: methods report them as an outcome (`Hang`, `Bug`, `panic`), never as a
precondition, and say when they can happen. Copies to and from user memory succeed or fail whole, as a function
passed in decides; the kill flag is passed in the same way.

Where the code does not do what its comments or its callers expect, the model keeps the code and the project
states exactly when it does:

- truncation leaves the doubly indirect tree behind (`Ledger.TruncateFreesAll`), and a later allocation of the
  inode loses those blocks (`Ledger.WipeLeaks`); over a run blocks are lost exactly by such reuses
  (`Accounts.NoLeakRun`), as in `Leaks.LeakRun` and `Leaks.LeakExample`;
- unlinking a directory takes away the link its ".." gave to the parent and leaves the entry, so ".." can lead to a
  freed inode and ilock then panics (`InodeSafety.SafeIff`, `InodeSafety.StalePanics`, `InodeRuns.PanicRun`); such a
  ".." lies in a directory that has lost its name, but not always in one without links, because create makes
  subdirectories in an unlinked directory too (`InodeNests.FirstStale`, `InodeRuns.LinkedStaleRun`);
- an iput that overlaps the tail of another iput of the same slot can lose an inode for good
  (`InodeOrphans.OrphanedIff`, `InodeRuns.OrphanRun`);
- a write to a pipe killed part way can leave a reader asleep with bytes to read (`Pipe.StrandedIff`,
  `Pipe.StrandedRun`);
- an inode number of 65536 or more does not survive a directory entry (`Directory.FoundIff`, `Directory.NumberLost`);
- a backspace does not undo the key that fills the console ring (`Console.Rubout`, `Console.RuboutFails`).

## Model

| member | source | states |
|---|---|---|
| `Blocks.SetWord` | uva-os-world5/kernel/fs.c:466-472 | a block seen as 32-bit little-endian words: storing word k changes word k to the value stored and no other word |
| `Blocks.PutBlockBitAt` | uva-os-world5/kernel/fs.c:96-99 | setting or clearing one bitmap bit changes exactly that bit of the 4096 in a block |
| `Volume.DataSlotInjective` | uva-os-world5/kernel/fs.c:446-498 | different block indexes of a file, direct, indirect or doubly indirect, use different pointer slots |
| `Volume.DataSlotOnto` | uva-os-world5/kernel/fs.c:446-498 | and every data slot of an inode, 12 direct, 128 indirect and 128 * 128 doubly indirect ones, is that of one block index below MAXFILE, in this order |
| `Volume.FitsIff` | uva-os-world5/kernel/fs.c:597-598 | a file has a slot for each of its blocks exactly if it is no longer than writei allows |
| `Volume.NeverLive` | uva-os-world5/kernel/fs.c:87-110 | under the ownership invariant a block that balloc hands out is reached by no pointer of any inode |
| `Volume.HangIt` | uva-os-world5/kernel/fs.c:447-473 | storing the number of a fresh block in an empty slot keeps ownership: every block reached is in use, outside the metadata area, and reached by one pointer; all other pointers stand |
| `Volume.HangGrew` | uva-os-world5/kernel/fs.c:447-473 | such a store grows one tree, changes no byte of any file, and uses up one free block |
| `Volume.HangPtr` | uva-os-world5/kernel/fs.c:447-473 | hanging a fresh block into an empty slot changes that pointer and no other, at every depth of every tree |
| `Volume.MapDirect` | uva-os-world5/kernel/fs.c:446-454 | the direct branch of bmap meets the outcome specification Mapped |
| `Volume.MapIndirect` | uva-os-world5/kernel/fs.c:455-477 | the indirect branch meets Mapped: the block mapped, 0 exactly when space runs out, the blocks used up counted |
| `Volume.MapDouble` | uva-os-world5/kernel/fs.c:478-499 | the doubly indirect branch meets Mapped |
| `Volume.MissingCounts` | uva-os-world5/kernel/fs.c:440-503 | the blocks bmap has to allocate for block bn are the empty slots on its route: the data slot and the index slots above it |
| `Volume.FetchedBy` | uva-os-world5/kernel/fs.c:440-503 | bmap fills exactly the empty slots on that route when there are blocks for all of them, and else fills some of them with every block there is |
| `Volume.WriteChunk` | uva-os-world5/kernel/fs.c:604-611 | overwriting part of one mapped data block changes exactly those bytes of that file and no byte of another |
| `Volume.ProgressWrote` | uva-os-world5/kernel/fs.c:600-612 | one more chunk extends the part of the source stored so far, and leaves no hole below it |
| `Volume.ProgressDone` | uva-os-world5/kernel/fs.c:614-620 | the size update at the end of writei turns the stored part into a written file, without holes if there were none |
| `Volume.WrittenContent` | uva-os-world5/kernel/fs.c:589-624 | seen as byte sequences: the written file has the data spliced in at off, growing if needed, and every other file is the same sequence as before |
| `Volume.NothingMissing` | uva-os-world5/kernel/fs.c:566-569 | in a file without holes every block below its size is mapped, so the bmap call inside readi allocates nothing |
| `Layout.SetDinode` | uva-os-world5/kernel/fs.c:258-266 | storing a dinode and reading it back gives the same inode, and the other inodes of the block are kept |
| `DiskImage.DinodeBytes` | uva-os-world5/kernel/fs.h:41-53 | type, major, minor and nlink are the signed little-endian shorts at bytes 0, 2, 4 and 6 of the 128 of a dinode, size the 32-bit number at 8, and block number j the one at 12 + 4 * j |
| `DiskImage.SetDinodeBytes` | uva-os-world5/kernel/fs.c:252-269 | storing a dinode changes none but its first 68 bytes |
| `DiskImage.InodeOnDisk` | uva-os-world5/kernel/fs.h:58-62 | inode i is dinode i % 4 of the block i / 4 blocks into the inode area |
| `DiskImage.BitmapOnDisk` | uva-os-world5/kernel/fs.h:64-68 | block b is in use when bit b % 8 of byte b % 4096 / 8 of bitmap block b / 4096 is set |
| `DiskImage.PointersOnDisk` | uva-os-world5/kernel/fs.c:440-503 | the block map is the one the raw disk spells, from the bytes of the inode through the words of its index blocks |
| `DiskImage.ContentOnDisk` | uva-os-world5/kernel/fs.c:440-503 | and so are the size and every byte of every file that is written back |
| `Layout.StoreBit` | uva-os-world5/kernel/fs.c:94-100 | a bitmap store on disk marks exactly the block meant, across bitmap blocks |
| `Layout.StoreDinode` | uva-os-world5/kernel/fs.c:252-269 | an inode store on disk changes exactly that inode |
| `Layout.StoreData` | uva-os-world5/kernel/fs.c:604-611 | a store into the data area changes exactly that block |
| `Layout.ZeroDisk` | uva-os-world5/usr/mkfs.c:112-113 | a disk of zeros holds only free inodes and no used block |
| `Truncation.StillUsed` | uva-os-world5/kernel/fs.c:515-532 | while itrunc works, every block it has still to free is marked in use, so bfree cannot panic |
| `Truncation.CutAddr` | uva-os-world5/kernel/fs.c:515-520 | freeing and clearing one direct pointer keeps the loop invariant of itrunc |
| `Truncation.CutInd` | uva-os-world5/kernel/fs.c:525-528 | freeing one block of the indirect block keeps the loop invariant of itrunc |
| `Truncation.CutDone` | uva-os-world5/kernel/fs.c:508-537 | at the end exactly the direct, indirect and index blocks of the inode are free again, and ownership holds |
| `Ledger.ExtendsConserves` | uva-os-world5/kernel/fs.c:440-503 | growing a tree by bmap conserves blocks: what leaves the free set enters the tree |
| `Ledger.TruncatedTouched` | uva-os-world5/kernel/fs.c:508-537 | truncation conserves blocks: free blocks plus blocks of this inode stay the same in number, and no other tree changes |
| `Ledger.TruncateFreesAll` | uva-os-world5/kernel/fs.c:508-537 | itrunc frees every block the inode owned exactly when the inode has no doubly indirect tree |
| `Ledger.TruncatedTaken` | uva-os-world5/kernel/fs.c:508-537 | the slots filled after itrunc are exactly those of the doubly indirect tree that were filled before |
| `Ledger.HeldTaken` | uva-os-world5/kernel/fs.c:440-503 | an inode holds one block for each filled slot, no block twice |
| `Ledger.TakenConserved` | uva-os-world5/kernel/fs.c:440-537 | operations on an inode conserve free blocks plus filled slots |
| `Ledger.WipedTaken` | uva-os-world5/kernel/fs.c:229-236 | clearing an inode in ialloc empties its slots and no other inode's |
| `Ledger.RunTouched` | uva-os-world5/kernel/fs.c:440-537 | any sequence of operations on one inode conserves free plus owned blocks |
| `Ledger.HeldConserved` | uva-os-world5/kernel/fs.c:440-537 | an operation on an inode conserves the number of free blocks plus the blocks it holds |
| `Ledger.TreesAddUp` | uva-os-world5/kernel/fs.c:440-503 | no block hangs in two trees: the blocks held by all inodes together are the sum of what each holds |
| `Ledger.NoLeakIff` | uva-os-world5/kernel/fs.c:87-127 | free blocks and held blocks add up to the data area exactly when no block is lost, and never to more |
| `Ledger.TouchedNoLeak` | uva-os-world5/kernel/fs.c:440-537 | operations on an inode lose no block: every used data block still hangs in some tree |
| `Ledger.WipeLeaks` | uva-os-world5/kernel/fs.c:229-236 | clearing a free inode in ialloc loses blocks exactly when it still carried a tree (the doubly indirect one itrunc leaves) |
| `Demand.GoingEnds` | uva-os-world5/kernel/fs.c:566-612 | a loop over blocks that took a block for each empty slot so far and ends in this turn ends where Goes, a function of the free blocks and filled slots before the loop, says, with the same verdict on BUG |
| `Demand.GoesTells` | uva-os-world5/kernel/fs.c:566-612 | where that is: the blocks for what was moved were there, and for the next chunk a block lacked or its copy fails; BUG exactly when the index block lacks too, past the indirect blocks |
| `Demand.GoesFar` | uva-os-world5/kernel/fs.c:566-612 | with blocks for all of it a loop moves all that can be copied and does not stop the machine |
| `Demand.GoesNoFarther` | uva-os-world5/kernel/fs.c:566-612 | no loop moves more than can be copied |
| `Demand.CopiedIs` | uva-os-world5/kernel/fs.c:566-612 | what can be copied: chunk by chunk, each to the end of its block or of the transfer, up to the first that cannot |
| `Demand.Covered` | uva-os-world5/kernel/fs.c:566-612 | where every slot is filled a loop takes no block |
| `FileSystem.Fs.constructor` | uva-os-world5/usr/mkfs.c:260-281 | a formatted disk satisfies the ownership invariant: only free inodes that hold nothing, every data block free, no block lost |
| `FileSystem.FindFree` | uva-os-world5/kernel/fs.c:92-105 | the search over bitmap blocks and bits finds the first free block, or that there is none |
| `FileSystem.Fs.Balloc` | uva-os-world5/kernel/fs.c:87-110 | balloc takes the first free block, marks and zeroes it, and returns 0 exactly when no block is free |
| `FileSystem.Fs.Bfree` | uva-os-world5/kernel/fs.c:113-127 | bfree marks one block free; it panics exactly when that block is already free |
| `FileSystem.Fs.Bmap` | uva-os-world5/kernel/fs.c:440-503 | bmap returns the block mapped at bn, allocating what is missing; it changes no byte of any file, keeps ownership, returns 0 only when space ran out, and stops in BUG only then |
| `FileSystem.Fs.BmapDirect` | uva-os-world5/kernel/fs.c:446-454 | the direct branch |
| `FileSystem.Fs.BmapIndirect` | uva-os-world5/kernel/fs.c:455-477 | the indirect branch, with its index block |
| `FileSystem.Fs.BmapDouble` | uva-os-world5/kernel/fs.c:478-499 | the doubly indirect branch as written, including the unchecked first balloc |
| `FileSystem.Fs.Iupdate` | uva-os-world5/kernel/fs.c:252-270 | the in-core inode is copied to its place on disk, byte by byte as fs.h lays it out, and no other byte of the disk changes |
| `FileSystem.Fs.WriteTurn` | uva-os-world5/kernel/fs.c:601-611 | one turn of the write loop stores its whole chunk or nothing, and says why not |
| `FileSystem.Fs.WriteLoop` | uva-os-world5/kernel/fs.c:600-612 | the loop stores a prefix of the source; how long it is, whether bmap stops in BUG, and which slots are filled at the end follow exactly from the free blocks and filled slots before it |
| `FileSystem.MovingGoes` | uva-os-world5/kernel/fs.c:566-612 | after any number of turns of readi or writei exactly the empty slots of the bytes moved were filled, at one block each |
| `FileSystem.Fs.Writei` | uva-os-world5/kernel/fs.c:589-624 | returns -1 exactly for an offset past the end or a file longer than 512 * (12 + 128 + 128 * 128) bytes, with nothing changed; else replaces exactly bytes [off, off+r), growing the file if needed, with r, the blocks taken and BUG as WriteLoop says, also for the part stored before BUG; r is all of it if there are blocks and the copies succeed; touches no other file, keeps ownership and the absence of holes, conserves blocks, and writes the inode back |
| `FileSystem.Fs.ReadTurn` | uva-os-world5/kernel/fs.c:567-577 | one turn of the read loop delivers the bytes of the file at its offset |
| `FileSystem.Fs.ReadLoop` | uva-os-world5/kernel/fs.c:566-578 | the loop delivers consecutive bytes of the file, as many as the blocks for its holes and the copies allow, exactly; -1 exactly when the blocks were there and the copy failed; BUG exactly as for writes |
| `FileSystem.Fs.Readi` | uva-os-world5/kernel/fs.c:555-580 | for a file without holes: content[off..min(off+n, size)] as far as it can be copied, with that length returned, or -1 at the first chunk that cannot, and disk and inode left untouched; 0 and no bytes for an offset past the end or a sum that wraps; holes read as zeros and take blocks as ReadLoop says |
| `FileSystem.Fs.FreeAddr` | uva-os-world5/kernel/fs.c:516-519 | one direct pointer of itrunc |
| `FileSystem.Fs.FreeIndirect` | uva-os-world5/kernel/fs.c:525-528 | the loop over the indirect block |
| `FileSystem.Fs.Itrunc` | uva-os-world5/kernel/fs.c:508-537 | itrunc never hits the freeing-free-block panic, frees exactly the direct and indirect blocks, empties the file and touches no other |
| `FileSystem.Fs.Ilock` | uva-os-world5/kernel/fs.c:326-354 | loads the inode from its bytes on disk and nothing else; panics exactly when it is not in memory and has no type on disk |
| `FileSystem.Fs.FreeInode` | uva-os-world5/kernel/fs.c:407-410 | truncates, clears the type and keeps the other fields, writes back and drops the in-core copy; the slots then filled are exactly those of its doubly indirect tree |
| `FileSystem.Fs.Ialloc` | uva-os-world5/kernel/fs.c:221-246 | takes the first inode from number 1 on whose type is 0 and zeroes its 128 bytes on disk but for the type it sets, so that major, minor, nlink, size and block numbers are 0, and no other byte changes; 0 exactly when there is none |
| `Runs.DoWrite` | uva-os-world5/kernel/fs.c:589-624 | a write is a splice on a plain byte sequence: -1 exactly for a bad range, else as many bytes as its copies and the free blocks allow, filling exactly the slots it asked for; it stops the machine exactly on a free inode or where the blocks for a chunk past the indirect blocks fall short by two or more |
| `Runs.DoRead` | uva-os-world5/kernel/fs.c:555-580 | a read is the slice data[off..min(off+n, size)] of a plain byte sequence, as far as it can be copied, and changes nothing; -1 exactly when a copy fails, after the bytes before; it stops exactly on a free inode |
| `Runs.ReadsDeliver` | uva-os-world5/kernel/fs.c:555-580 | whatever the simple file system replies to a read is that slice |
| `Runs.WritesStore` | uva-os-world5/kernel/fs.c:589-624 | whatever it replies to a write with blocks for all of it and copies that succeed: -1 exactly for a bad range, else the whole data spliced in |
| `Runs.DoTruncate` | uva-os-world5/kernel/fs.c:508-537 | a truncation empties one file and all its slots but those of its doubly indirect tree; it stops exactly on a free inode |
| `Runs.DoRemove` | uva-os-world5/kernel/fs.c:407-410 | freeing an inode removes one file, with the same account; it stops exactly on a free inode |
| `Runs.DoCreate` | uva-os-world5/kernel/fs.c:221-246 | an allocation makes the first free inode an empty file and never stops |
| `Runs.Run` | uva-os-world5/kernel/fs.c:221-624 | whole runs: over any sequence of creations, writes, reads, truncations and removals, each with copies that succeed or fail on their own, the replies are those of a table of plain byte sequences with the slots each file fills; a run ends early only at an operation that stops in that table, as told from the state before it; else all are served, and ownership, write-back and absence of holes hold at the end |
| `Runs.StopsOrServes` | uva-os-world5/kernel/fs.c:221-624 | an operation that is served is none that stops, so a run ends early exactly there |
| `Replies.ServesOnce` | uva-os-world5/kernel/fs.c:221-624 | the simple file system gives one reply and one next state to each operation, blocks and slots included |
| `Replies.RunOnce` | uva-os-world5/kernel/fs.c:221-624 | so two runs of the same operations from the same state give the same replies, the same states and stop at the same place |
| `Replies.InPlace` | uva-os-world5/kernel/fs.c:589-624 | overwriting a file in place takes no block, stores all that can be copied in and never stops the machine, however full the volume is |
| `Replies.FlatNeverStops` | uva-os-world5/kernel/fs.c:440-503 | a write that ends within the direct and indirect blocks never stops the machine for lack of blocks |
| `Replies.TracesSolid` | uva-os-world5/kernel/fs.c:221-624 | in every run files have no holes: the slots of every block below the size are filled |
| `Runs.Mkfs` | uva-os-world5/usr/mkfs.c:112-117 | a new file system is a state from which such runs can start: free inodes that hold nothing, all data blocks free |
| `Accounts.Conservation` | uva-os-world5/kernel/fs.c:221-624 | over every run, free blocks plus held blocks plus blocks lost stay the same number |
| `Accounts.TracesTidy` | uva-os-world5/kernel/fs.c:221-624 | over every run from a tidy state a free inode holds blocks exactly when it has a doubly indirect tree |
| `Accounts.LostIff` | uva-os-world5/kernel/fs.c:229-236 | a run loses blocks exactly when it creates a file in an inode that still has a doubly indirect tree |
| `Accounts.NoLeakRun` | uva-os-world5/kernel/fs.c:221-624 | a run on a volume without lost blocks ends in one exactly when no creation reused such an inode |
| `Accounts.GrowThenTruncate` | uva-os-world5/kernel/fs.c:440-624 | growing an empty file by any reads, writes and truncations and then truncating it restores the free count exactly when it has no doubly indirect tree by then; writes below the doubly indirect blocks never build one |
| `Sizes.RoutesAre` | uva-os-world5/kernel/fs.c:446-498 | the slots that the first b blocks of a file fill, in closed form |
| `Sizes.CostIs` | uva-os-world5/kernel/fs.c:446-498 | and their number: a file of b blocks takes b blocks and its index blocks, also in closed form |
| `Leaks.WritesDeep` | uva-os-world5/kernel/fs.c:478-624 | a write into an empty file leaves a doubly indirect tree exactly when it is allowed, reaches past the indirect blocks and meets at least 143 free blocks |
| `Leaks.LeakRun` | uva-os-world5/kernel/fs.c:229-537 | create, write, remove, create on a new file system, for every geometry with two inodes and all data: the replies and states are those of these operations, the run stops exactly when the write does, and else loses blocks exactly under that condition |
| `Leaks.LeakExample` | uva-os-world5/kernel/fs.c:229-537 | with 141 blocks of data on a volume with 143 free all four are served and blocks are lost |
| `Names.Strncmp` | uva-os-world5/kernel/string.c:71-79 | 0 exactly when the two strings agree up to their terminators or n bytes |
| `Names.Strncpy` | uva-os-world5/kernel/string.c:81-92 | the field holds the string cut at n bytes and zeros behind it |
| `Directory.SetDirent` | uva-os-world5/kernel/fs.h:73-76 | a directory entry stored in 16 bytes reads back as itself |
| `Directory.EntryBytes` | uva-os-world5/kernel/fs.h:73-76 | entry k lies at byte 16 * k of a directory: the inode number, low byte first, and 14 bytes of name |
| `Directory.FirstMatch` | uva-os-world5/kernel/fs.c:645-657 | a lookup is decided by the first live entry of that name |
| `Directory.FillSlot` | uva-os-world5/kernel/fs.c:677-687 | filling an empty slot, or a new one at the end, with a new name adds that name to the listing and changes no other |
| `Directory.ClearSlot` | uva-os-world5/kernel/sysfile.c:271-274 | when live names are distinct, emptying an entry removes exactly its name from the listing |
| `Directory.LinkedListing` | uva-os-world5/kernel/fs.c:664-691 | the listing after a link, and distinct live names stay distinct |
| `Directory.StoreEntry` | uva-os-world5/kernel/fs.c:685-688 | a 16-byte store at a multiple of 16 replaces or appends exactly one entry |
| `Directory.ReadDirent` | uva-os-world5/kernel/fs.c:646-647 | entry k of the directory; a panic exactly when the directory ends inside it or a hole under it lacks blocks |
| `Directory.Dirlookup` | uva-os-world5/kernel/fs.c:636-660 | finds the first entry of the name and its inode number, or 0; panics exactly on a file that is no directory, when a hole up to that entry lacks blocks, or at the ragged end of a directory without the name; changes no entry, fills exactly the holes up to there, and changes nothing at all in a directory without holes |
| `Directory.EmptySlot` | uva-os-world5/kernel/fs.c:676-682 | the first empty entry, or the end; panics exactly when a hole up to there lacks blocks, or at the ragged end of a directory without an empty entry |
| `Directory.WriteDirent` | uva-os-world5/kernel/fs.c:687-688 | an entry is written whole or not at all: -1 exactly past the largest file, whole exactly when else the blocks for it are there, BUG exactly when past the indirect blocks they fall short by two or more; blocks are taken for this directory only and each is accounted for |
| `Directory.Dirlink` | uva-os-world5/kernel/fs.c:664-691 | the reply is a function of the directory and the free blocks before: a panic exactly as dirlookup's, or BUG in the write; -1 exactly if the name is there, the directory is full, or the blocks for the entry lack; else the first empty entry or a new one holds the entry, the name is found with its number cut to 16 bits, every other lookup and every other file is unchanged, and live names stay distinct; blocks are taken for this directory only and each is accounted for |
| `Directory.LinksIff` | uva-os-world5/kernel/fs.c:664-691 | dirlink succeeds exactly in a directory that is not ragged, lacks the name, is not full, and for which with the new entry there are blocks |
| `Directory.LinkSolid` | uva-os-world5/kernel/fs.c:664-691 | in a directory without holes that has an empty entry it fails exactly if the name is there |
| `Directory.LinkReturns` | uva-os-world5/kernel/fs.c:664-691 | within the direct and indirect blocks dirlink returns if its lookup does, with -1 exactly if the name is there or blocks lack |
| `Directory.PlaceFor` | uva-os-world5/kernel/fs.c:664-682 | the first half: a panic exactly as dirlookup's, -1 exactly if the name is there, else the first empty entry or the end, with every hole filled, so that the second scan cannot panic |
| `Directory.LinkAt` | uva-os-world5/kernel/fs.c:684-690 | the second half: the entry is written, or the directory is as it was, as told from the free blocks before the first half |
| `Directory.FoundIff` | uva-os-world5/kernel/fs.c:664-691 | a linked name is found with the number it was given exactly when that number is below 65536 |
| `Directory.NumberLost` | uva-os-world5/kernel/fs.c:664-691 | linking inode 65537 in any directory that lacks the name makes the name lead to inode 1 |
| `Directory.ClearName` | uva-os-world5/kernel/sysfile.c:250-274 | unlink's change to any directory, ragged or with a name twice: a panic exactly as dirlookup's, since the write of an entry just read never lacks blocks; -1 exactly if the name is not there; else its first entry is zeroed, other names are found as before, and with distinct names exactly this one goes from the listing |
| `Directory.ClearFirst` | uva-os-world5/kernel/sysfile.c:271-274 | after zeroing the first entry of a name a lookup finds what stands behind it |
| `Directory.ClearOther` | uva-os-world5/kernel/sysfile.c:271-274 | and other names as before |
| `Paths.SplitSpell` | uva-os-world5/kernel/fs.c:695-731 | however many slashes stand before, between and behind, a path splits into the components it spells |
| `Paths.Skipelem` | uva-os-world5/kernel/fs.c:707-731 | takes off the first component, cut at DIRSIZ bytes, and the slashes around it; none exactly when there is no component |
| `Paths.Itable.constructor` | uva-os-world5/kernel/fs.c:203-212 | a table with no references |
| `Paths.Itable.Iget` | uva-os-world5/kernel/fs.c:276-309 | one more reference on the slot of that inode, found or newly filled; panics exactly when all slots are taken by others; one slot per inode |
| `Paths.Itable.Idup` | uva-os-world5/kernel/fs.c:313-320 | one more reference on the same slot |
| `Paths.Itable.Ilock` | uva-os-world5/kernel/fs.c:326-354 | loads the inode; panics exactly when it is not in memory and free on disk; references stay |
| `Paths.Itable.Iput` | uva-os-world5/kernel/fs.c:388-419 | one reference less; if it was the last to an inode in memory with link count 0 that inode is free afterwards, of whatever type, and no other inode changes; else none does |
| `Paths.Itable.Namex` | uva-os-world5/kernel/fs.c:738-780 | for every path, every tree, linked or not, and every table, exactly what Follow says: the inode found with exactly one new reference, none at all with the references as they were, or a panic with the inode in hand; which unlinked inodes are freed on the way; a panic exactly for a root without a slot, an inode free on disk and not in memory, or a component that names an inode for which there is no slot; dirlookup's own panics are absent |
| `Paths.Itable.Walk` | uva-os-world5/kernel/fs.c:746-775 | its loop, from any directory in hand |
| `Paths.CrowdIs` | uva-os-world5/kernel/fs.c:281-301 | whether iget finds no slot follows from the set of inodes that have one |
| `Paths.Thins` | uva-os-world5/kernel/fs.c:738-780 | a walk frees unlinked inodes only |
| `Walks.FreesExactly` | uva-os-world5/kernel/fs.c:738-780 | a walk frees exactly the inodes it leaves that nobody has and nothing links to, of whatever type |
| `Walks.CalmResolves` | uva-os-world5/kernel/fs.c:738-780 | a walk that meets no free inode and leaves none that would be freed changes nothing and ends where the components lead in the tree, unless the table is full on the way |
| `Walks.CalmIff` | uva-os-world5/kernel/fs.c:738-780 | with two slots to spare, a walk changes nothing and meets no free inode if and only if that holds of the inodes it meets |
| `Walks.SaneCalm` | uva-os-world5/kernel/fs.c:738-780 | it holds of every walk in a tree whose entries name live, linked inodes |
| `Paths.ParentThenLookup` | uva-os-world5/kernel/fs.c:738-780 | resolving a path is looking its last component up in the directory the parent walk finds |
| `BufferCache.LeastRecent` | uva-os-world5/kernel/bio.c:78-90 | the buffer recycled is, of those with refcnt 0, the one whose count fell to 0 longest ago, never-used ones first |
| `BufferCache.PutsRecent` | uva-os-world5/kernel/bio.c:154-164 | moving a released buffer to the front keeps the list in the order of last releases |
| `BufferCache.NextCounted` | uva-os-world5/kernel/bio.c:59-95 | refcnt is the number of threads between their bget and their brelse, kept by every step |
| `BufferCache.NextCoherent` | uva-os-world5/kernel/bio.c:98-142 | a valid buffer nobody is changing equals its disk block, kept by every step, fills, write-backs and evictions alike |
| `BufferCache.RunInv` | uva-os-world5/kernel/bio.c:59-167 | all of this holds in every state of every interleaving of any number of threads that write back before releasing |
| `BufferCache.OneHolder` | uva-os-world5/kernel/bio.c:59-167 | at most one thread holds a buffer's lock, and refcnt counts its users |
| `BufferCache.SameHome` | uva-os-world5/kernel/bio.c:59-167 | while a thread waits for, holds or releases a buffer, the buffer keeps its device and block number |
| `BufferCache.ReadsLastWrite` | uva-os-world5/kernel/bio.c:98-241 | whoever got a buffer for a block and finds it valid reads the last completed write to that block, also after disk_write, which does not set valid |
| `BufferRing.Insert` | uva-os-world5/kernel/bio.c:158-161 | the four pointer stores that link a buffer in behind the head |
| `BufferRing.Unlink` | uva-os-world5/kernel/bio.c:156-157 | the two pointer stores that take a buffer out of the ring |
| `BufferRing.Bcache.constructor` | uva-os-world5/kernel/bio.c:33-54 | binit threads all buffers on the ring |
| `BufferRing.Bcache.Bget` | uva-os-world5/kernel/bio.c:59-95 | the two walks find a cached buffer, or the least recently released unused one; panics exactly when neither exists; the step is the Gets step of the state machine |
| `BufferRing.Bcache.Brelse` | uva-os-world5/kernel/bio.c:146-167 | the count falls and at 0 the buffer moves to the front; the step is the Puts step of the state machine |
| `BufferRing.Boots` | uva-os-world5/kernel/bio.c:33-54 | after binit the state machine is in its initial state |
| `InodeTable.NextUnique` | uva-os-world5/kernel/fs.c:276-309 | at most one slot in use stands for an inode, kept by every step, stale ".." lookups included |
| `InodeTable.NextCounted` | uva-os-world5/kernel/fs.c:276-419 | ref equals the outstanding handles, kept by every step |
| `InodeTable.NextLockOk` | uva-os-world5/kernel/fs.c:326-383 | the sleep lock of a slot has the one holder it names, kept by every step |
| `InodeTable.NextValidOk` | uva-os-world5/kernel/fs.c:388-419 | a slot marked valid stands for an inode that is allocated on disk or just being cleared, kept by every step |
| `InodeTable.NextInv` | uva-os-world5/kernel/fs.c:221-419 | the whole invariant is kept by every step of every thread, the steps inside the window of iput included |
| `InodeTable.RunInv` | uva-os-world5/kernel/fs.c:221-419 | so it holds in every state of every interleaving |
| `InodeTable.NeverBlocks` | uva-os-world5/kernel/fs.c:393-403 | the acquiresleep inside iput never blocks |
| `InodeTable.DecidedByLast` | uva-os-world5/kernel/fs.c:393-403 | in every run iput decides to free only an unlinked inode, allocated once more than freed, with nobody else on its slot |
| `InodeSafety.SafeIff` | uva-os-world5/kernel/fs.c:276-419 | a step keeps references good (every holder's inode is allocated, freed by its last holder only, a claimed inode in one hand) exactly when it does not follow a ".." to an inode that is free, being freed or claimed |
| `InodeSafety.RunSafe` | uva-os-world5/kernel/fs.c:221-419 | over every run references are good as long as no such ".." was followed, and no longer |
| `InodeSafety.NeverNoType` | uva-os-world5/kernel/fs.c:326-354 | until then ilock never meets an inode without a type |
| `InodeSafety.FreedByLast` | uva-os-world5/kernel/fs.c:393-412 | and an inode is freed on disk only when unlinked, by its only holder, once per allocation |
| `InodeSafety.StalePanics` | uva-os-world5/kernel/fs.c:347-348 | following ".." to an inode that is free or being freed lets ilock panic within three steps |
| `InodeNests.NextNested` | uva-os-world5/kernel/sysfile.c:266-366 | the links of a directory are its name and its named subdirectories, exactly, but while create or unlink hold it locked to make or remove it; kept by every step of the table, by the order in which create and unlink change links and entries |
| `InodeNests.StaleUnnamed` | uva-os-world5/kernel/sysfile.c:266-281 | a stale ".." lies in a directory that has lost its name; its links are the subdirectories made in it since, and it has none exactly when there are no such |
| `InodeNests.FirstStale` | uva-os-world5/kernel/sysfile.c:229-369 | over every run the first stale ".." followed is such |
| `InodeOrphans.OrphanedIff` | uva-os-world5/kernel/fs.c:393-418 | a step leaves an allocated, unlinked, unreferenced inode behind exactly when it is an iput by the only user of an unlinked inode that does not free it, because another iput of the same slot is past its free but has not given its reference back, or because the inode was never loaded |
| `InodeOrphans.OrphanStays` | uva-os-world5/kernel/fs.c:388-419 | such an inode is never freed while nobody holds it, and is found again exactly by a ".." that still holds its number |
| `InodeOrphans.OrphanIffMissed` | uva-os-world5/kernel/fs.c:388-419 | over every run, an inode is lost exactly when such an iput happened and no ".." found it since |
| `InodeRuns.OrphanRun` | uva-os-world5/kernel/fs.c:388-419 | a run of two threads in which it happens |
| `InodeRuns.PanicRun` | uva-os-world5/kernel/sysfile.c:271-286 | a run of three threads, with the parent directory unlinked and freed while another thread sits in its unlinked child, that ends with ilock about to panic; the child has no links |
| `InodeRuns.LinkedStaleRun` | uva-os-world5/kernel/sysfile.c:297-369 | the same with a subdirectory made in the child after it was unlinked: the stale ".." lies in a directory with a link |
| `WideArith.AddSsaaaa` | newlib/include/longlong.h:1597-1605 | two-word addition modulo two words, for every word size |
| `WideArith.SubDdmmss` | newlib/include/longlong.h:1607-1615 | two-word subtraction modulo two words |
| `WideArith.Carry` | newlib/include/longlong.h:1597-1605 | a wrapped sum is below an addend exactly when it wrapped |
| `WideArith.UmulBySmul` | newlib/include/longlong.h:1617-1628 | the unsigned product recovered from the signed one, exactly |
| `WideArith.UmulPpmm` | newlib/include/longlong.h:1630-1655 | the exact two-word product out of half-word products, for every even word size |
| `WideArith.Estimate` | newlib/include/longlong.h:1672-1675 | each quotient digit estimate is at most B + 1, its product with the low half of d fits a word, and the partial remainder is below d |
| `WideArith.Correct` | newlib/include/longlong.h:1676-1683 | the corrections in wrapping arithmetic: at most two, the carry test telling exactly whether an addition wrapped |
| `WideArith.Digit` | newlib/include/longlong.h:1672-1696 | one quotient digit is exact, and its estimate, the quotient by the high half of d, at most 2 too large |
| `WideArith.UdivQrnnd` | newlib/include/longlong.h:1665-1700 | normalized division is exact for every even word size: q * d + r = n1 * 2^W + n0 with r < d |
| `WideArith.AndMask` | newlib/include/longlong.h:45-45 | the mask of __ll_lowpart is the remainder modulo B |
| `WideArith.OrParts` | newlib/include/longlong.h:1675-1698 | or of a high part and a low part is their sum |
| `Heap.Pool.constructor` | uva-os-world5/kernel/alloc.c:265-286 | an empty pool satisfies the partition invariant |
| `Heap.Pool.Remaining` | uva-os-world5/kernel/alloc.c:289-295 | what mem_get_size reports and what the carved blocks take, headers and padding included, make up the whole pool; the latter is what nMaxCount blocks of each size take |
| `Heap.CarvedPeak` | uva-os-world5/kernel/alloc.c:297-371 | of each size as many blocks were carved as were ever outstanding at a time, nMaxCount |
| `Heap.Pool.Bucket` | uva-os-world5/kernel/alloc.c:304-311 | the smallest block size that holds the request |
| `Heap.Pool.Malloc` | uva-os-world5/kernel/alloc.c:297-344 | null exactly above MAX_ALLOC_SIZE; BUG exactly when the list of the best size is empty and mem_get_size is below that block's span; else an aligned block of the best size that was not outstanding, nCount one more and nMaxCount as the code has it, and the partition invariant is kept |
| `Heap.Pool.Free` | uva-os-world5/kernel/alloc.c:347-371 | the block goes to the list of its size, nCount of that size is one less, and the partition invariant is kept |
| `Heap.Apart` | uva-os-world5/kernel/alloc.c:297-371 | blocks tile the used part of the pool: any two lie apart, aligned and inside it |
| `Heap.Regions` | uva-os-world5/kernel/alloc.c:297-371 | outstanding regions are aligned, inside the pool, and share no byte with each other or with any block header |
| `Heap.PopAll` | uva-os-world5/kernel/alloc.c:313-317 | taking a block off a free list keeps the invariant: tiling, acyclic lists of one size each, every block outstanding or on one list, nCount exact |
| `Heap.NewAll` | uva-os-world5/kernel/alloc.c:318-330 | so does carving a new block |
| `Heap.PushAll` | uva-os-world5/kernel/alloc.c:355-367 | so does returning one |
| `HeapClients.Run` | uva-os-world5/kernel/alloc.c:297-371 | over every run of requests each reply is the one asked for, the client's regions follow from requests and replies, lie apart, aligned and inside the pool at every moment, and are exactly the blocks outstanding beside those of others; the run stops if and only if the most blocks of each size that the requests have outstanding at a time, with those of others, do not fit the pool, and then at the first request with which they do not |
| `HeapClients.FreshDemand` | uva-os-world5/kernel/alloc.c:265-371 | on a new pool that depends on the peaks of the requests alone |
| `HeapClients.BugDemand` | uva-os-world5/kernel/alloc.c:313-330 | where malloc stops, all blocks of that size are outstanding and one more would not fit |
| `HeapClients.DemandMore` | uva-os-world5/kernel/alloc.c:297-371 | more requests never need less |
| `Rings.Appends` | uva-os-world5/kernel/pipe.c:95-95 | a byte stored at its count modulo the ring's size overwrites no byte still to be read |
| `Rings.KeepStretch` | uva-os-world5/kernel/pipe.c:115-126 | what a stretch delivers extends the stream without the bytes that went missing |
| `Pipe.Counters` | uva-os-world5/kernel/pipe.c:88-95 | the 32-bit counters tell full from empty and give the place in the ring even after they wrap |
| `Pipe.Ring.constructor` | uva-os-world5/kernel/pipe.c:34-37 | a new pipe is empty with both ends open |
| `Pipe.Ring.Write` | uva-os-world5/kernel/pipe.c:77-103 | a stretch of pipewrite under the lock appends exactly the bytes it counts, each copied in by a thread not killed, and fails, sleeps or returns exactly as the code does |
| `Pipe.Ring.Read` | uva-os-world5/kernel/pipe.c:106-130 | a stretch of piperead delivers the oldest bytes in order, each of them copied out; the one byte it may lose is one that could not be; it fails, when there is nothing to read, exactly if killed |
| `Pipe.Ring.Close` | uva-os-world5/kernel/pipe.c:59-74 | closing one end |
| `Pipe.RunInv` | uva-os-world5/kernel/pipe.c:77-130 | in every run with any number of readers and writers what readers received, all together, is the stream put in up to the count taken, in order, without exactly the bytes lost to failed copies; at most PIPESIZE bytes are under way, and no writer is stranded |
| `Pipe.NothingLost` | uva-os-world5/kernel/pipe.c:77-130 | while no copy has failed, what readers received is a prefix of what was put in |
| `Pipe.RunGrows` | uva-os-world5/kernel/pipe.c:77-130 | the stream of bytes put in and the count taken out only grow |
| `Pipe.StrandedIff` | uva-os-world5/kernel/pipe.c:83-102 | a step strands a sleeping reader exactly when it is a write that put bytes in, found its thread killed and left without waking readers |
| `Pipe.RunReaders` | uva-os-world5/kernel/pipe.c:59-130 | up to the first such write no reader is stranded in any run, and that write strands one |
| `Pipe.NeverBoth` | uva-os-world5/kernel/pipe.c:59-130 | a reader and a writer never sleep at the same time while nobody is stranded |
| `Pipe.StrandedRun` | uva-os-world5/kernel/pipe.c:83-86 | a run in which a reader sleeps on with a byte to read |
| `Console.TypedInv` | uva-os-world5/kernel/console.c:141-184 | r <= w <= e <= r+128, the line being edited holds no newline or ^D, a full ring has been committed, and typing never changes or takes a committed byte |
| `Console.FullReadable` | uva-os-world5/kernel/console.c:173-178 | a full ring can be read |
| `Console.Collects` | uva-os-world5/kernel/console.c:163-171 | plain bytes collect in the line as typed |
| `Console.LineEdited` | uva-os-world5/kernel/console.c:141-184 | any keys that end no line, with room for them, leave in an empty line what reading them from the last one back gives: backspace and delete erase one byte each, ^U all before it, ^P and 0 are nothing |
| `Console.LineCommitted` | uva-os-world5/kernel/console.c:163-178 | newline, return and ^D then commit that line with a newline or ^D behind it, and empty it |
| `Console.LineKilled` | uva-os-world5/kernel/console.c:149-155 | ^U gives back the state such keys were typed in |
| `Console.FullIgnores` | uva-os-world5/kernel/console.c:163-180 | a full ring takes no key |
| `Console.Rubout` | uva-os-world5/kernel/console.c:156-162 | backspace undoes a plain byte exactly unless that byte filled the ring |
| `Console.RuboutFails` | uva-os-world5/kernel/console.c:156-178 | after 127 plain keys one more and a backspace do not lead back to where they began |
| `Console.Delivers` | uva-os-world5/kernel/console.c:81-130 | a read delivers committed bytes in order, at most n and at most one line |
| `Console.EofNext` | uva-os-world5/kernel/console.c:104-111 | a ^D met after data gives a 0-byte next read |
| `Console.Cons.constructor` | uva-os-world5/kernel/console.c:44-53 | an empty console |
| `Console.Cons.KillLine` | uva-os-world5/kernel/console.c:149-155 | kill-line erases exactly the uncommitted tail |
| `Console.Cons.Intr` | uva-os-world5/kernel/console.c:141-184 | the interrupt handler on the ring does what Typed does on queue and line, with indices that wrap |
| `Console.Cons.Read` | uva-os-world5/kernel/console.c:81-130 | a stretch of consoleread does what Serve does on the committed queue |
| `Console.RunInv` | uva-os-world5/kernel/console.c:81-184 | over every run of keys and reads the bounds hold, committed bytes are only added at the end and taken at the front, and what readers received is the committed stream up to the count taken, without exactly the ^Ds used up and the bytes of failed copies |
| `Leb128.Encode` | newlib/include/leb128.h:46-53 | the canonical unsigned encoding spells its number |
| `Leb128.EncodeSigned` | newlib/include/leb128.h:78-85 | the canonical signed encoding spells its number |
| `Leb128.Figures` | newlib/include/leb128.h:46-85 | the encodings are those of the examples in figures 22 and 23 of the DWARF 4 standard |
| `Leb128.Encodable` | newlib/include/leb128.h:46-85 | every 64-bit number has an encoding of up to 10 bytes |
| `Leb128.ReadUleb128` | newlib/include/leb128.h:53-76 | the number the bytes spell modulo 2^64 and their count; 0, with nothing stored, exactly when the buffer ends first |
| `Leb128.ReadSleb128` | newlib/include/leb128.h:86-111 | the signed number with its sign extended; 0, with nothing stored, exactly when the buffer ends first |
| `Leb128.SkipLeb128` | newlib/include/leb128.h:119-134 | the same byte count as the readers, for numbers of any length |
| `Leb128.RoundTrip` | newlib/include/leb128.h:46-76 | what the reader's contract gives for every encoding of up to 10 bytes of a 64-bit unsigned number, padded or not, whatever follows, is that number and the encoding's length |
| `Leb128.RoundTripSigned` | newlib/include/leb128.h:78-111 | the same for signed numbers |
| `Leb128.EncodedBack` | newlib/include/leb128.h:46-134 | so for the canonical encoding of every unsigned 64-bit number, which is skipped as far |
| `Leb128.EncodedBackSigned` | newlib/include/leb128.h:78-134 | and of every signed one |

## Left out

- FileSystem.Fs.Readi: for a file with holes it states what is read and that the tree only grows; that the in-core
  inode then differs from its copy on disk until the next write-back follows the code and is not ruled out.
- FileSystem.Fs.constructor: writes no superblock and no root directory; it is the formatted disk before mkfs adds them.
- Directory.Dirlink: the iput of an inode found under the name is not modelled there; the reference protocol is in
  Paths and InodeTable.
- Directory.ClearName: states the change to the directory only, not unlink's link counts or its emptiness test.
- Paths.Itable.Namex: walks one thread's table on one device, with directories as lists of entries: dirlookup's own
  panics, on a ragged directory or for lack of blocks for a hole, are not in it but in Directory.Dirlookup.
  Interleavings of table operations are in InodeTable.
- InodeNests.FirstStale: the order in which create, link and unlink change links and entries is a guard on the steps
  (InodeNests.Careful), taken from that code, not proved from it. A directory may be given without a "..".
- Leb128.ReadUleb128: covers numbers that end within 10 bytes, because C leaves shifts of 64 bits and more undefined.
- Leb128.ReadSleb128: the same bound.
- Heap.Pool.Free: covers blocks that malloc handed out and nobody returned since; the magic-number check is implied
  by a header being present. Addresses do not wrap around.
- BufferCache.RunInv: threads write a buffer back before they release it, and a thread that holds several buffers
  counts as several. Device errors are not modelled.
- InodeTable.NextInv: a lookup of an ordinary name reaches a linked inode; this is a step guard, taken from the order
  in which link and unlink change entries and counts, not proved from the directory code. Lookups of "." and ".."
  have no such guard. A directory has at most one "..", and the FAT branches are absent.
- Interleavings inside file-system operations: a lock on an inode serializes the operations on that inode only. Two
  writes to different inodes can interleave between balloc and the store of the block number it returned; here each
  operation of FileSystem runs alone.
- The boot block is taken to be zero, as mkfs writes it; bmap reads it when the first balloc of its last branch fails.
- mkfs file population: only formatting is modelled; its rounding of the root directory's size can leave a hole.
- The log: its functions write through, so no crash is modelled.
- bpin, bunpin, disk_read's loop, stati, consolewrite, echo and procdump: only easy members.
- FAT glue, device drivers, exec, file.c, spinlock and sleep-lock internals, inline assembly.
- Sleep and wakeup are atomic with respect to the lock they release.
