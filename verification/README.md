# A model of icix: its file system, its early memory management and its integer printing

Three parts of the icix kernel, modelled in Dafny 4.11 with proofs of what they keep and of exactly when they do
what they are for.  `dafny verify dfyconfig.toml` checks everything.

## The file system

The inode file system of `kernel/kernel/filesystem.c` (and its host twin `fs/ufs.c`) on a byte-addressed disk, and
the formatter `fs/mkfs.c`.

- `Bits`, `Bytes`, `Format`, `OnDisk`: bitmaps, little-endian fields, the disk as bytes changed by a log of writes, the
  on-disk records, where each of their bytes and bits lies, and what a mount loads.
- `FsModel`, `FsUnlinkModel`: every call as a function on the whole state (metadata in memory, dirty bitmaps, disk), with
  the code's branches, its partial effects before a late failure, its `abort()`s and what it leaves undefined.
- `FileSystem` (`Ufs.dfy`), `UfsSteps`, `DiskDriver`: the same as a class of arrays updated in place over a disk with
  a position; each method, with the source's loops, is proved to compute the function of the same name.
- `Tree`: what a user sees, a map from inodes to directories (ordered lists of entries) and files (bytes).  A file
  that was ever overwritten is `Patched`: it has the size its inode says and the bytes that are known.
- `FsInv`: the invariants. `AllocOK` says bit d of the data bitmap is set exactly when one pointer of one allocated
  inode holds `d + data_region_addr`; `Refines` ties metadata and disk to a tree and keeps directories compact.
- `FsLookup`, `FsCreat`, `FsWrite`, `FsAppend`, `FsRead`, `FsAnswers`, `FsUnlink`, `FsUnlinkBits`, `FsUnlinkLookup`,
  `FsUndo`: what each call does to the tree, and what the next call then answers.
- `FsCommit`, `FsCover`, `FsUnlinkCover`, `FsMarks`: the dirty bitmaps cover every difference, over every run of
  creats, writes and unlinks, so a commit makes disk and memory agree.
- `FsCalls`, `FsForest`, `FsUnlinkStep`, `FsRun`, `Mkfs`, `Session`: the three calls as one datatype, one call of a run,
  whole runs, from a freshly formatted disk, and the methods that make them.
- `FsReturns`: what each call returns and makes, with types, sizes, names and return codes written out.
- `FsFirst`, `Initrd`: the calls that fill the boot image of `fs/ufs.c`; `Session` makes it, mounts it and prints it as
  the kernel does.
- `FsCrash`, `FsCrashRun`, `FsUnlinkCrash`: what a mount sees when a call, or a run, is stopped outside a commit.
- `FsCommitCrash`, `FsAtomic`, `FsStopped`, `FsCreatStopped`: what it sees when the commit itself is stopped.

A good state (`FsForest.Good`) has a tree `t` and a forest `u` around it.  The tree is what directories lead to from the
root.  The forest is all that allocated inodes show: the tree, inodes that a failed creat left claimed, and what was
put below such an inode since.

Where the code falls short of its intent the model follows the code, and the result says exactly when it still
does what is meant:

- `ufs_creat` claims its inode before its last checks (`kernel/kernel/filesystem.c:307`): `FsRun.LeaksIff`.  A
  directory left that way in an inode whose last use left it a size aborts every lookup in it: `FsForest.LookupInStuck`.
- `ufs_write` adds to the size even when it overwrites (line 473): `FsRead.WriteSizeIff`, `FsAppend.WriteHiddenIff`.
- `ufs_write` stops at the 30th pointer and still returns 0 (line 447): all of the data is written exactly when
  offset + nbytes is at most 122880, as `FsAppend.WriteRefines` says.
- `commit_dirty_to_disk` writes word by word and inode by inode (lines 243-266): `FsCommitCrash.CommitAtomicIff`,
  `FsAtomic.WriteAtomicIff`, `FsAtomic.CreatNeverAtomic`.  An append is all or nothing to its readers all the same
  (`FsStopped.AppendAllOrNothing`); for a creat `FsCreatStopped.CreatStopped` says where the data bitmap is wrong.
- `ufs_unlink` clears data bits at absolute block addresses (lines 529 and 555), where allocation subtracts
  `data_region_addr` (lines 341, 378 and 460): the model takes the base as a parameter, 0 in the class.
  `FsUnlinkBits.UnlinkAllocIff`, `FsUndo.CreatThenUnlinkAsCoded` and, on a concrete disk, `Mkfs.FreshUnlinkLeaks`
  are about the code; `FsUnlink.UnlinkLast` and `FsUndo.CreatThenUnlink` about the intent.
- Such an index may lie past the last data block, where no dirty bit is looked at: `FsUnlinkCover.UnlinkCoversIff`.
- `ufs_unlink` leaves holes where `ufs_lookup` expects none (line 232): `FsUnlinkLookup.UnlinkThenLookup` and
  `FsUnlinkLookup.HoleStopsCreat`.  `FsUnlinkLookup.UnlinkKeepsTreeIff` gives the unlinks that leave a tree; they are
  the ones that runs may contain (`FsUnlinkStep.Gentle`, which a caller can check).
- `ufs_init` leaves the dirty bitmaps as they come (lines 151-152): every result holds for arbitrary ones.
- `1 << (31 - i)` for i above 31 (line 17) is taken as the i386 shifts it, by the count modulo 32.
- `fs/ufs.c:441` falls off the end of `ufs_creat` after its commit; the kernel's version returns 0 there, and that
  is the one modelled.
- Names reach the disk through `strcpy` (lines 349-412), taken as section 7.24.2.3 of C11 has it.  The repository's own
  copies five bytes (`libc/string/strcpy.c:4` on a 32-bit machine): `Format.EntryCopiedIff` says which entries still
  read back.

## Early memory management

`Frames`, `VmmModel`, `VmmPages`, `VmmRun`, `Vmm`: the frame bitmap, the two-level page table and the bump allocator
of `kernel/arch/i386/vmm.c` and `pmm.c`.  `init_paging` identity-maps everything below a limit that `get_page`
raises while it runs; `Vmm.Memory.InitPaging` gives where it stops and when it succeeds.

- Once paging is on, `get_page` clears a new table at an address that is not mapped (`vmm.c:126-127`), and the page
  fault handler aborts (`vmm.c:134-137`): `VmmRun.NewTableFaults`.  So `malloc`, which is meant for use after paging
  is enabled (`pmm.c:28`), returns exactly as long as the tables made by `init_paging` last:
  `VmmRun.MallocIdentityIff`, `VmmRun.MallocRunIdentity`.
- `CR0` gets its paging bit but not its write-protect bit (`paging.S:17`), so the kernel may write to read-only pages.
- `pfa_free` passes a frame number where an address is expected (`vmm.c:85`, compare line 75): `VmmPages.PfaFreeIff`,
  `VmmRun.RunKeeps`.
- The frame bitmap is allocated and zeroed as 128 bytes, a quarter of its 128 words (`vmm.c:92-93`).  The other words
  hold anything: `Vmm.Memory.InitPaging`, `VmmRun.MallocIdentityIff` and `VmmRun.MallocRunIdentity` say which of their
  bits must be clear.  Where they reach into the page directory (`Vmm.BitmapOverlap`) the model shares those words:
  making a table changes frame bits (`VmmRun.TableShows`, and at a concrete address `Vmm.OverlapExample`), and what is
  said of frames is said of those whose bits lie before the directory.

## Integer to text

`IntStr`, `IntStrChars`: `__int_str` of `libc/stdio/printf.c` with its buffer, over the `strcpy` of section 7.24.2.3 of C11.
README.md:30 reports that 4096 prints as 40, "not reproduced with other numbers"; with the repository's own `strcpy`
`IntStr.CopiedTextStops` shows that every number with a digit of 5 or more is cut short there, and
`IntStr.CopiedTextIff` which signed and padded numbers come out right, in every base.

## Model

| member | source | states |
|---|---|---|
| FsRun.CallKeepsGood | kernel/kernel/filesystem.c:269-578 | One `ufs_creat` or `ufs_write` with any arguments, or one `ufs_unlink` that takes no more than the last entry of a directory and has no block to free wrongly, from any good state: the tree gains exactly one empty child, or loses exactly that leaf, or a prefix of the data stands at its place in one file (all that fits its 30 blocks, exactly when the call returns 0), or nothing changes; the new state is good again, and after a 0 disk and memory hold the same metadata; it aborts only in a directory that an earlier failed creat left without a block |
| FsUnlinkStep.UnlinkShrinks | kernel/kernel/filesystem.c:513-578 | Such an unlink returns 0 exactly when `CanUnlink` holds (the name found, neither "." nor "..", and no directory with entries of its own) and then takes that entry and its inode, in the tree or beside it; otherwise it returns -1 and changes nothing |
| FsUnlinkStep.GentleIff | kernel/kernel/filesystem.c:513-578 | What a caller can check before unlinking a removable entry, on inodes and disk alone, says exactly that it is the last one and no block is freed wrongly |
| FsUnlinkLookup.UnlinkKeepsTreeIff | kernel/kernel/filesystem.c:513-578 | Those conditions are needed: after an unlink of any removable entry some tree is shown exactly when it was the last and, with the code's indices, no block was freed |
| FsRun.RunRefines | kernel/kernel/filesystem.c:269-578 | Every run of such calls, whatever their arguments, whichever fail and whatever inodes they name, overwrites included, goes along a sequence of abstract trees, one step per call; as long as no creat leaks an inode every allocated inode is in the tree |
| FsRun.LeaksIff | kernel/kernel/filesystem.c:298-369 | A call leaves an inode claimed but unnamed exactly when a creat passed its checks, found a free inode, and then the parent or the data blocks had no room |
| FsCrashRun.CrashGivesOldAnswers | kernel/kernel/filesystem.c:356-427 | A creat or append stopped anywhere before its commit, with any part of its disk writes carried out in any order: a fresh mount finds the same superblock and gives the old answer to every lookup and every read, on any inode |
| FsCrashRun.CrashInRun | kernel/kernel/filesystem.c:269-578 | Stopped anywhere outside a commit, a run of creats, appends and unlinks that write nothing before their commit leaves a disk that gives, mounted again, the answers of the state after the last call that returned 0, however many calls failed since |
| FsCrashRun.FailureSeesMore | kernel/kernel/filesystem.c:307-578 | A failed call of such a run changes nothing that could be seen before it |
| FsCommitCrash.CommitAtomicIff | kernel/kernel/filesystem.c:243-266 | Stopping a commit between any two of its writes leaves the old or the new metadata to be loaded exactly when the two differ in one bitmap word or one inode at most |
| FsAtomic.WriteAtomicIff | kernel/kernel/filesystem.c:436-483 | A write that returns 0 has such a commit exactly when it needed no new block |
| FsAtomic.CreatNeverAtomic | kernel/kernel/filesystem.c:269-434 | No creat that succeeds has one |
| FsStopped.AppendAllOrNothing | kernel/kernel/filesystem.c:436-483 | An append stopped anywhere from its first write to the end of its commit, whether or not it needed new blocks: mounted again, the disk gives all the old or all the new answers to every lookup and every read |
| FsStopped.DependsOn | kernel/kernel/filesystem.c:202-240 | What lookups and reads answer depends on the inode bitmap, the inodes and the data region only |
| FsCreatStopped.CreatStopped | kernel/kernel/filesystem.c:243-434 | A creat stopped after any number of the writes of its commit: while inodes are being written the data bitmap that a mount loads is right exactly as long as neither the parent nor the inode marked as allocated holds a block it does not know, stale pointers included; at their end exactly when the creat needed no block; and from then on exactly when all of the new metadata is loaded |
| FsCrash.PrefixIsCrash | kernel/kernel/filesystem.c:41-48 | The disks after any prefix of a call's writes are among those |
| FsCrash.CreatHidden | kernel/kernel/filesystem.c:356-417 | Every write of a creat before its commit misses every byte within the size of any allocated inode |
| FsAppend.WriteHiddenIff | kernel/kernel/filesystem.c:466-477 | A write is harmless to stop in that sense exactly when it starts at the end of the file |
| FsLookup.LookupFinds | kernel/kernel/filesystem.c:202-240 | On a directory of the tree the nested count-down scan is find-by-name on the entry list and never trips its assertion; the error codes otherwise |
| FsLookup.LookupReads | kernel/kernel/filesystem.c:211-239 | A lookup that misses reads exactly size / 32 entries, at most 30 blocks of them; one that hits reads up to the entry it returns |
| FsReturns.LookupCodes | kernel/kernel/filesystem.c:203-205 | -2, -3 and -4 exactly for a number out of range, a free inode, and an allocated one whose type is not 0 |
| FsReturns.LookupDots | kernel/kernel/filesystem.c:202-240 | In every directory of the tree the names of bytes 46 and 46 46 lead to it and to its parent |
| FsReturns.DotsRefused | kernel/kernel/filesystem.c:269-516 | Neither can be created or unlinked there: -1, and nothing changes |
| FsAnswers.LookupAfterCreat | kernel/kernel/filesystem.c:202-434 | Once a creat that can succeed has returned: the new name leads to the new inode, "." and ".." in a new directory to itself and its parent, and every other lookup, on any inode and with any name, answers as before |
| FsCreat.CreatRefines | kernel/kernel/filesystem.c:269-427 | Up to the commit, in a tree: returns 0 exactly when `CanCreate` holds (name new and short, inode free, parent not at 3840 entries, enough free blocks); then the tree is `AddChild`, and otherwise -1 and the tree is unchanged |
| FsCreat.CreatAnywhere | kernel/kernel/filesystem.c:269-427 | The same in any directory, reachable from the root or not |
| FsForest.CreatFrame | kernel/kernel/filesystem.c:307-386 | A creat sets at most the first free inode bit and changes at most that inode and the parent; one that returns -1 changes no data bit and not the parent |
| FsReturns.CreatRefused | kernel/kernel/filesystem.c:270-276 | In every state: -1 and no change for a parent that is not an allocated inode of type 0, or a name of more than 27 bytes |
| FsReturns.CreatReturns | kernel/kernel/filesystem.c:269-427 | In numbers: 0 exactly for a name of at most 27 bytes that is not there, a free inode, fewer than 3840 entries, and one free block for a type of 0 and one when the entries are a multiple of 128 |
| FsReturns.CreatMakes | kernel/kernel/filesystem.c:307-353 | The new inode has the type asked for, 64 bytes in one block or none, and 0xFFFFFFFF in every pointer not used |
| FsReturns.CreatTakes | kernel/kernel/filesystem.c:290-386 | Which blocks it takes: the first free one for a new directory, and the first (after that) for a new block of the parent |
| FsReturns.CreatLeft | kernel/kernel/filesystem.c:307-369 | What a creat leaves that found no room: one inode more, of the type asked for and with no block; its old size but for a file that only lacked a block; nothing written |
| FsReturns.LookupInNew | kernel/kernel/filesystem.c:202-434 | After a creat: bytes 46 and 46 46 in a new directory lead to it and to its parent, every other name to -1; in any other inode -4 |
| FsCreat.PartialDir | kernel/kernel/filesystem.c:394-409 | In a compact directory of n entries whose last block has room the first-hole search lands on block n / 128, slot n % 128 |
| FsCreat.FullDir | kernel/kernel/filesystem.c:314-332 | When n is a multiple of 128 the scan finds every block full, and the first empty pointer is number n / 128 |
| FsCreat.ClaimKeeps | kernel/kernel/filesystem.c:307-311 | Claiming a free inode changes nothing in the tree and shares no block |
| FsCreat.NewDir | kernel/kernel/filesystem.c:334-361 | A new directory's block, pointer and bitmap bit add one directory with "." and ".." to the tree |
| FsCreat.LinkRefines | kernel/kernel/filesystem.c:365-425 | Linking appends the entry to the parent, in a hole or in a new block, and fails only for want of a block |
| FsCreat.FreeBlocksCounted | kernel/kernel/filesystem.c:290-296 | The search finds a first (second) free block exactly when at least one (two) are free |
| Tree.AddChildKeepsTree | kernel/kernel/filesystem.c:348-354 | Creating keeps the tree a tree: one name per inode, "." self, ".." the directory naming it, the root reachable from every directory |
| Tree.LeafKeepsTree | kernel/kernel/filesystem.c:466-473 | Writing to a file keeps it a tree |
| Tree.DropLastKeepsTree | kernel/kernel/filesystem.c:521-569 | Removing the last entry of a directory with a leaf child keeps it a tree |
| FsInv.AllocTaken | kernel/kernel/filesystem.c:458-460 | Setting a free bit and pointing one pointer at its block keeps "bit set exactly for a block owned once" for the whole bitmap |
| FsInv.BlocksBesideWrite | kernel/kernel/filesystem.c:466-470 | A write into a block leaves the blocks of every inode that does not own it unchanged |
| FsWrite.WriteFromWrote | kernel/kernel/filesystem.c:447-475 | The write loop from any offset: a prefix of the data is written at its place, newly set pointers are those the range touches, no other inode, block or byte changes, no block is shared or leaked; it stops early only when no block is free |
| FsAppend.WriteHasRoom | kernel/kernel/filesystem.c:447-461 | The loop returns 0 exactly when the blocks it misses are free |
| FsAppend.WriteRefines | kernel/kernel/filesystem.c:436-475 | A write from any offset within the size of a file: a prefix of the data stands at its place in the tree, appended when it starts at the end; returns 0 exactly when there is room, and exactly when all that fits 30 blocks was written; that is all of the data exactly when offset + nbytes is at most 122880 |
| FsAppend.RoomUsed | kernel/kernel/filesystem.c:447-461 | A write loop that returns 0 takes exactly as many free blocks as pointers were empty |
| FsRead.WriteThenRead | kernel/kernel/filesystem.c:436-511 | For any offset in a file, with the range within 30 blocks: after a write that returns 0 a read of that range returns the data, across blocks and with new blocks |
| FsRead.WriteKeepsTheRest | kernel/kernel/filesystem.c:436-483 | Once the call has returned, every other backed byte of every file and directory is as it was |
| FsRead.ReadKept | kernel/kernel/filesystem.c:485-511 | Every read, of any inode, answers the same on every disk that differs by unseen writes only |
| FsRead.WriteSizeIff | kernel/kernel/filesystem.c:473 | The size ends up where it should exactly when the write started at the end of the file |
| FsReturns.WriteRefusedAll | kernel/kernel/filesystem.c:437-441 | In every state: -1 and no change unless the inode is allocated and of type 1, 1 to 4096 bytes are given, and the offset is within its size |
| FsReturns.CreatThenWrite | kernel/kernel/filesystem.c:269-511 | A new file of type 1 takes 1 to 4096 bytes at offset 0 exactly when a block is free for them, and they are read back |
| FsReturns.CreatThenRefused | kernel/kernel/filesystem.c:438-441 | On an inode created with any other type every write returns -1 |
| FsReturns.WriteTakesLowest | kernel/kernel/filesystem.c:449-460 | Every write takes the lowest free blocks |
| FsRead.ReadFile | kernel/kernel/filesystem.c:485-511 | Reading within the size of a file returns the bytes of the tree |
| FsRead.ReadIs | kernel/kernel/filesystem.c:489-509 | Reading within the size returns the bytes at those positions; a directory only from an entry boundary |
| FsRead.ReadReaches | kernel/kernel/filesystem.c:489-511 | In every state, within the size: the bytes as far as the 30 pointers reach, 0 even where they do not reach all of the range, and abort() exactly when a block on the way cannot be read |
| FsReturns.ReadRefused | kernel/kernel/filesystem.c:485-489 | In every state -1 and no byte for a range that is not all in the file, or of nothing, or in no inode |
| FsReturns.FileReads | kernel/kernel/filesystem.c:485-511 | Any read of a file of the tree: 0 and its bytes exactly when the whole range lies in it, else -1 and no byte |
| FsReturns.ByteReads | kernel/kernel/kernel.c:47-54 | Reading byte by byte returns 0 exactly below the file's length, so the loop that prints a file ends there |
| FsReturns.EntryReads | kernel/kernel/kernel.c:56-66 | Reading 32 bytes at a time gives the entries of a directory in order, and -1 behind the last |
| FsCommit.CommitLoads | kernel/kernel/filesystem.c:243-266 | What a mount loads after a commit: memory's word or inode where a dirty bit says so, the disk's elsewhere |
| FsCommit.CommitRestores | kernel/kernel/filesystem.c:243-266 | If the dirty bits cover all differences, a mount after the commit loads exactly what memory holds |
| FsCommit.CommitKeepsRef | kernel/kernel/filesystem.c:243-266 | A commit changes no contents |
| FsCover.CreatCovers | kernel/kernel/filesystem.c:307-386 | At every return of creat, failed ones included, whatever differs from the disk is marked dirty at an index in range |
| FsCover.WriteCovers | kernel/kernel/filesystem.c:446-473 | The same for every write |
| FsMarks.WriteSyncs | kernel/kernel/filesystem.c:436-483 | After any write that returns 0, an overwrite included, a mount loads what memory holds |
| FsMarks.CreatKeepsOrder | kernel/kernel/filesystem.c:269-434 | From any state whose differences from the disk are marked and whose pointers lead into the data region, creat leaves such a state at every return; after a 0 a mount loads what memory holds; the superblock stays |
| FsMarks.UnlinkKeepsOrder | kernel/kernel/filesystem.c:513-577 | The same for unlink, whichever data bits it clears |
| FsMarks.RunKeepsOrder | kernel/kernel/filesystem.c:269-577 | So over every run of creats, writes and unlinks, with any arguments, whatever they do to the tree and the data bitmap: after each call that returns 0 disk and memory agree |
| Mkfs.FreshRunSyncs | kernel/kernel/filesystem.c:269-577 | And on every freshly formatted disk |
| FsUnlinkCover.UnlinkCovers | kernel/kernel/filesystem.c:523-557 | The same coverage at every return of unlink, whichever data bits it clears, when the spare bits of the loaded data bitmap are clear, as they are throughout every run on a formatted disk |
| FsUnlinkCover.UnlinkCoversIff | kernel/kernel/filesystem.c:523-557 | Whatever the spare bits hold: after an unlink that returns 0 all changes are marked exactly when no freed pointer, less the base, is the index of a spare bit that the disk has set |
| FsUnlink.UnlinkLast | kernel/kernel/filesystem.c:513-578 | Unlinking the last entry of a directory removes it and its inode from the tree and nothing else, when bits are indexed as allocation indexes them, or no block is freed |
| FsReturns.UnlinkRefusedAll | kernel/kernel/filesystem.c:513-520 | In every state: -1 for bytes 46 and 46 46 and for a free inode; in an inode of another type than 0 the lookup's -4 becomes an index, which C leaves undefined |
| FsReturns.UnlinkReturns | kernel/kernel/filesystem.c:516-521 | -1 and no change for a name that is not there, and for a directory with other entries than its two |
| FsUnlink.DropChildRefines | kernel/kernel/filesystem.c:523-531 | Dropping the child removes its inode and clears exactly the bits of its blocks |
| FsUnlink.FreeClears | kernel/kernel/filesystem.c:527-531 | The loop clears exactly the bits of the set pointers, less the base; it stays in the bitmap exactly when all of them do |
| FsUnlink.FindNameAt | kernel/kernel/filesystem.c:535-552 | The parent scan finds the entry's block and slot, and counts the live entries of its block |
| FsUnlinkBits.UnlinkAllocIff | kernel/kernel/filesystem.c:527-558 | As coded (bit index = block address) an unlink of any removable entry keeps the data bitmap right exactly when it frees no block |
| FsUnlinkCrash.UnlinkHiddenIff | kernel/kernel/filesystem.c:534-569 | An unlink that returns 0 is harmless to stop before its commit exactly when the entry was alone in its block |
| FsUnlinkLookup.UnlinkThenLookup | kernel/kernel/filesystem.c:554-568 | After unlinking entry e of any directory, lookups find the entries before e; any other returns -1 if e was the last and aborts at the hole otherwise |
| FsUnlinkLookup.HoleStopsCreat | kernel/kernel/filesystem.c:269-281 | Once a hole is left, no name can be created in that directory: every creat of a name not found before the hole aborts |
| FsUndo.CreatThenUnlink | kernel/kernel/filesystem.c:269-578 | With bits indexed as allocation indexes them, creat then unlink of the new name restores the tree, both bitmaps and every inode in use, also when the creat opened a directory block |
| FsUndo.CreatThenUnlinkAsCoded | kernel/kernel/filesystem.c:341-558 | As coded the same two calls keep the data bitmap right exactly when the creat took no block |
| FileSystem.Ufs.constructor | kernel/kernel/filesystem.c:131-199 | Mounting loads the superblock and exactly the metadata on the disk; the dirty bitmaps are whatever memory held |
| FileSystem.Ufs.ReadAt | kernel/kernel/filesystem.c:32-39 | 0 and the bytes at the address exactly when they are all on the disk |
| FileSystem.Ufs.WriteAt | kernel/kernel/filesystem.c:41-48 | 0 and those bytes changed exactly when they fit; -1 otherwise, with what fits changed |
| FileSystem.Ufs.CommitDirtyToDisk | kernel/kernel/filesystem.c:243-266 | The two loops do what `Commit` says, with `CommitLog` as the writes made |
| FileSystem.Ufs.CommitInodes | kernel/kernel/filesystem.c:244-255 | The first loop: dirty inodes and their bitmap words |
| FileSystem.Ufs.CommitData | kernel/kernel/filesystem.c:257-264 | The second loop: dirty data bitmap words |
| FileSystem.Ufs.Lookup | kernel/kernel/filesystem.c:202-240 | The nested loops over the disk's position return what `FsModel.Lookup` says and change nothing |
| FileSystem.Ufs.LookupIn | kernel/kernel/filesystem.c:216-239 | The outer loop, and that it reads exactly as many entries as `EntriesRead` says |
| FileSystem.Ufs.LookupBlock | kernel/kernel/filesystem.c:217-237 | One block of that scan |
| FileSystem.Ufs.Creat | kernel/kernel/filesystem.c:269-434 | State, outcome and disk writes are those of `FsModel.Creat` and the commit |
| FileSystem.Ufs.TwoFree | kernel/kernel/filesystem.c:290-296 | One pass finds the first and the second free data block |
| FileSystem.Ufs.ClaimInode | kernel/kernel/filesystem.c:307-311 | Bits, type and all thirty pointers of the claimed inode |
| FileSystem.Ufs.ParentFull | kernel/kernel/filesystem.c:314-332 | Whether every block of the parent is full |
| FileSystem.Ufs.MakeDir | kernel/kernel/filesystem.c:340-359 | The new directory's inode, bits and block |
| FileSystem.Ufs.LinkInNewBlock | kernel/kernel/filesystem.c:371-393 | The entry in a newly opened block |
| FileSystem.Ufs.LinkInHole | kernel/kernel/filesystem.c:394-424 | The entry in the first unused slot |
| FileSystem.Ufs.Link | kernel/kernel/filesystem.c:365-425 | The parent's update in its two cases, with its failure returns |
| FileSystem.Ufs.Place | kernel/kernel/filesystem.c:334-425 | The new inode and its link |
| FileSystem.Ufs.FirstFree | kernel/kernel/filesystem.c:282-288 | The least clear bit, or -1 when there is none |
| FileSystem.Ufs.AttachBlock | kernel/kernel/filesystem.c:448-461 | A block for an empty pointer, if one is free |
| FileSystem.Ufs.Write | kernel/kernel/filesystem.c:436-483 | State, outcome and disk writes are those of `FsModel.Write` and the commit |
| FileSystem.Ufs.WriteBlocks | kernel/kernel/filesystem.c:447-475 | The loop over blocks |
| FileSystem.Ufs.Read | kernel/kernel/filesystem.c:485-511 | The caller's buffer gets what `FsModel.Read` returns and is otherwise unchanged |
| FileSystem.Ufs.ReadBlocks | kernel/kernel/filesystem.c:497-509 | The loop over blocks |
| FileSystem.Ufs.Unlink | kernel/kernel/filesystem.c:513-578 | State, outcome and disk writes are those of `FsUnlinkModel.Unlink` with the code's indices |
| FileSystem.Ufs.ClearBits | kernel/kernel/filesystem.c:527-531 | The loop clearing bits at the pointers' own values |
| FileSystem.Ufs.DropChild | kernel/kernel/filesystem.c:523-531 | The child's side |
| FileSystem.Ufs.DropEntry | kernel/kernel/filesystem.c:534-569 | The parent's side |
| FileSystem.CountEntries | kernel/kernel/filesystem.c:543-550 | Last live slot of the name, and how many slots are live |
| FileSystem.EmptySlot | kernel/kernel/filesystem.c:402-408 | First unused slot of a block |
| FileSystem.FillDirBlock | kernel/kernel/filesystem.c:348-354 | The directory block built on the stack |
| DiskDriver.Disk.Lseek | kernel/include/kernel/disk_driver.h:13-14 | Moves within the disk, -1 past its end |
| DiskDriver.Disk.Read | kernel/include/kernel/disk_driver.h:9-10 | Returns the bytes at the position, as many as there are |
| DiskDriver.Disk.Write | kernel/include/kernel/disk_driver.h:11-12 | Changes the bytes at the position, as many as fit, and no others |
| Bits.SetBitmap | kernel/kernel/filesystem.c:15-18 | Sets the bit asked for and no other |
| Bits.ResetBitmap | kernel/kernel/filesystem.c:20-22 | Clears the bit asked for and no other |
| Bits.GetBitmap | kernel/kernel/filesystem.c:24-26 | Reads the bit that the other two change |
| Bits.FirstClear | kernel/kernel/filesystem.c:283-288 | The least clear bit from a position on, or -1 when there is none |
| Format.InodeRoundTrip | kernel/include/kernel/filesystem.h:16-20 | An inode written and read is the same inode |
| Format.EntryRoundTrip | kernel/include/kernel/filesystem.h:22-25 | A directory entry written over any bytes reads back |
| Format.EntryCopiedIff | libc/string/strcpy.c:3-5 | With the five-byte `strcpy` it reads back exactly when the name has at most four bytes, or the record happened to hold the rest |
| Format.SuperRoundTrip | kernel/include/kernel/filesystem.h:28-39 | The superblock written and read is the same |
| Format.DirBlockEntries | kernel/kernel/filesystem.c:348-354 | A directory block built over any bytes starts with its entries and has no other live slot |
| Format.SlotSplice | kernel/kernel/filesystem.c:411-417 | Overwriting one slot changes that entry only |
| Format.LoadBelowData | kernel/kernel/filesystem.c:131-199 | What a mount loads depends only on the blocks below the data region |
| OnDisk.SuperOnDisk | kernel/include/kernel/filesystem.h:28-39 | The superblock is ten little-endian numbers in bytes 0 to 39 |
| OnDisk.InodeOnDisk | kernel/include/kernel/filesystem.h:16-20 | Inode i: type, size and 30 pointers in the 128 bytes at 128 i of the inode region |
| OnDisk.BitmapsOnDisk | kernel/kernel/filesystem.c:24-30 | Bit i of a bitmap: bit 7 - i % 8 of byte 3 - i % 32 / 8 of word i / 32 |
| OnDisk.EntryOnDisk | kernel/include/kernel/filesystem.h:22-25 | An entry: the name up to the first 0, the inode number in bytes 28 to 31 |
| OnDisk.EntryBytes | kernel/kernel/filesystem.c:411-417 | What is written for one |
| Bytes.GetInWord | kernel/kernel/filesystem.c:15-26 | Bit i is 1 << (31 - i) of its word |
| Session.CreateIn | kernel/kernel/filesystem.c:269-434 | The method itself moves along the tree: `CallKeepsGood` for the running structure |
| Session.WriteTo | kernel/kernel/filesystem.c:436-483 | The same for a write anywhere |
| Session.RemoveFrom | kernel/kernel/filesystem.c:513-578 | The same for an unlink of a last entry, as coded |
| Session.StoreAndFetch | kernel/kernel/filesystem.c:436-511 | The two methods in a row return the data in the caller's buffer |
| Session.FileContents | kernel/kernel/kernel.c:47-54 | The kernel's loop over the bytes of a file ends with all of them |
| Session.DirContents | kernel/kernel/kernel.c:56-66 | Its loop over the entries of a directory ends with all of them |
| Initrd.FillDisk | fs/ufs.c:588-599 | On every new disk the five calls that make the boot image return 0 and leave exactly its tree: inode 1 a directory, 2 and 3 the two files with their texts; four blocks are then used |
| Session.MakeInitrd | fs/ufs.c:588-599 | The methods themselves do so, and the disk holds what memory does |
| Session.MakeAndBoot | kernel/kernel/kernel.c:47-66 | A second structure that mounts that disk prints the root directory and both texts |
| Mkfs.MkfsLayout | fs/mkfs.c:62-94 | For all counts of at least 32 without overflow: superblock and regions share no block and leave none out, are large enough for every bit and inode and no longer, and are in mounting order |
| Mkfs.MkfsGood | fs/mkfs.c:96-181 | A mount of the image is the tree with an empty root, with every invariant, for any bytes left on mkfs's stack |
| Mkfs.ImageBlocks | fs/mkfs.c:128-181 | The five blocks that are not zero end up where they belong |
| Mkfs.OnlyFirstBit | fs/mkfs.c:128-141 | A bitmap region written that way has only its first bit set |
| Mkfs.FreshNumbers | fs/mkfs.c:69-160 | The ten numbers of the superblock and the root inode, at their bytes |
| Mkfs.FreshRoot | fs/mkfs.c:168-181 | Its block: bytes 46 0 and 46 46 0 with inode number 0, and -1 in the 126 other entries |
| Mkfs.FreshBits | fs/mkfs.c:128-141 | In both bitmaps on the disk only bit 0 |
| Mkfs.FreshDots | fs/mkfs.c:171-175 | A mount of it finds both names in the root and no other, and can neither make nor remove them |
| Mkfs.FreshRunRefines | kernel/kernel/filesystem.c:269-578 | `RunRefines` for every such run on a freshly formatted disk, from the empty root |
| Mkfs.FreshRunStopped | kernel/kernel/filesystem.c:269-578 | `CrashInRun` for every such run there |
| Mkfs.FreshUnlinkLeaks | kernel/kernel/filesystem.c:527-558 | On every fresh disk, making directory "a" in the root and unlinking it as coded leaves the data bitmap wrong |
| Mkfs.MakeImage | fs/mkfs.c:96-181 | The writes in their order give that image |
| Session.FormatAndMount | kernel/kernel/filesystem.c:131-199 | Formatting and mounting gives a running structure that shows the empty root |
| Frames.FirstFrame | kernel/arch/i386/vmm.c:49-67 | The least unused frame; -1 exactly when every word is full |
| Frames.Use | kernel/arch/i386/vmm.c:25-31 | Setting inserts one frame into the set of used frames |
| Frames.Unuse | kernel/arch/i386/vmm.c:33-39 | Clearing removes one frame from it |
| Frames.UsedInWord | kernel/arch/i386/vmm.c:25-47 | The bit of frame f is 1 << f % 32 of its word |
| VmmPages.KmallocKeeps | kernel/arch/i386/pmm.c:14-26 | A region lies above all earlier ones |
| VmmPages.WithTableKeeps | kernel/arch/i386/vmm.c:118-130 | A table made on demand is page-aligned, new, and named alike by both halves of the directory |
| VmmPages.WithTablePages | kernel/arch/i386/vmm.c:118-130 | Making a table changes no entry of another table |
| VmmPages.WalkIsGetPage | kernel/arch/i386/vmm.c:118-132 | For every address the processor's walk (section 4.3 of the Intel SDM, volume 3A) ends at the entry `get_page` returns |
| VmmPages.WalkAfterTable | kernel/arch/i386/vmm.c:124-129 | Making a table changes no other translation |
| VmmPages.PfaAllocKeeps | kernel/arch/i386/vmm.c:69-80 | No two present pages hold the same frame, and the bits set before the page directory are those of the frames held, after `pfa_alloc`, which gives the page the least unused frame and the rights asked for |
| VmmPages.PfaFreeIff | kernel/arch/i386/vmm.c:82-88 | `pfa_free` keeps that exactly when the page is absent or holds frame 0; clearing the bit of the frame keeps it always; tables and regions stay |
| VmmPages.FreeAsCoded | kernel/arch/i386/vmm.c:33-88 | As coded a free marks frame 0 unused and no other, whatever frame the page held; the page alone is then absent |
| VmmRun.MapPagesKeeps | kernel/arch/i386/pmm.c:32-36 | Mapping a range makes all its pages present and changes none that was |
| VmmRun.MallocKeeps | kernel/arch/i386/pmm.c:29-38 | When it returns, `malloc` has a page-aligned region above everything handed out, tables included, with all its pages present |
| VmmRun.RegionsDisjoint | kernel/arch/i386/pmm.c:14-26 | No two regions handed out share a byte |
| VmmRun.KmallocNext | kernel/arch/i386/pmm.c:14-26 | Without alignment regions follow one another byte for byte from `free_addr` on |
| VmmRun.MallocPages | kernel/arch/i386/pmm.c:28-38 | The region starts on the first page boundary; exactly the pages that hold a byte of it become present, to be read in user mode and not written |
| VmmRun.RunKeeps | kernel/arch/i386/pmm.c:14-38 | All of that at all times in every run of `pfa_alloc`, `pfa_free`, `malloc` and `kmalloc`, exactly when every `pfa_free` in it clears the bit of the frame it takes away; where the frame bitmap reaches into the page directory, for its bits before the directory |
| VmmRun.BitsArePages | kernel/arch/i386/vmm.c:69-80 | As many bits before the page directory were set as pages are present |
| VmmRun.BitsArePagesIff | kernel/arch/i386/vmm.c:69-130 | Over the whole bitmap exactly when no digit of a table's address shows in the part that lies in the directory |
| VmmRun.TableShows | kernel/arch/i386/vmm.c:118-130 | There, making a table marks a frame used that no page holds |
| VmmRun.NewTableFaults | kernel/arch/i386/vmm.c:124-128 | When all pages present lie below `free_addr`, a new table goes to a page that is not present: once paging is on, clearing it faults |
| VmmRun.MallocReturnsIff | kernel/arch/i386/pmm.c:28-38 | Once paging is on and whatever the frame bitmap held: `malloc` returns exactly when its pages have tables and as many frames are left; it takes that many and makes no table |
| VmmRun.MallocIdentityIff | kernel/arch/i386/pmm.c:28-38 | From the identity mapping everything below `free_addr` is then mapped to itself again exactly when none of the new pages' own frames had been marked used |
| VmmRun.MallocRunIdentity | kernel/arch/i386/pmm.c:28-38 | Every run of mallocs from the identity mapping, whatever the unzeroed words of the frame bitmap held: the mapping is the identity exactly as long as they mark none of the frames taken, and the next one returns exactly when its pages, with all before, have tables already and no more than the frames that were left |
| Vmm.LoopStopsAt | kernel/arch/i386/vmm.c:101-104 | The page count at which the loop of `init_paging` stops, although `get_page` raises its limit |
| Vmm.FramesSuffice | kernel/arch/i386/vmm.c:91-104 | The frames whose bits lie before the page directory suffice exactly when the kernel's pages and tables for all of them fit; where bitmap and directory are apart, exactly for an initial `free_addr` of at most 4089 pages less 128 bytes |
| Vmm.BitmapOverlap | kernel/arch/i386/vmm.c:92-96 | Exactly when the undersized frame bitmap ends before the page directory |
| Vmm.OverlapExample | kernel/arch/i386/vmm.c:92-130 | With an initial `free_addr` of 0x4FFF80 word 32 of the bitmap is the directory's first entry: once that is 0x503000, frame 1036 looks used, and the loop would need 1285 frames |
| Vmm.LoopStep | kernel/arch/i386/vmm.c:101-104 | One round: tables one behind the other, exactly the pages so far present |
| Vmm.IdentityStep | kernel/arch/i386/vmm.c:101-104 | A page gets the frame of its number exactly when that frame was not marked used |
| Vmm.FirstBitmapClear | kernel/arch/i386/vmm.c:92-93 | Which bits memory must not have held where the bitmap is not zeroed, for n pages: none at all up to 1024 pages |
| Vmm.Memory.constructor | kernel/arch/i386/vmm.c:90-98 | The bitmap with its first 128 bytes zeroed, its words in the page directory zeroed with that, and the others as memory held them; an empty directory on the next page boundary, for every initial `free_addr`; with every invariant unless it is within 64 KB of the end of the address space |
| Vmm.Memory.Kmalloc | kernel/arch/i386/pmm.c:14-26 | The next region, aligned if asked, in 32-bit arithmetic |
| Vmm.Memory.GetPage | kernel/arch/i386/vmm.c:118-132 | Whether an entry exists, after making its table if asked, which changes the frame bits that lie in its directory slot; the fault when clearing the table does not return |
| Vmm.Memory.PfaAlloc | kernel/arch/i386/vmm.c:69-80 | Early return for a present page, else the first unused frame with its bit set; false exactly when there is none, the entry is not mapped, or that bit is one of the page directory's |
| Vmm.Memory.PfaFree | kernel/arch/i386/vmm.c:82-88 | Does what `VmmModel.PfaFree` says as coded |
| Vmm.Memory.InitPaging | kernel/arch/i386/vmm.c:100-109 | Ends; it succeeds exactly when as many frames are unused as it maps pages; then exactly the pages below the final `free_addr` are present, directory and tables included, every one to be read in user mode and not written, and there are tables for the next multiple of 1024 of them; with the identity mapping exactly when none of the frames it takes was marked used; paging is then on |
| Vmm.Memory.Malloc | kernel/arch/i386/pmm.c:29-38 | The loop does what `VmmModel.Malloc` says |
| IntStr.IntStr | libc/stdio/printf.c:15-77 | For every int, bases 8, 10 and 16 and every field width, in the buffer that `vprintf` clears (line 190): it holds `Text`, but for INT_MIN and fields of 256 or more, which C leaves undefined |
| IntStr.CountDigits | libc/stdio/printf.c:39-43 | The counting loop moves past exactly the numeral's digits |
| IntStr.FillDigits | libc/stdio/printf.c:45-49 | The backward loop writes exactly the numeral |
| IntStr.PutBody | libc/stdio/printf.c:29-49 | Sign and digits, and NULs behind |
| IntStr.TextLength | libc/stdio/printf.c:51-74 | The length is the larger of the field width and sign plus digits |
| IntStrChars.TextChars | libc/stdio/printf.c:29-74 | Every character of the text: the padding on its side, zeros or spaces; before the digits - for a negative number, else + when asked for, else a space when asked for |
| IntStrChars.TextStarts | libc/stdio/printf.c:31-37 | So an unpadded text begins with -, + or a space exactly then, and with a digit otherwise |
| IntStrChars.NumeralChars | libc/stdio/printf.c:20-49 | The digits in base 8, 10 or 16, upper case for 16 and lower for 17, all of them and no zero before them |
| IntStr.ReadsBackIff | libc/stdio/printf.c:51-74 | Parsing the text gives the integer back exactly when it is padded with spaces, or not padded, or 0, or padded with zeros on the left without a sign |
| IntStr.CopiedTextIff | libc/string/strcpy.c:3-5 | With the five-byte `strcpy` a text in base 8, 10 or 16 is right exactly when the number has no digit of 5 or more, and it is padded on the right, or not padded, or at most five characters long |
| IntStr.CopiedDigit | libc/stdio/printf.c:19-27 | Which character stands for a digit then: the right one below 5, in base 16 the letter five places on for 5 to 10, a NUL otherwise |
| IntStr.CopiedTextStops | libc/string/strcpy.c:3-5 | In base 8 and 10, without sign and padding, it stops at the first digit of 5 or more |
| IntStr.Prints40 | libc/stdio/printf.c:20-20 | 4096 comes out as 40 |

## Left out

- FsRun.CallKeepsGood: unlinks that leave a hole or a wrong data bitmap are not calls of these runs, since no tree is shown after them (`FsUnlinkLookup.UnlinkKeepsTreeIff`); `FsMarks.RunKeepsOrder` is about runs with any unlinks.
- FsRun.RunRefines: of a file that was ever overwritten the tree says the size and the bytes written since, and those before that are still in place; the rest of its size is not backed by anything the code wrote.
- FsCrashRun.CrashInRun: runs with overwrites, or with unlinks that erase a slot; their first write can be seen before the commit (`FsAppend.WriteHiddenIff`, `FsUnlinkCrash.UnlinkHiddenIff`).
- FsCommitCrash.CommitAtomicIff: a single write of the commit carried out in part.
- FsUnlink.UnlinkLast: what is shown after removing an entry that is not the last; no tree is (`FsUnlinkLookup.UnlinkKeepsTreeIff`), and `FsUnlinkLookup.UnlinkThenLookup` says what lookups do.
- FsUndo.CreatThenUnlink: the freed inode keeps the type and pointers the creat gave it, and bits past the last data block are not compared.
- FsMarks.RunKeepsOrder: what memory holds after a call that C leaves undefined; the model's run goes on from the state before the access.
- FileSystem.Ufs.constructor: a superblock that does not describe the disk; the code aborts where a read falls short and checks nothing else.
- FileSystem.Ufs.Unlink: what memory holds after an access outside an array, which C leaves undefined; the outcome says that it happens.
- Vmm.Memory.InitPaging: what happens once `pfa_alloc` or `pfa_free` changes a frame bit that lies in the page directory, and so the address of a table; the model ends there, as for an abort.
- Vmm.Memory.GetPage: a table at an address whose page is mapped to another frame, which the code would fill there while the processor walks the frame of the table's address; the call counts as not returning.
- VmmRun.MallocKeeps: regions that run past 0xF0000000.
- VmmRun.RunKeeps: freeing pages that hold the kernel itself, and translations the processor still remembers after a free.
- FsAppend.WriteRefines: a size that passes the largest int (`kernel/kernel/filesystem.c:473`), which overwrites can reach; it wraps here, where C leaves it undefined.
- Lengths and offsets whose sum overflows an int (`kernel/kernel/filesystem.c:489`): sums are unbounded here.
- Strings that are not NUL-terminated within a 32-byte directory entry: names are read up to the entry's end.
- Failing disk calls inside the disk: `lseek`, `read` and `write` succeed there; outside it they fail as the driver's contract says and the calls abort. `fsync` does nothing here.
- The memory that `ufs_init` and `ufs_creat` allocate for their structures, and the leak of one directory block per creat.
- The kernel's listing of the directories below the root (`kernel/kernel/kernel.c:69-80`), which goes into whatever has a name that begins with d.
- The initrd driver, the console, interrupts, descriptor tables and `CR3`: hardware and thin drivers.
- `vprintf`'s format parsing and floating point; getopt and file errors in mkfs; debug printing.
- Concurrency: the kernel runs one call at a time.
