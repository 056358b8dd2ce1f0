# Nanvix servers: a verified model

This project models the state-keeping parts of the Nanvix multikernel servers in Dafny and proves
what they promise, over whole runs:

- the **MINIX file system** on a byte-array disk: bitmaps, block and inode allocation, block mapping,
  directories, mounting, formatting;
- the **write-back block cache** in front of the disk;
- **remote memory**: the block server, the client stub that spreads pages over several servers, the
  page cache under its bypass policy, and the virtual memory manager on top;
- the **spawn ring barrier** that starts the servers of all nodes ring by ring;
- the **System V and name servers**: shared memory regions, message queues, the name table.

`dafny verify dfyconfig.toml` checks everything.

## How it is built

For each component there are specification functions on values that follow the C code branch by
branch, lemmas about them, and classes and methods that update arrays and fields in place as the code
does and are proved equal to the functions. A run theorem then relates any sequence of operations to
a simple abstract object:

| component | abstract object | run theorem |
|---|---|---|
| directories (`MinixRun`) | map of maps (directory, name, inode number) and the inode table | `RunRefinesTree`, `FormattedRuns` |
| whole file system (`MinixFs`) | the same with a growing set of files, their inodes in memory, and the set of numbers in use | `RunRefinesFs`, `FormattedFs`, `FormattedPersists` |
| block mapping (`MinixBlocks`) | injective, stable references | `RunInjectiveAndStable`, `ReportsInjective` |
| inode allocator (`MinixVolume`) | set of numbers | `InodeRunExact`, `FormattedInodeRun` |
| block cache (`BlockCacheRun`) | plain array of blocks with held handles | `RunRefinesDisk` |
| remote memory server (`RmemServer`) | map from block to owner and contents | `RunRefinesMemory` |
| stub over several servers (`RmemStub`) | map from page number to owner and contents, with the clients' counters | `RunRefinesPages` |
| virtual memory (`Vmem`, `VmemRun`) | a flat memory of its own for every client, and the set of live pages | `RunRefinesFlat` |
| ring barrier (`SpawnBarrier`) | interleaved transition system | `RingSafety`, `PhasesApart`, `RunsComplete` |
| shared memory (`SharedMemory`) | map from id to item with a ledger of references | `RunRefinesItems`, `RefsAreLedger` |
| message queues (`MessageQueue`) | table of bounded queues | `RunRefinesQueues`, `Fifo` |
| name table (`NameTable`) | map from name to node, port and links, with the count of registrations | `RunRefinesMap` |

Bit vectors appear only inside one bitmap word (`Words`) and in the address macros of remote memory;
above that a bitmap is a sequence of booleans (`Bitmaps.Bits`). `SlotTable` holds what tables searched by key have in common.

## Assumptions

- The kernel layer is trusted: a request and its reply are one call; the two syncs of the barrier
  behave as the header of `SpawnBarrier` says; `resource_alloc()` takes the first unused slot and
  clears its flags; page memory handed over by the kernel is not shared.
- Integers that can wrap are reduced explicitly. Records are packed and little-endian. The string
  routines behave as in the C standard. Null pointers are excluded by the types. Error numbers are
  the usual Linux ones; `posix/errno.h` is not part of this model.
- Geometry is symbolic. Where fresh blocks must be on the device the hypothesis is `OnDevice` or
  `Room`: no more zone bits are set than the device has data blocks. Run theorems about directories
  ask for room operation by operation (`Able`: a removal, a refused addition and an addition into a
  free slot need none) and that no zone bit beyond the device is set (`ZonesInside`), which every
  operation keeps. Directory results ask for `CAPACITY * 16 <= maxSize <= 64 MiB`; the value that
  formatting stores is 64 MiB.
- Clients of the block cache change a buffer only while they hold it and mark it dirty, and use block
  numbers below 2^22.

## Where the code falls short of its purpose

Each has a lemma with the exact condition.

- The inode table is rounded down: the layout has no overlaps iff there are at most 32 inodes or a
  multiple of 32 (`DisjointIff`).
- The inode map is rounded down too, and the search for a free inode is given a length in bytes that
  is the number of inodes. It can never leave the map iff the map has more bits than there are inodes
  (`SearchInsideIff`), for a formatted volume iff there are fewer than 8192 (`FormattedSearchIff`); with
  8192, all in use, it does leave it (`Overrun8192`). Every number has a bit in the formatted map iff
  there are at most 8192 inodes or a multiple of 8192 (`FormattedNumbersIff`); with 8224, number 8193
  is handed out and not recorded (`Unrecorded8224`).
- With fewer than four inodes no inode can ever be allocated (`InodeAllocExact`).
- The zone map is rounded down as well: freeing a block clears a bit outside the map for exactly the
  numbers in `FreeOutsideIff`, and there are such numbers iff the device has more blocks than the map
  has bits (`FreeInsideIff`).
- On a volume without room that fills its device, adding a name fails an assertion, because the next
  block number lies behind the device; only when every bit of the zone map is set does the entry go
  over the boot block, with success reported (`AddWithoutRoom`). When the indirect block is missing too
  there is a third outcome, an uninitialised buffer (`AddWithoutTwo`). The result is sound iff there is
  room (`AddSoundIffRoom`).
- Freeing a block does not clear it: free blocks stay zero iff the freed block reads as zeros
  (`FreeKeepsZeroIff`); otherwise its contents come back as references when it becomes an indirect
  block (`StaleReference`).
- The count of clear bits is eight too high for every byte of the map that does not fill a word
  (`CountClearBits`).
- The eviction search started at buffer 0 ends iff a clean unused buffer exists (`SearchEndsIff`).
- Block numbers that agree modulo 2^22 share bytes (`OffsetAliases`), which breaks the cache
  (`AliasGoesStale`).
- The round robin over memory servers is stuck on a full server: an allocation fails iff the server
  whose turn it is has no free block (`StubAllocStep`).
- Freeing memory does not empty cache lines: the client stays sound iff the cached page is not among
  the pages freed (`Vmem.FreeStep`); otherwise a later write-back overwrites the next owner
  (`StaleWriteBack`).
- A failed allocation leaves a gap in the page table. A free stops at the first gap: it has then freed
  the pages below it, returns an error and leaves the break where it was (`Vmem.FreeStep`).
- Formatting writes the enlarged inode of the disk device over the root's slot, then the root over
  it, so the device's size is lost (`MinixMkfs.MakeDevice`).
- A freed inode number can be handed out while a file in memory still has it. Writing back and mounting
  again restores all files iff no two different inodes in memory have the same number
  (`PersistsIff`).
- A closed message queue keeps its messages for the next queue in its slot (`PendingInherited`).
- The name server refuses further links of a known name while 256 links are counted, although they need
  no entry (`LinkRefines`).

## Model

| member | source | states |
|---|---|---|
| Words.PopCountIsOnes | src/libruntime/utils/bitmap.c:49-57 | the shift-mask-multiply trick yields the true number of set bits of every 32-bit word |
| Words.WriteBit | include/nanvix/runtime/utils.h:59-78 | or-ing in, or masking out, the mask of a bit changes that bit and no other |
| Words.FullWord | src/libruntime/utils/bitmap.c:85-86 | a word differs from 0xffffffff iff it has a clear bit |
| Bitmaps.CountSetBits | src/libruntime/utils/bitmap.c:30-60 | the loop returns the number of set bits of the words it covers, modulo 2^32, for every size |
| Bitmaps.CountClearBits | src/libruntime/utils/bitmap.c:65-68 | returns the number of clear bits plus eight for every byte that does not fill a word, modulo 2^32 |
| Bitmaps.SetAndClear | src/libruntime/utils/bitmap.c:65-68 | set and clear bits add up to the length |
| Bitmaps.FindFirstFree | src/libruntime/utils/bitmap.c:73-101 | returns the least clear bit within the size given, as 32 bits hold it, else FULL; the array may be shorter than the size if a clear bit stops the search |
| Bitmaps.FirstFreeExact | src/libruntime/utils/bitmap.c:73-101 | below 512 MiB the result is the least clear bit itself, and FULL iff every bit inspected is set |
| Bitmaps.FirstFreeBound | src/libruntime/utils/bitmap.c:73-101 | the first free bit never exceeds the number of set bits |
| Bitmaps.RoomIffCount | src/libruntime/utils/bitmap.c:73-101 | there is a clear bit iff fewer bits are set than exist |
| Bitmaps.NSetUpdate | include/nanvix/runtime/utils.h:68-78 | setting a clear bit raises the count by one, clearing a set bit lowers it by one |
| Bitmaps.Set | include/nanvix/runtime/utils.h:68-69 | the word update sets exactly that bit of the map |
| Bitmaps.Clear | include/nanvix/runtime/utils.h:77-78 | the word update clears exactly that bit of the map |
| Bitmaps.CheckBit | src/libruntime/utils/bitmap.c:106-109 | true iff the bit is set |
| Disk.RamDisk.Read | src/sys/fs/vfs/disk/ramdisk.c:81-113 | succeeds iff the range lies on the device, and then returns exactly those bytes |
| Disk.RamDisk.Write | src/sys/fs/vfs/disk/ramdisk.c:42-75 | succeeds iff the range lies on the device; replaces exactly those bytes, or changes nothing |
| MinixFormat.SuperRoundTrip | include/fs/minix.h:66-76 | a superblock survives being laid out and read back |
| MinixFormat.InodeRoundTrip | include/fs/minix.h:136-145 | so does an inode |
| MinixFormat.DirentRoundTrip | include/fs/minix.h:179-183 | so does a directory entry |
| MinixFormat.SamePrefixIff | src/sys/fs/vfs/minix/minix.c:135-135 | the comparison bounded by 14 characters is equality for every name that fits, terminated or not |
| MinixBlocks.AllocatedFresh | src/sys/fs/vfs/minix/block.c:67-77 | an allocation marks one unmarked block of the device, and fails iff the map is full |
| MinixBlocks.MappedStep | src/sys/fs/vfs/minix/block.c:90-168 | one mapping call keeps, for all files: references distinct, marked, free blocks zero; no established reference changes |
| MinixBlocks.MappedHit | src/sys/fs/vfs/minix/block.c:119-160 | mapping a block that is there changes nothing and returns it |
| MinixBlocks.RoomDelivers | src/sys/fs/vfs/minix/block.c:119-160 | with room for the blocks it needs a creating call returns a data block of the device and allocates exactly those |
| MinixBlocks.DeliveredIffRoom | src/sys/fs/vfs/minix/block.c:119-160 | a creating call delivers iff there is room for the blocks it needs, whatever was freed before |
| MinixBlocks.RunInjectiveAndStable | src/sys/fs/vfs/minix/block.c:90-168 | over any run the invariant holds and established mappings never change |
| MinixBlocks.ReportsInjective | src/sys/fs/vfs/minix/block.c:90-168 | two calls of a run report the same block iff they name the same logical block of the same file; every reported block is marked and is no indirect block |
| MinixBlocks.FreshVolume | src/sys/fs/vfs/minix/minix.c:375-380 | a zero-filled data area with empty files satisfies the invariant |
| MinixBlocks.AllocThenFree | src/sys/fs/vfs/minix/block.c:203-214 | a block allocated while fewer bits are set than the map has and the device has blocks can be freed, which restores the map |
| MinixBlocks.FreeOutsideIff | src/sys/fs/vfs/minix/block.c:203-212 | for exactly which block numbers the bit cleared lies outside the zone map |
| MinixBlocks.FreeInsideIff | src/sys/fs/vfs/minix/block.c:203-212 | there are none iff the map has as many bits as the device blocks, or lacks one whose number wraps to the null block |
| MinixBlocks.FreeKeepsZeroIff | src/sys/fs/vfs/minix/block.c:179-215 | after freeing an allocated block all free blocks are zero iff that block reads as zeros |
| MinixBlocks.StaleReference | src/sys/fs/vfs/minix/block.c:119-160 | a block that is not zero brings its contents back as references when it becomes an indirect block |
| MinixDriver.BlockAlloc | src/sys/fs/vfs/minix/block.c:48-78 | the code meets `Allocated` |
| MinixDriver.BlockMap | src/sys/fs/vfs/minix/block.c:90-168 | the code, with its stack buffer and write-back, meets `Mapped`; when the indirect block is off the device, what was allocated until then |
| MinixDriver.BlockFreeDirect | src/sys/fs/vfs/minix/block.c:179-215 | the code meets `FreedDirect`, as long as the bit lies inside the map or the block is refused |
| MinixDriver.ScanEntries | src/sys/fs/vfs/minix/minix.c:86-151 | the block-hopping loop terminates and is a linear scan of the flat table for every directory without holes, direct or indirect; it changes nothing |
| MinixDriver.DirentSearch | src/sys/fs/vfs/minix/minix.c:46-173 | finds the first entry of that name; when creating, the last free slot, or a new slot at the end; only the last case needs a block to be mapped |
| MinixDriver.RoomIsDefined | src/sys/fs/vfs/minix/minix.c:157-172 | on every sound volume with room the specification of a creating search applies, so what is proved of `Added` holds of the code |
| MinixDriver.DirentAdd | src/sys/fs/vfs/minix/minix.c:182-240 | the code meets `Added` |
| MinixDir.AddExtendsMap | src/sys/fs/vfs/minix/minix.c:182-240 | refused, with nothing changed, iff the name is present; otherwise the map gains exactly that pair and no other directory changes |
| MinixDir.AddOneBlock | src/sys/fs/vfs/minix/minix.c:157-172 | when one block is missing: an assertion fails iff the block handed out is off the device; with a full map the boot block is overwritten and the directory has a hole |
| MinixDir.AddWithoutRoom | src/sys/fs/vfs/minix/minix.c:157-172 | without room: boot block overwritten and success reported if the zone map is full, a failed assertion otherwise |
| MinixDir.AddWithoutTwo | src/sys/fs/vfs/minix/minix.c:157-172 | the same when the indirect block is missing too: which of a failed assertion, an uninitialised buffer and the boot block it is |
| MinixDir.AddSoundIffRoom | src/sys/fs/vfs/minix/minix.c:157-172 | adding a new name succeeds soundly iff there is room, whatever was freed before |
| MinixDir.RemoveShrinksMap | src/sys/fs/vfs/minix/minix.c:251-323 | succeeds iff the name is present, is not "." and its inode may be unlinked; the map loses exactly that name, the inode one link; a failure changes nothing |
| MinixDir.MappingKeepsDirs | src/sys/fs/vfs/minix/block.c:90-168 | mapping blocks of any file is invisible in every directory |
| MinixDir.EntryWrite | src/sys/fs/vfs/minix/minix.c:233-234 | writing an entry's bytes changes that entry and no other entry of any file |
| MinixRun.ApplyStep | src/sys/fs/vfs/minix/minix.c:182-323 | one operation keeps the invariant, returns exactly the code that directories and inode table determine, and changes them accordingly |
| MinixRun.RunRefinesTree | src/sys/fs/vfs/minix/minix.c:182-323 | over any run of adds, removes and mappings that find the blocks they need, codes, directories, link counts and every other inode are those of the abstract file system |
| MinixFs.CreateStep | src/sys/fs/vfs/minix/inode.c:167-226 | inode allocation in a sound file system: the least free number, its inode in the table, a new empty file or directory, nothing else; null iff no number is free or there are fewer than four |
| MinixFs.WriteBackStep | src/sys/fs/vfs/minix/inode.c:119-152 | writing back a file's inode updates its slot of the table and no directory |
| MinixFs.FreeNumberStep | src/sys/fs/vfs/minix/inode.c:238-262 | freeing a number takes exactly it out of the set, iff it is in range |
| MinixFs.RunRefinesFs | src/sys/fs/vfs/minix/inode.c:119-262 | over any run of directory operations, mappings, inode allocations, write-backs and frees, codes, directories, files, inode table and numbers are those of the abstract file system |
| MinixFs.RunNumbered | src/sys/fs/vfs/minix/inode.c:167-262 | files keep numbers of their own as long as no number of a file in memory is freed |
| MinixFs.PersistsIff | src/sys/fs/vfs/minix/super.c:45-188 | writing back all inodes, superblock and maps, mounting and reading the inodes restores every file iff no two different inodes have the same number; then directories, maps and numbers are the same and the table is up to date |
| MinixVolume.DisjointIff | src/sys/fs/vfs/minix/minix.c:361-374 | superblock, maps, inode slots and data blocks are pairwise disjoint iff `ninodes` is at most 32 or a multiple of 32 |
| MinixVolume.SearchInsideIff | src/sys/fs/vfs/minix/inode.c:193-197 | whatever inodes are in use, the search stays inside the map iff the map has more bits than there are inodes |
| MinixVolume.FormattedSearchIff | src/sys/fs/vfs/minix/minix.c:361-363 | on a formatted volume iff there are fewer than 8192 inodes |
| MinixVolume.Overrun8192 | src/sys/fs/vfs/minix/minix.c:361-363 | with 8192 inodes, all in use, the layout is sound and the search leaves the map |
| MinixVolume.FormattedNumbersIff | src/sys/fs/vfs/minix/minix.c:361-363 | every number has its bit in the map iff there are at most 8192 inodes or a multiple of 8192 |
| MinixVolume.RecordedIff | src/sys/fs/vfs/minix/inode.c:193-206 | an allocation leaves a map of any size unchanged iff its number lies beyond that map |
| MinixVolume.Unrecorded8224 | src/sys/fs/vfs/minix/inode.c:193-206 | with 8224 inodes and a full map, number 8193 is handed out and not recorded |
| MinixVolume.NumberReused | src/sys/fs/vfs/minix/inode.c:193-206 | when the search runs so far that the bit number exceeds 16 bits, a number in use is handed out |
| MinixVolume.PartsApart | src/sys/fs/vfs/minix/inode.c:53-64 | for every layout whose inode table fits, any two parts are disjoint |
| MinixVolume.InodeRead | src/sys/fs/vfs/minix/inode.c:75-108 | succeeds iff the number is in range and its slot on the device; returns that slot |
| MinixVolume.InodeWrite | src/sys/fs/vfs/minix/inode.c:119-152 | exact code; writes exactly that slot or changes nothing |
| MinixDir.InodeWriteRead | src/sys/fs/vfs/minix/inode.c:75-152 | reading after writing gives the inode written, and every other inode unchanged |
| MinixVolume.DirentRemove | src/sys/fs/vfs/minix/minix.c:251-323 | the code meets `Removed` for every directory without holes, with or without room |
| MinixVolume.InodeAllocExact | src/sys/fs/vfs/minix/inode.c:167-226 | hands out an unused number in 1..ninodes; fails, changing nothing, iff all are used or there are fewer than four; the map may be shorter than the table as long as a clear bit stops the search |
| MinixVolume.InodeFreeExact | src/sys/fs/vfs/minix/inode.c:238-262 | frees exactly that number, iff it is in range, and the bit behind a map that is too short |
| MinixVolume.InodeRunExact | src/sys/fs/vfs/minix/inode.c:167-262 | over any run of allocations and frees the map is the set of numbers in use |
| MinixVolume.AllocateInode | src/sys/fs/vfs/minix/inode.c:167-226 | the code, with its write-then-roll-back path, meets `InodeAllocated` on every memory in which the search finds an end |
| MinixVolume.FreeInodeNumber | src/sys/fs/vfs/minix/inode.c:238-262 | the code meets `InodeFreed` |
| MinixSuper.PackRoundTrip | src/sys/fs/vfs/minix/super.c:77-111 | a map stored as bytes and loaded again is the same map |
| MinixSuper.StoredIff | src/sys/fs/vfs/minix/super.c:134-188 | writing succeeds iff the magic is right and the device holds superblock and maps |
| MinixSuper.StoredFrame | src/sys/fs/vfs/minix/super.c:134-188 | no byte of the boot block, of the inode table or of the data area changes |
| MinixSuper.MountRoundTrip | src/sys/fs/vfs/minix/super.c:45-188 | reading after a successful write gives the same superblock and maps, for every geometry |
| MinixSuper.RemountKeepsAll | src/sys/fs/vfs/minix/super.c:45-188 | writing back and mounting keeps superblock, maps, every inode, the invariant and all directories |
| MinixSuper.SuperWrite | src/sys/fs/vfs/minix/super.c:134-188 | the code meets `SuperStored`; the superblock is written before its magic is checked |
| MinixSuper.SuperRead | src/sys/fs/vfs/minix/super.c:45-121 | the code meets `SuperLoaded` |
| MinixMkfs.ZeroFill | src/sys/fs/vfs/minix/minix.c:377-380 | clears the whole volume iff the device holds it |
| MinixMkfs.MakeDevice | src/sys/fs/vfs/minix/minix.c:407-413 | afterwards slot 2 holds the device inode with size 0 and slot 1 the root directory with three names |
| MinixMkfs.Mkfs | src/sys/fs/vfs/minix/minix.c:335-424 | on every device that can hold the volume: mountable, sound, inodes 1 and 2 in use, at most one data block, root = {".", "..", "disk"} |
| MinixMkfs.FormattedRuns | src/sys/fs/vfs/minix/minix.c:182-424 | any run on the formatted and mounted volume behaves as the abstract file system starting from that root and its inode table |
| MinixMkfs.FormattedInodeRun | src/sys/fs/vfs/minix/minix.c:361-374 | on a formatted volume with fewer than 8192 inodes every run of inode allocations and frees is exact, from {1, 2} on, and no search leaves the map |
| MinixMkfs.FormattedFs | src/sys/fs/vfs/minix/minix.c:335-424 | any run of all operations on a formatted and mounted volume with fewer than 8192 inodes behaves as the abstract file system, starting from the root, its table and the numbers 1 and 2 |
| MinixMkfs.FormattedPersists | src/sys/fs/vfs/minix/super.c:45-188 | after any such run that frees no number of a file in memory, writing everything back and mounting again gives the same files, directories and numbers |
| BlockCache.SearchEndsIff | src/sys/fs/vfs/bcache/bcache.c:132-147 | the eviction loop ends iff it does not start at 0 without a clean unused buffer; then within 32 iterations |
| BlockCache.SearchDiverges | src/sys/fs/vfs/bcache/bcache.c:132-147 | in that case it never ends |
| BlockCache.PickedWell | src/sys/fs/vfs/bcache/bcache.c:126-168 | never a held buffer; the first clean one scanned, else the last dirty one; none iff all scanned are held |
| BlockCache.EvictKeeps | src/sys/fs/vfs/bcache/bcache.c:126-168 | evicting keeps coherence, what clients see, and every held buffer |
| BlockCache.ReadKeeps | src/sys/fs/vfs/bcache/bcache.c:181-267 | bread keeps coherence and the logical disk and returns the block's logical contents; it fails iff the block is off the device, or is not cached and all scanned buffers are held |
| BlockCache.ReadHolders | src/sys/fs/vfs/bcache/bcache.c:181-267 | the returned buffer gains one holder and is never taken from the holder of another block |
| BlockCache.FlushKeeps | src/sys/fs/vfs/bcache/bcache.c:273-298 | writing back changes nothing clients see and brings the block to the device |
| BlockCache.ModifyUpdates | src/sys/fs/vfs/bcache/bcache.c:70-101 | a holder's update changes exactly that logical block |
| BlockCacheRun.HolderSees | src/sys/fs/vfs/bcache/bcache.c:246-267 | every holder sees the plain disk's block |
| BlockCacheRun.RunRefinesDisk | src/sys/fs/vfs/bcache/bcache.c:126-314 | over any run the cached device is the plain disk: results, contents, handles; the reads that fail are exactly those the cache at that moment lets fail |
| BlockCacheRun.CleanIsDisk | src/sys/fs/vfs/bcache/bcache.c:273-314 | with no dirty buffer left the device holds the plain disk |
| BlockCacheRun.InitIsDisk | src/sys/fs/vfs/bcache/bcache.c:320-334 | a fresh cache shows the disk itself |
| BlockCacheRun.OffsetAliases | include/nanvix/dev.h:48-66 | two block numbers have the same offset iff they agree modulo 2^22 |
| BlockCacheRun.AliasGoesStale | include/nanvix/dev.h:48-66 | after a write-through of one alias a clean buffer of the other differs from its disk block |
| BlockCacheDriver.Pool.Evict | src/sys/fs/vfs/bcache/bcache.c:126-168 | the code meets `Evicted` |
| BlockCacheDriver.Pool.ReadBlock | src/sys/fs/vfs/bcache/bcache.c:246-267 | the code meets `ReadIn` |
| BlockCacheDriver.Pool.Release | src/sys/fs/vfs/bcache/bcache.c:220-239 | the code meets `Released`, and refuses pointers outside the pool and unheld buffers |
| BlockCacheDriver.Pool.Flush | src/sys/fs/vfs/bcache/bcache.c:273-298 | the code meets `Flushed` |
| BlockCacheDriver.Pool.WriteBlock | src/sys/fs/vfs/bcache/bcache.c:305-314 | writes back, then releases, or refuses |
| RmemServer.AllocateStep | src/sys/mm/rmem/main.c:165-199 | never aborts; fails iff all blocks are live; otherwise a block not live, never 0, with zero contents |
| RmemServer.FreeStep | src/sys/mm/rmem/main.c:214-261 | frees iff the block is live and the caller its recorded owner; removes exactly it |
| RmemServer.WriteStep | src/sys/mm/rmem/main.c:273-316 | updates exactly that live block; otherwise only reserved block 0 changes |
| RmemServer.ReadStep | src/sys/mm/rmem/main.c:332-406 | returns the contents of a live block, an error otherwise |
| RmemServer.StartupGood | src/sys/mm/rmem/main.c:555-584 | at start-up the counter equals the set bits, block 0 is reserved, all blocks are zero |
| RmemServer.RunRefinesMemory | src/sys/mm/rmem/main.c:165-406 | every run from start-up is the abstract memory: no assertion fails, no live block is handed out, reads return the last write since allocation or zeros |
| RmemServer.Node.Alloc | src/sys/mm/rmem/main.c:165-199 | the code meets `Allocate` |
| RmemServer.Node.Release | src/sys/mm/rmem/main.c:214-261 | the code meets `Free` |
| RmemServer.Node.Store | src/sys/mm/rmem/main.c:273-316 | the code meets `Write` |
| RmemServer.Node.Load | src/sys/mm/rmem/main.c:332-406 | the code meets `Read` |
| RmemStub.DecodeEncode | include/nanvix/servers/rmem.h:67-108 | server < 256 and block < 2^24 are recovered from an address |
| RmemStub.EncodeDecode | include/nanvix/servers/rmem.h:67-108 | every address is the encoding of its parts |
| RmemStub.DecodeMacros | include/nanvix/servers/rmem.h:87-99 | the mask-and-shift macros on 32-bit words compute these two parts, for every word |
| RmemStub.EncodeMacro | include/nanvix/servers/rmem.h:105-108 | the macro that shifts, masks and joins computes this address, for every two words |
| RmemStub.StubAllocStep | src/libruntime/mm/stub.c:61-99 | a page that is not null and not live on any server, on the server whose turn it is; null iff that server is full |
| RmemStub.AllocManyStep | src/libruntime/mm/stub.c:61-99 | allocations in a row obtain exactly the pages the servers can give: they stop iff the server whose turn it is is full |
| RmemStub.ServerFullIff | src/libruntime/mm/stub.c:61-99 | a server is full iff all its addresses are live |
| RmemStub.AllocRefines | src/libruntime/mm/stub.c:61-99 | an allocation fails iff the server whose turn it is, by the client's counter, is full; otherwise it yields a page of that server that is not live |
| RmemStub.StubFreeStep | src/libruntime/mm/stub.c:108-147 | succeeds iff the page is live and owned by the caller's node; removes exactly it |
| RmemStub.StubReadStep | src/libruntime/mm/stub.c:156-226 | a live page's contents, whichever server holds it; never completes iff the address is block 0 of another server |
| RmemStub.StubWriteStep | src/libruntime/mm/stub.c:235-290 | updates exactly that live page |
| RmemStub.RunRefinesPages | src/libruntime/mm/stub.c:61-290 | over any interleaving of clients and any number of servers, page numbers name one shared memory; every answer, also a failed allocation, is determined by it and the clients' counters |
| RmemStub.StartupEmpty | src/sys/mm/rmem/main.c:555-584 | after start-up no page is live |
| Vmem.GetStep | src/libruntime/mm/cache.c:278-308 | loading a page over the single line changes no page the client sees, and yields the page's contents |
| Vmem.BypassStep | src/libruntime/mm/cache.c:158-172 | after evicting line 0 the remote pages are exactly what the client saw |
| Vmem.PutStep | src/libruntime/mm/cache.c:317-336 | releasing changes nothing the client sees; 0 iff the page is loaded, else the exact error |
| Vmem.ReadStep | src/libruntime/mm/manager.c:253-301 | returns the flat memory's bytes iff the request lies within one mapped page; that page is then the cached one |
| Vmem.WriteStep | src/libruntime/mm/manager.c:312-360 | stores the bytes in the flat memory iff the request lies within one mapped page; that page is then the cached one |
| VmemRun.NewStep | src/libruntime/mm/manager.c:174-201 | obtains exactly the pages the servers can give; they appear as zeros at the old break, where none was mapped; the break is raised even if some are missing |
| VmemRun.RunRefinesFlat | src/libruntime/mm/manager.c:174-360 | any interleaving of allocations, reads, writes, releases and frees of any number of clients over the same servers, as long as no client frees the page it has cached: each client has a flat memory of its own, and all codes and the break are determined |
| VmemRun.OtherStays | src/libruntime/mm/manager.c:174-360 | what one client does changes nothing that another sees, as long as they share no page; and they do not come to share one |
| VmemRun.OwnRequestsOnly | src/libruntime/mm/manager.c:174-360 | a client's memory after a run is determined by its own requests |
| VmemRun.StartIsOk | src/libruntime/mm/cache.c:345-365 | clients that have just been set up share no page and have no memory |
| Vmem.StoredBytes | src/libruntime/mm/manager.c:312-360 | a store changes the bytes at its addresses and no others |
| VmemRun.NoFreesSafe | src/libruntime/mm/manager.c:174-360 | every run of existing clients without frees is such a run |
| Vmem.FreeStep | src/libruntime/mm/manager.c:210-242 | frees the mapped pages from the address to the first gap, and returns 0 iff there is none below the break; the client stays sound iff the cached page is not among them, and then the memory loses exactly those pages |
| Vmem.FreeAfterAccess | src/libruntime/mm/manager.c:210-242 | after an access to a page, freeing from an address is sound iff that page is below it or behind a gap |
| Vmem.StaleWriteBack | src/libruntime/mm/cache.c:262-269 | a freed cached page, handed out again, is later overwritten by the stale line |
| VmemDriver.Client.GetLine | src/libruntime/mm/cache.c:278-308 | the code meets `GetPage` |
| VmemDriver.Client.PutLine | src/libruntime/mm/cache.c:317-336 | the code meets `PutPage` |
| VmemDriver.Client.Alloc | src/libruntime/mm/manager.c:174-201 | the code meets `AllocMem` |
| VmemDriver.Client.FreeAll | src/libruntime/mm/manager.c:210-242 | the code, with its loop, meets `FreeMem` |
| VmemDriver.Client.Read | src/libruntime/mm/manager.c:253-301 | the code meets `ReadBytes` |
| VmemDriver.Client.Write | src/libruntime/mm/manager.c:312-360 | the code meets `WriteBytes` |
| SpawnBarrier.StepInv | src/sbin/spawn/main.c:104-118 | every step of every node, server or sync keeps the invariant |
| SpawnBarrier.RingSafety | src/sbin/spawn/main.c:104-118 | in any interleaving, no server is created before all servers of earlier rings on all nodes are ready |
| SpawnBarrier.StartedAfter | src/sbin/spawn/main.c:104-118 | in every reachable state, a server that exists has all earlier rings ready on all nodes |
| SpawnBarrier.PhasesApart | src/sbin/spawn/barrier.c:148-163 | what the leader collects and what releases a follower was sent in its own round; at most one signal of each kind is pending |
| SpawnBarrier.NoDeadlock | src/sbin/spawn/barrier.c:148-163 | no reachable state is stuck before all nodes have finished |
| SpawnBarrier.RunsEnd | src/sbin/spawn/main.c:104-118 | every run is bounded by the work at its start |
| SpawnBarrier.RunsComplete | src/sbin/spawn/main.c:104-136 | a run that cannot be continued has finished everywhere with every server of every ring ready |
| SharedMemory.PutStep | src/sys/pm/sysv/shm/shm.c:329-350 | a region is released, and its page given back, iff it is unlinked and this was the last reference |
| SharedMemory.GetPut | src/sys/pm/sysv/shm/shm.c:301-350 | a reference taken and put back leaves everything as it was |
| SharedMemory.ResizedStep | src/sys/pm/sysv/shm/shm.c:237-251 | a page is held iff the size is positive; each page is obtained and given back once |
| SharedMemory.OpenStep | src/sys/pm/sysv/shm/shm.c:411-473 | succeeds iff name, flags and region allow it; every failure is net zero |
| SharedMemory.CreateExisting | src/sys/pm/sysv/shm/shm.c:516-545 | opens a region that exists, linked or not, unless exclusive; every failure is net zero |
| SharedMemory.CreateNew | src/sys/pm/sysv/shm/shm.c:547-560 | takes an unused slot; fails iff there is none |
| SharedMemory.UnlinkStep | src/sys/pm/sysv/shm/shm.c:596-616 | succeeds iff the caller owns the named region; it lives on while referenced |
| SharedMemory.ExecStep | src/sys/pm/sysv/shm/shm.c:359-616 | no call trips an assertion; every error code and effect is that of the abstract server; names and pages stay unique |
| SharedMemory.RunRefinesItems | src/sys/pm/sysv/shm/shm.c:359-616 | the same over any run |
| SharedMemory.RefsAreLedger | src/sys/pm/sysv/shm/shm.c:301-616 | a reference count is always successful opens and creates minus closes |
| SharedMemory.ReleasedIff | src/sys/pm/sysv/shm/shm.c:329-350 | a region goes away in a call iff it is then unlinked and unreferenced |
| SharedMemoryDriver.Server.OpenRegion | src/sys/pm/sysv/shm/shm.c:411-473 | the code meets `Open` |
| SharedMemoryDriver.Server.CreateRegion | src/sys/pm/sysv/shm/shm.c:482-560 | the code meets `Create` |
| SharedMemoryDriver.Server.CloseRegion | src/sys/pm/sysv/shm/shm.c:569-587 | the code meets `Close` |
| SharedMemoryDriver.Server.UnlinkRegion | src/sys/pm/sysv/shm/shm.c:596-616 | the code meets `Unlink` |
| SharedMemoryDriver.Server.Ftruncate | src/sys/pm/sysv/shm/shm.c:359-402 | the code meets `Truncate` |
| MessageQueue.PutAppends | src/sys/pm/sysv/msg/buffer.c:95-106 | storing appends to the pending messages and disturbs none, wrapped or not |
| MessageQueue.GetRemoves | src/sys/pm/sysv/msg/buffer.c:115-126 | taking yields the oldest message and leaves the others in order |
| MessageQueue.ExecStep | src/sys/pm/sysv/msg/msg.c:76-262 | `tail == head + len*size` modulo the size, keys unique, no buffer shared by two queues, every code exact; a failing call changes no queue |
| MessageQueue.InitInv | src/sys/pm/sysv/msg/msg.c:275-286 | initialisation gives every queue a buffer of its own, whatever the memory held; all queues are unused and empty |
| MessageQueue.RunRefinesQueues | src/sys/pm/sysv/msg/msg.c:76-262 | over any run the results and contents are those of a table of bounded queues |
| MessageQueue.Fifo | src/sys/pm/sysv/msg/msg.c:169-262 | over any run, what was pending plus what was sent is, in order, what was received plus what is pending; never more than 16 pending |
| MessageQueue.PendingInherited | src/sys/pm/sysv/msg/msg.c:135-154 | a closed queue's messages are those the next queue in its slot starts with |
| MessageQueue.Server.DoGet | src/sys/pm/sysv/msg/msg.c:76-123 | the code meets `GetQueue` |
| MessageQueue.Server.DoClose | src/sys/pm/sysv/msg/msg.c:135-154 | the code meets `CloseQueue` |
| MessageQueue.Server.DoSend | src/sys/pm/sysv/msg/msg.c:169-214 | the code meets `Send`; the data of a refused message goes to the null message |
| MessageQueue.Server.DoReceive | src/sys/pm/sysv/msg/msg.c:230-262 | the code meets `Receive` |
| MessageQueue.Server.BufferInit | src/sys/pm/sysv/msg/buffer.c:135-140 | the code marks every buffer free |
| MessageQueue.Server.BufferAlloc | src/sys/pm/sysv/msg/buffer.c:57-75 | takes the first free buffer and clears it, or none is left |
| MessageQueue.Server.DoInit | src/sys/pm/sysv/msg/msg.c:275-286 | the loop meets `Init` and establishes the invariant |
| NameTable.LookupIsMap | src/sys/pm/name/main.c:124-154 | finds exactly the names of the map, with their node |
| NameTable.LinkNew | src/sys/pm/name/main.c:168-235 | a new name is added, or refused iff 256 names are held |
| NameTable.LinkAgain | src/sys/pm/name/main.c:200-213 | one more link iff node and port are those that hold the name, and fewer than 256 links are counted |
| NameTable.LinkRefines | src/sys/pm/name/main.c:168-235 | every link request returns the code that map and count determine |
| NameTable.FreeEntryIff | src/sys/pm/name/main.c:211-222 | there is no free entry iff the map holds 256 names |
| NameTable.UnlinkRefines | src/sys/pm/name/main.c:249-294 | takes one link away iff the port matches; the name goes with the last one |
| NameTable.InitInv | src/sys/pm/name/main.c:85-99 | the preset table satisfies the invariant and holds exactly the preset name |
| NameTable.RunRefinesMap | src/sys/pm/name/main.c:124-294 | over any run of lookups, links and unlinks: exact codes, the map, unique live names, free iff empty name iff count 0, counts add up to registrations plus one |
| NameTable.Server.DoLookup | src/sys/pm/name/main.c:124-154 | the code meets `LookupName` |
| NameTable.Server.DoLink | src/sys/pm/name/main.c:168-235 | the code meets `Link` |
| NameTable.Server.DoUnlink | src/sys/pm/name/main.c:249-294 | the code meets `Unlink` |

## Left out

- MinixDriver.BlockMap: does not say which block it returns when the indirect block is off the device, because the code then uses an uninitialised stack buffer.
- MinixDriver.DirentSearch: says nothing for directories with holes, for which the code allocates blocks while it searches, nor when enlarging the directory involves that buffer.
- MinixDriver.DirentAdd: the same restriction as the search it calls.
- MinixDriver.BlockFreeDirect: the memory behind the zone map, which the code changes for the numbers in `FreeOutsideIff`.
- MinixVolume.DirentRemove: directories with holes, as in the search it calls.
- MinixVolume.AllocateInode: a search that reads to the end of all memory; the memory behind the map is part of the array.
- MinixMkfs.Mkfs: what happens on a device that is too small or with an overlapping layout, and the unused superblock field, which is left uninitialised.
- RmemStub.RunRefinesPages: page numbers that name a server that does not exist, and clients that have not been set up.
- VmemRun.RunRefinesFlat: page faults, clients that share pages, and allocation sizes of 2^31 pages and more.
- MessageQueue.Server.DoSend: of a refused message longer than 256 bytes, what lands behind the null message.
- Failing memory allocation in mounting and formatting, and the house keeping around it.
- The FIFO policy of the page cache, which starts its search at index -1.
- Indirect and double-indirect block freeing, which never read the indirect block, and double-indirect mapping, which panics.
- The memory allocator of the C library and the sleeping semaphores, whose code has no sound invariant to prove.
- The reference-counted table of open inodes, file descriptors, the connection table, heartbeats and the client side of shared memory: they add only easy members or mix identifiers.
- Mailboxes, portals, message headers, server loops, clocks, statistics, threads and start-up of the nodes beyond the ring loop.
