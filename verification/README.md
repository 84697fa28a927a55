# Kernel heap and ChainFS: a verified model

This project models the two stateful components of the kernel, and the numeral printer and parser beside them, and
proves what they promise.

* **The kernel heap** (`src/mlibc/memory.c`). Memory is an array of bytes; a pointer is an index into it. The headers
  of the intrusive doubly linked list are stored in that memory, field by field and little-endian, so that "no heap
  operation touches another payload" is a statement about bytes. The class `Heap.Heap` has the code's fields and
  methods. Each method is proved against a function on block lists (`BlockList.dfy`, `HeapLaws.dfy`), and the laws are
  proved about those functions: exact tiling, full coalescing, completeness of first fit, restoration over whole runs.
* **ChainFS** (`src/kernel/drivers/fs/chainFS/chainfs.c`). The disk is a mutable array of 512-byte sectors, and every
  helper goes through the one shared `sector_buffer`. `DiskView.dfy` reads the zones of the disk as a volume: file
  table, block map, data blocks. The class `ChainFS.FileSystem` is proved against functions on volumes
  (`VolumeOps.dfy`, `VolumeLaws.dfy`, `Paths.dfy`), and `Runs.dfy` proves that every run of the file system is a run of
  a map from (directory, name) to contents, and that the map alone, with the numbers of slots and blocks, determines
  every reply. `write_file` keeps its list of blocks in the kernel heap, as the code does, and is proved to give the
  heap back as it found it.
* **itoa and atoi** (`src/mlibc/itoa.s`, `src/mlibc/string.c`): the digit loop with signed remainders, the in-place
  reversal, and the round trip.

The disk after each sector write is recorded in the ghost field `writes`; crash statements are about those snapshots.

Two invariants of a volume are told apart. `Volume.Sane` says that the tree is well formed and that every file owns a
full chain of its own: what an owner has is in use. `Volume.Inv` adds that nothing is in use without an owner. Every
operation keeps both; a crash in the middle of a create leaves a volume that is sane but has leaked blocks, and all
results about runs hold from any sane volume.

## Reading the files

| file | holds |
|---|---|
| Bytes.dfy, Bits.dfy, MemoryOps.dfy, Text.dfy | little-endian words, mask arithmetic, memset and memcpy, C strings |
| BlockList.dfy, HeapLaws.dfy | the heap as a list of blocks: operations, invariant, laws, runs |
| Heap.dfy | the heap in memory: class `Heap` |
| Layout.dfy, DiskView.dfy | sector formats, zones, what one sector write changes |
| Volume.dfy, VolumeOps.dfy | volumes: invariants, operations and what they keep |
| Accounting.dfy | counting free, owned and usable blocks, live entries and slots |
| VolumeLaws.dfy | what the operations mean for lookups; calls on directories; states a crash can leave |
| Paths.dfy, Runs.dfy | path resolution and the current path; whole runs and the map they implement |
| CrashStates.dfy, Formatting.dfy | the log of sector writes and what its disks read as; what format makes, and runs from there |
| ChainFS.dfy | the file system on the disk: class `FileSystem` |
| Sessions.dfy | sequences of calls on that class, from format, from a mounted disk, after a power cut |
| Counterexamples.dfy | failing inputs for the properties that hold under a condition only |
| Numerals.dfy | itoa and atoi |

## Where code and documentation differ

The model follows the code.

* `chainfs.md` gives 64 bytes for a file entry; the packed struct has 60, still eight to a sector.
* `chainfs.md` gives the root parent 0 and shows a root directory block of 1; `chainfs_format` stores 0xFFFFFFFF and 0.
* `chainfs.md` allows names of 30 characters and unlimited nesting. A name is stored with its terminator in 30 bytes,
  so 29 characters survive, and `resolve_path` looks at no more than sixteen components
  (`Paths.PathRoundTrip` states exactly when the current path resolves, `Counterexamples.SeventeenDeep` and
  `Counterexamples.SlotBeyondTotal` show it failing).
* `chainfs.md` resolves `/` to the root directory. `resolve_path` reads sector 0 for it, the superblock, whose type byte
  is 0xBA, so `chdir("/")` always returns -1 (`ChainFS.FileSystem.ChangeDir`).

## Model

| member | source | states |
|---|---|---|
| Bytes.FromToLE | src/kernel/drivers/fs/chainFS/chainfs.c:161-162 | a word stored little-endian in w bytes reads back, for every value that fits |
| Bytes.ToFromLE | src/kernel/drivers/fs/chainFS/chainfs.c:161-162 | storing a loaded word gives back its bytes |
| Bytes.Store | src/kernel/drivers/fs/chainFS/chainfs.c:179-180 | one word store: the word reads back and no other byte changes |
| Bits.MaskRoundsDown | src/mlibc/memory.c:22 | masking with high ones and k low zeroes is rounding down to a multiple of 2^k |
| Bits.RoundUpIsCeil | src/mlibc/memory.c:234 | for every power of two, `(x + a - 1) & ~(a - 1)` in wrapping 64-bit arithmetic is the least multiple of a not below x, and 0 when the sum wraps |
| BlockList.MaskAligns16 | src/mlibc/memory.c:22 | align16 is arithmetic round-up to 16, except for the sizes above 2^64 - 16, which it takes to 0 |
| MemoryOps.MemSet | src/mlibc/string.c:60-65 | exactly the n bytes from s become c |
| MemoryOps.MemCpy | src/mlibc/string.c:66-72 | exactly the n bytes at dest change: to the old bytes at src, or, when dest lies inside the source, to what stands as far below as dest is from src |
| BlockList.InOrder | src/mlibc/memory.c:12-18 | in a tiled list, earlier blocks end at or before later ones start |
| BlockList.SamePrefix | src/mlibc/memory.c:43-67 | two coalesced tilings of one heap with the same live blocks agree block by block |
| BlockList.Canonical | src/mlibc/memory.c:43-67 | the invariant leaves no choice: equal live blocks mean equal block lists |
| BlockList.TakeSound | src/mlibc/memory.c:24-41 | splitting and taking a free block keeps tiling, sizes and coalescing, and adds exactly one live block inside the free one |
| BlockList.CutThenTake | src/mlibc/memory.c:243-264 | the double split of an aligned allocation keeps the invariant although it leaves a free block in front |
| BlockList.TakeAlignedSound | src/mlibc/memory.c:232-266 | an aligned allocation keeps the invariant, its payload starts at the padded address, one live block is added |
| BlockList.ReleaseSound | src/mlibc/memory.c:43-67 | freeing keeps the invariant with both neighbours absorbed, and removes exactly that live block |
| BlockList.GrowSound | src/mlibc/memory.c:169-179 | growing in place keeps the invariant, the address, and every other live block |
| HeapLaws.DividesBackIsExact | src/mlibc/memory.c:141-144 | the divide-back test on the wrapped product accepts exactly the products below 2^64 |
| HeapLaws.MallocEffect | src/mlibc/memory.c:86-112 | kmalloc keeps the invariant; it adds one new live block, as large as the request in whole grains, or larger by less than 48 bytes where the free stretch ends with it; or it returns 0 and changes nothing; the pointer is a multiple of 16 |
| HeapLaws.AlignedEffect | src/mlibc/memory.c:220-274 | the same for kmalloc_aligned, block size included, with a pointer that is a multiple of the alignment |
| HeapLaws.FreeEffect | src/mlibc/memory.c:114-139 | on null, an address outside the heap or a payload of the list, kfree keeps the invariant, removes the live block at that address if there is one, and otherwise changes nothing |
| HeapLaws.ReallocEffect | src/mlibc/memory.c:153-188 | krealloc drops the block for size 0, leaves it as it is when it suffices, and otherwise exchanges it for one as large as the request takes and no larger, or fails and changes nothing |
| HeapLaws.ReallocComplete | src/mlibc/memory.c:165-187 | the pointer stays exactly when the bytes asked for, from it on, lie in the heap and touch no other live block; otherwise it is kmalloc's, 0 exactly when no vacant region has room |
| HeapLaws.ReallocNull | src/mlibc/memory.c:154-155 | on null krealloc allocates as kmalloc does |
| HeapLaws.CallocEffect | src/mlibc/memory.c:141-151 | kcalloc allocates count times size, and returns 0 exactly when that is 0, needs more than 64 bits, or finds no room |
| HeapLaws.SamePlace | src/mlibc/memory.c:12-18 | two blocks of a tiled list are the same or do not overlap, headers and payloads included |
| HeapLaws.VacantInOneBlock | src/mlibc/memory.c:43-67 | a region that touches no live block lies inside a single free block |
| HeapLaws.MallocComplete | src/mlibc/memory.c:90-111 | kmalloc returns 0 exactly for size 0 and when no region of the heap clear of live blocks has room for a header and the rounded size |
| HeapLaws.MallocLowest | src/mlibc/memory.c:95-107 | otherwise the pointer lies behind the lowest such region |
| HeapLaws.AlignedComplete | src/mlibc/memory.c:223-273 | at every power of two kmalloc_aligned returns 0 exactly for size 0 and when no stretch clear of live blocks has room at its first aligned address, with 0 or at least 48 bytes in front |
| HeapLaws.AlignedLowest | src/mlibc/memory.c:231-265 | otherwise the pointer is such an address, and the lowest |
| HeapLaws.AlignedMisses | src/mlibc/memory.c:232-268 | with heap_start an odd multiple of 16, alignment 32 is refused by an empty heap of any size: one address per free block is tried |
| HeapLaws.WrappedRequest | src/mlibc/memory.c:93-105 | a size above 2^64 - 16 is answered from the first free block, which is too small; where that block can be split, the invariant is lost |
| HeapLaws.Conservation | src/mlibc/memory.c:190-200 | free bytes, live bytes and 32 bytes per block add up to the heap |
| HeapLaws.TotalCounts | src/mlibc/memory.c:190-200 | the sum of free sizes is the number of addresses in free payloads, that of live sizes the number in live ones |
| HeapLaws.MallocThenFree | src/mlibc/memory.c:86-139 | kmalloc then kfree of the result gives back the same block list |
| HeapLaws.AlignedThenFree | src/mlibc/memory.c:220-274 | kmalloc_aligned then kfree of the result gives back the same block list, double split included |
| HeapLaws.InitialSound | src/mlibc/memory.c:69-79 | the single free block of init_heap satisfies the invariant |
| HeapLaws.RunSound | src/mlibc/memory.c:86-188 | the invariant holds after every run of kmalloc, kmalloc_aligned, kcalloc, krealloc and kfree within their contracts |
| HeapLaws.RunRestores | src/mlibc/memory.c:43-139 | any run that comes back to the same live blocks restores the list; the list is init_heap's exactly when nothing is live |
| Heap.HeaderCodec | src/mlibc/memory.c:12-18 | a header is its five fields in 32 bytes, byte by byte |
| Heap.HoldsReplace | src/mlibc/memory.c:31-39 | rewriting the headers of a stretch of blocks and the next header's prev leaves the whole new list in memory, next and prev inverse |
| Heap.HeadersOnlySpares | src/mlibc/memory.c:12-18 | changes confined to headers of the old and new list leave the payloads of common blocks and all memory outside the heap |
| Heap.PayloadClear | src/mlibc/memory.c:105 | no payload byte lies in any header of the list |
| Heap.Heap.InsertHeader | src/mlibc/memory.c:26-39 | the header stores put one more free block in the list, in memory as in the model |
| Heap.Heap.SplitBlock | src/mlibc/memory.c:24-41 | split_block: the list becomes the split list, and only header bytes change |
| Heap.Heap.Absorb | src/mlibc/memory.c:48-54 | unlinking the right neighbour merges two blocks, writing only headers the list had |
| Heap.Heap.CoalesceBlock | src/mlibc/memory.c:43-67 | coalesce merges on both sides as the model does and returns the header of the merged block |
| Heap.Heap.InitHeap | src/mlibc/memory.c:69-79 | init_heap builds one free block over the whole heap and writes nothing outside it |
| Heap.Heap.KMalloc | src/mlibc/memory.c:86-112 | block list and pointer are those of `Malloc`, which `HeapLaws.MallocEffect`, `HeapLaws.MallocComplete` and `HeapLaws.MallocLowest` pin down; live payloads and memory outside the heap are unchanged |
| Heap.Heap.KFree | src/mlibc/memory.c:114-139 | null, foreign and free pointers change nothing; a live one is released; no payload byte changes |
| Heap.Heap.KCalloc | src/mlibc/memory.c:141-151 | an overflowing request changes nothing; otherwise kmalloc's result, with all count * size bytes zero and live payloads unchanged |
| Heap.Heap.KRealloc | src/mlibc/memory.c:153-188 | block list and pointer are those of `Realloc`, which `HeapLaws.ReallocEffect` and `HeapLaws.ReallocComplete` pin down; the old bytes are at the returned pointer whether the block stays, grows or moves; on failure list and live payloads are unchanged |
| Heap.Heap.MoveBlock | src/mlibc/memory.c:181-187 | allocate, copy, free: the old payload's bytes arrive at the new one |
| Heap.Heap.KMallocAligned | src/mlibc/memory.c:220-274 | block list and pointer are those of the first block that fits aligned; live payloads are unchanged |
| Heap.Heap.KGetFreeMemory | src/mlibc/memory.c:190-200 | the number of addresses in free payloads, which with live sizes and headers makes the heap size |
| Heap.Heap.PutWord | src/kernel/drivers/fs/chainFS/chainfs.c:197 | a caller's store into its own payload keeps the heap valid and every other block's bytes |
| Text.StrCmp | src/mlibc/string.c:3-9 | 0 exactly for equal strings, whatever follows the terminators; otherwise the difference of the first bytes that differ |
| Text.StrLen | src/mlibc/string.c:27-33 | the length up to the first NUL |
| Text.StrChr | src/mlibc/string.c:48-59 | the position of the first such character, the terminator counted, or none |
| Text.StrCpy | src/mlibc/string.c:35-39 | string and terminator arrive at the destination, and no other byte changes |
| Text.StrCat | src/mlibc/string.c:41-46 | the buffer holds the two strings joined, and only the bytes from its old end on change |
| Layout.BootIsNoDirectory | src/kernel/drivers/fs/chainFS/chainfs.c:519-527 | sector 0 read as an entry has type 0xBA, so it is no directory |
| Layout.EntryCodec | src/kernel/drivers/fs/chainFS/chainfs.h:27-35 | an entry is its seven fields in 60 bytes, eight entries to a sector, byte by byte |
| Layout.SuperblockCodec | src/kernel/drivers/fs/chainFS/chainfs.h:17-25 | the superblock is its six words, one after the other |
| DiskView.ZonesAre | src/kernel/drivers/fs/chainFS/chainfs.c:45-62 | where each entry, map word and data block lies on the disk |
| DiskView.TableWrite | src/kernel/drivers/fs/chainFS/chainfs.c:377-399 | a table sector rewritten in one entry changes that entry of the volume and nothing else |
| DiskView.FatWrite | src/kernel/drivers/fs/chainFS/chainfs.c:167-185 | the sectored map accessors behave as one flat array: one map entry changes |
| DiskView.DataWrite | src/kernel/drivers/fs/chainFS/chainfs.c:366-367 | a data sector write changes that block of the volume and nothing else |
| Volume.ChainUnique | src/kernel/drivers/fs/chainFS/chainfs.c:205-217 | the chain read from its first block is the whole chain |
| Volume.ChainShape | src/kernel/drivers/fs/chainFS/chainfs.c:369-371 | a chain ascends, stays in range, and no block of it is marked free, so block 0 is never a successor |
| Volume.ChainKept | src/kernel/drivers/fs/chainFS/chainfs.c:205-217 | a chain depends on its own map entries only |
| Volume.FreeFrom | src/kernel/drivers/fs/chainFS/chainfs.c:187-203 | the listed blocks are free, ascending, and the lowest; fewer than asked for only when no other is free |
| Volume.FindUnique | src/kernel/drivers/fs/chainFS/chainfs.c:482-506 | a matching entry is the one the scan returns, because keys are unique |
| VolumeOps.InsertTable | src/kernel/drivers/fs/chainFS/chainfs.c:125-147 | a new entry in a free slot keeps keys unique, parents live directories, and parent links acyclic, slot reuse included |
| VolumeOps.ClearTable | src/kernel/drivers/fs/chainFS/chainfs.c:419-423 | removing a file keeps the tree invariant |
| VolumeOps.DeletedSane | src/kernel/drivers/fs/chainFS/chainfs.c:408-427 | deleting a file leaves every other file its full chain, and the tree well formed |
| VolumeOps.FillEffect | src/kernel/drivers/fs/chainFS/chainfs.c:352-375 | after k rounds exactly the first k blocks are written and linked |
| VolumeOps.CreatedOwns | src/kernel/drivers/fs/chainFS/chainfs.c:366-371 | the new file owns a full chain: the blocks listed, in order, ending in EOF |
| VolumeOps.CreatedSane | src/kernel/drivers/fs/chainFS/chainfs.c:332-399 | creating a file keeps every chain of the right length and disjoint from the others, the new one included |
| VolumeOps.MadeDirSane | src/kernel/drivers/fs/chainFS/chainfs.c:627-639 | mkdir keeps the tree well formed and every file its chain |
| Accounting.BlocksConserved | src/kernel/drivers/fs/chainFS/chainfs.c:187-217 | free blocks plus the blocks the live files need never exceed the data blocks, and equal them exactly when every block in use has an owner |
| Accounting.DeletedUsable | src/kernel/drivers/fs/chainFS/chainfs.c:408-427 | a delete frees as many blocks as the file was charged |
| Accounting.CreatedUsable | src/kernel/drivers/fs/chainFS/chainfs.c:332-399 | a create takes as many free blocks as the file is charged |
| Accounting.DeletedInv | src/kernel/drivers/fs/chainFS/chainfs.c:408-427 | deleting a file keeps the full invariant: a block is in use exactly when a file owns it |
| Accounting.CreatedInv | src/kernel/drivers/fs/chainFS/chainfs.c:332-399 | so does creating one |
| Accounting.MadeDirInv | src/kernel/drivers/fs/chainFS/chainfs.c:627-639 | so does mkdir |
| Accounting.RoomIsCount | src/kernel/drivers/fs/chainFS/chainfs.c:187-203 | find_free_blocks succeeds exactly when the number of free blocks suffices |
| Accounting.SlotIsCount | src/kernel/drivers/fs/chainFS/chainfs.c:125-147 | a slot is free exactly when fewer entries are live than the table has |
| VolumeLaws.StoredInFull | src/kernel/drivers/fs/chainFS/chainfs.c:332-335 | a file of 32-bit size reads back in full exactly when the size is at most 2^32 - 512; above that the block count wraps and its first 512 bytes read back |
| VolumeLaws.NeedIs | src/kernel/drivers/fs/chainFS/chainfs.c:332-335 | the block count is max(1, ceil(size / 512)) up to 2^32 - 512 bytes, and 1 above |
| VolumeLaws.FileBlocks | src/kernel/drivers/fs/chainFS/chainfs.c:332-375 | every file of a sane volume has exactly that many blocks |
| VolumeLaws.CreatedBlocks | src/kernel/drivers/fs/chainFS/chainfs.c:352-375 | so has a created one, and its last block is zero behind the bytes |
| VolumeLaws.CreatedEntry | src/kernel/drivers/fs/chainFS/chainfs.c:381-397 | its entry has name, directory and size, zeroes behind the name, and keeps the reserved bytes |
| VolumeLaws.MadeDirEntry | src/kernel/drivers/fs/chainFS/chainfs.c:632-637 | mkdir's entry has name and parent, size and start block 0, and keeps every other byte |
| VolumeLaws.CreatedContent | src/kernel/drivers/fs/chainFS/chainfs.c:349-375 | the new file's blocks hold the bytes given |
| VolumeLaws.CreatedLookup | src/kernel/drivers/fs/chainFS/chainfs.c:332-399 | after a create the name reads as stored and every other name as before |
| VolumeLaws.DeletedLookup | src/kernel/drivers/fs/chainFS/chainfs.c:408-427 | after a delete the name is gone and every other name reads as before |
| VolumeLaws.MadeDirLookup | src/kernel/drivers/fs/chainFS/chainfs.c:627-639 | after mkdir the name is that directory and every other name is as before |
| VolumeLaws.OverwriteIs | src/kernel/drivers/fs/chainFS/chainfs.c:318-399 | overwriting is deleting, then creating in the same slot |
| VolumeLaws.WriteMeaning | src/kernel/drivers/fs/chainFS/chainfs.c:266-406 | a call that returns 0 stores the bytes under the name, changes no other name, and leaves the volume sane |
| VolumeLaws.WriteUsable | src/kernel/drivers/fs/chainFS/chainfs.c:266-406 | a call that returns 0 leaves as many blocks to files, used and free together, as there were |
| VolumeLaws.WriteReply | src/kernel/drivers/fs/chainFS/chainfs.c:318-347 | in numbers: write_file returns 0 exactly when memory is granted, a new name finds a slot, and the free blocks, those of the file overwritten included, are at least one and hold the bytes |
| VolumeLaws.FailedWrite | src/kernel/drivers/fs/chainFS/chainfs.c:318-347 | a failing call changes nothing but that an overwrite has freed the old blocks |
| VolumeLaws.WriteKeepsInv | src/kernel/drivers/fs/chainFS/chainfs.c:318-347 | sanity, and the full invariant, survive exactly when the name is new, or memory and the blocks free after deletion suffice |
| VolumeLaws.MkDirMeaning | src/kernel/drivers/fs/chainFS/chainfs.c:611-642 | mkdir succeeds exactly when the name is absent and a slot is free; it adds that directory and nothing else |
| VolumeLaws.WalkFromFreeBlockStays | src/kernel/drivers/fs/chainFS/chainfs.c:205-217 | on a directory's start block 0, when that block is free, free_block_chain never leaves it |
| VolumeLaws.WalkFreesChain | src/kernel/drivers/fs/chainFS/chainfs.c:205-217 | from the first block of a chain, k rounds of the loop free its first k blocks and stand at the next, or at the marker |
| VolumeLaws.DirectoryWalkEnds | src/kernel/drivers/fs/chainFS/chainfs.c:205-217 | on a directory, whose start block is 0, free_block_chain returns exactly when block 0 is in use |
| VolumeLaws.DeleteDirectoryBreaks | src/kernel/drivers/fs/chainFS/chainfs.c:408-427 | delete_file on a directory, when it returns, leaves some file alive without its blocks |
| VolumeLaws.OverwriteDirectoryBreaks | src/kernel/drivers/fs/chainFS/chainfs.c:318-399 | write_file over a directory, when it returns, leaves some file without its blocks, or sharing block 0 with the new file |
| VolumeLaws.RoundsConfined | src/kernel/drivers/fs/chainFS/chainfs.c:352-375 | every intermediate state of the data and map writes differs from the old volume only in free blocks |
| VolumeLaws.UnpublishedSane | src/kernel/drivers/fs/chainFS/chainfs.c:352-399 | such a state is a sane volume with the same table and the same contents |
| VolumeLaws.ConfinedReadsSame | src/kernel/drivers/fs/chainFS/chainfs.c:318-427 | a state that differs only in free blocks and in one file's blocks and entry reads as before under every key but that file's |
| VolumeLaws.CreateThenDelete | src/kernel/drivers/fs/chainFS/chainfs.c:332-427 | creating and deleting a file restores the block map word for word, and every lookup |
| Paths.SplitOfJoin | src/kernel/drivers/fs/chainFS/chainfs.c:453-480 | split_path undoes the join of names, up to sixteen components |
| Paths.JoinedParts | src/kernel/drivers/fs/chainFS/chainfs.c:453-480 | every path is its slash-free pieces with one slash between each two |
| Paths.KeepIs | src/kernel/drivers/fs/chainFS/chainfs.c:467-474 | of a path's pieces those of 1 to 30 characters are kept, in order |
| Paths.ComponentsOfPieces | src/kernel/drivers/fs/chainFS/chainfs.c:453-480 | split_path gives the first sixteen of the kept pieces, for any path |
| Paths.WalkIs | src/kernel/drivers/fs/chainFS/chainfs.c:529-552 | the walk down finds an entry exactly when climbing from it through directories meets the names, last to first, and ends where the walk began |
| Paths.ResolveIs | src/kernel/drivers/fs/chainFS/chainfs.c:508-555 | for every path: with a slash in front the entry that lies below the root by the path's components, without one the entry below the current directory; sector 0 exactly for a slash and no components |
| Paths.FindFileIs | src/kernel/drivers/fs/chainFS/chainfs.c:113-123 | a name without a slash is an entry of the current directory; other paths are resolved |
| Paths.NamesLead | src/kernel/drivers/fs/chainFS/chainfs.c:508-555 | one to sixteen good names joined by slashes lead to exactly the entry below the current directory by them, and with a slash in front to the one below the root, whatever the current directory |
| Paths.WalkTrail | src/kernel/drivers/fs/chainFS/chainfs.c:529-552 | walking an entry's names down from the root arrives at that entry |
| Paths.WalkDepth | src/kernel/drivers/fs/chainFS/chainfs.c:529-552 | every component goes exactly one level down |
| Paths.PathRoundTrip | src/kernel/drivers/fs/chainFS/chainfs.c:711-752 | the current path resolves to the current directory exactly when it is at most sixteen deep and all indices on the way up are below total_files |
| Paths.RootPath | src/kernel/drivers/fs/chainFS/chainfs.c:712-719 | in the root the path is "/" |
| Paths.PathPieces | src/kernel/drivers/fs/chainFS/chainfs.c:721-744 | elsewhere it is a slash before each name from where the climb stops down to the current directory, and nothing else |
| Paths.DepthUnique | src/kernel/drivers/fs/chainFS/chainfs.c:727-740 | the number of steps of the upward loop is determined by the table |
| Runs.WalksAgree | src/kernel/drivers/fs/chainFS/chainfs.c:529-552 | resolving over table entries and over the abstract map take the same steps |
| Runs.PathsAgree | src/kernel/drivers/fs/chainFS/chainfs.c:113-123 | find_file on any path finds the entry of the key that the path has in the map |
| Runs.ReadMeaning | src/kernel/drivers/fs/chainFS/chainfs.c:219-265 | what a path leads to on the volume is what the map holds under its key |
| Runs.CountsAgree | src/kernel/drivers/fs/chainFS/chainfs.c:125-203 | keys of the map are live entries and its contents cost the blocks that are charged, so slots and room can be read off the map |
| Runs.AllowedIs | src/kernel/drivers/fs/chainFS/chainfs.c:266-664 | whether a call is within the contract can be read off the map |
| Runs.StepRefines | src/kernel/drivers/fs/chainFS/chainfs.c:266-664 | each call gives the reply that the map determines - delete exactly when the path leads to a key, chdir exactly when to a directory, mkdir exactly when the name is new and a slot free, write exactly when memory, slot and blocks suffice - and does to the map what it means |
| Runs.RunRefines | src/kernel/drivers/fs/chainFS/chainfs.c:266-664 | every run of calls is a run of the map, every reply the one the map determines; the volume stays sane and as much of it usable |
| Runs.RunKeepsInv | src/kernel/drivers/fs/chainFS/chainfs.c:266-664 | the full invariant holds after every run |
| Runs.RunKeeps | src/kernel/drivers/fs/chainFS/chainfs.c:266-664 | over any run, a key that no successful call hits reads as before |
| Runs.LastWriteReads | src/kernel/drivers/fs/chainFS/chainfs.c:219-427 | after a successful write and any run that does not hit its key, the key reads as the bytes written |
| Formatting.RunFromFormat | src/kernel/drivers/fs/chainFS/chainfs.c:41-111 | from a formatted volume every run is a run of the map that starts with the root alone, within the slots and blocks of the format; invariant and block accounting hold at its end |
| CrashStates.CrashReadsSame | src/kernel/drivers/fs/chainFS/chainfs.c:352-399 | every snapshot before a create's publication mounts, is sane, and has the old table, the old file for every path, the old contents and the old lookups |
| CrashStates.CrashKeepsMap | src/kernel/drivers/fs/chainFS/chainfs.c:7-39 | mounted at such a snapshot the file system stands for the map it stood for before the call |
| CrashStates.RunAfterCrash | src/kernel/drivers/fs/chainFS/chainfs.c:7-427 | every run from there is a run of that map |
| CrashStates.CrashReadsOthers | src/kernel/drivers/fs/chainFS/chainfs.c:318-427 | every snapshot of a delete or overwrite mounts and reads as before under every key but the file's own |
| Formatting.FormatGeometry | src/kernel/drivers/fs/chainFS/chainfs.c:45-61 | the zones follow one another inside the disk, table and map have exactly the sectors that max_files and the sectors behind the table ask for, and the map covers every data block |
| Formatting.BlankGood | src/kernel/drivers/fs/chainFS/chainfs.c:70-106 | the volume of a fresh format satisfies the full invariant, holds the root alone, and has every data block usable |
| ChainFS.ListingMeaning | src/kernel/drivers/fs/chainFS/chainfs.c:687-704 | a name is listed exactly when it can be looked up |
| ChainFS.ListingOrder | src/kernel/drivers/fs/chainFS/chainfs.c:687-704 | the listing is the live entries of the directory, each once, in table order |
| ChainFS.GrantedIs | src/kernel/drivers/fs/chainFS/chainfs.c:337 | memory is granted exactly when a region clear of live blocks holds a header and four bytes for each block |
| ChainFS.PutFileEntry | src/kernel/drivers/fs/chainFS/chainfs.c:381-397 | the field stores make exactly that entry and keep its reserved bytes and the rest of the sector |
| ChainFS.PutDirEntry | src/kernel/drivers/fs/chainFS/chainfs.c:632-637 | the same for mkdir, whose strcpy keeps the bytes after the terminator |
| ChainFS.FileSystem.FindInDirectory | src/kernel/drivers/fs/chainFS/chainfs.c:483-506 | finds the first entry of the table with that parent and name, or reports that none exists |
| ChainFS.FileSystem.FindFreeFileEntry | src/kernel/drivers/fs/chainFS/chainfs.c:125-147 | -2 when nothing is mounted; otherwise the lowest unused slot, or -1 exactly when there is none |
| ChainFS.FileSystem.ReadMapEntry | src/kernel/drivers/fs/chainFS/chainfs.c:149-165 | the map entry at that index, or failure exactly beyond the map |
| ChainFS.FileSystem.WriteMapEntry | src/kernel/drivers/fs/chainFS/chainfs.c:167-185 | changes that entry of the map and nothing else of the volume, with one sector write |
| ChainFS.FileSystem.FindFreeBlocks | src/kernel/drivers/fs/chainFS/chainfs.c:187-203 | the heap array receives the count lowest free blocks; -1 exactly when there are fewer; other heap blocks keep their bytes |
| ChainFS.FileSystem.FreeBlockChain | src/kernel/drivers/fs/chainFS/chainfs.c:205-217 | ends, frees exactly the blocks of the chain, and changes no other map entry; no sector write on the way touches another file |
| ChainFS.FileSystem.StoreBlocks | src/kernel/drivers/fs/chainFS/chainfs.c:352-375 | writes and links every block; every sector write on the way leaves a disk that publishes nothing |
| ChainFS.FileSystem.PlaceFile | src/kernel/drivers/fs/chainFS/chainfs.c:332-405 | stores and publishes the file when memory and blocks suffice (`ChainFS.GrantedIs`, `VolumeLaws.NeedIs`, `Accounting.RoomIsCount`), else returns -1 with the disk untouched; the heap comes back as it was |
| ChainFS.FileSystem.WriteNamed | src/kernel/drivers/fs/chainFS/chainfs.c:266-406 | volume and code as specified on every exit path; ready for the next call exactly unless an overwrite failed; the heap's block list and live payloads are as before; a failed create leaves every sector; a create's snapshots touch no file up to the last, an overwrite's none but its own |
| ChainFS.FileSystem.DeleteFile | src/kernel/drivers/fs/chainFS/chainfs.c:408-427 | volume and code as specified, for names and paths, and ready for the next call; no snapshot touches another file |
| ChainFS.FileSystem.MkDirNamed | src/kernel/drivers/fs/chainFS/chainfs.c:558-643 | volume and code as specified, with one sector write, and ready for the next call; a failure leaves the disk untouched |
| ChainFS.FileSystem.SplitPath | src/kernel/drivers/fs/chainFS/chainfs.c:453-480 | the first sixteen pieces between slashes that have 1 to 30 characters |
| ChainFS.FileSystem.ResolvePath | src/kernel/drivers/fs/chainFS/chainfs.c:508-555 | entry, sector and offset of the target that `Paths.ResolveIs` describes, including the reading of sector 0 for a path without pieces |
| ChainFS.FileSystem.ChangeDir | src/kernel/drivers/fs/chainFS/chainfs.c:646-664 | moves to the directory the path leads to, else changes nothing; a path read as sector 0 always fails |
| ChainFS.FileSystem.ReadFile | src/kernel/drivers/fs/chainFS/chainfs.c:219-265 | the first min(length, buffer size) bytes of the file's content, the rest of the buffer untouched |
| ChainFS.FileSystem.CopyChain | src/kernel/drivers/fs/chainFS/chainfs.c:229-260 | following the chain copies the content in order |
| ChainFS.FileSystem.ReadEntryByIndex | src/kernel/drivers/fs/chainFS/chainfs.c:434-451 | the entry with that index, refused exactly at total_files and above |
| ChainFS.FileSystem.GetCurrentPath | src/kernel/drivers/fs/chainFS/chainfs.c:711-752 | the climb ends, and the path of the current directory arrives in the buffer with its terminator, or nothing does when the buffer is too small |
| ChainFS.FileSystem.ListDir | src/kernel/drivers/fs/chainFS/chainfs.c:667-708 | the first max_files live entries of the current directory, in table order |
| ChainFS.FileSystem.Init | src/kernel/drivers/fs/chainFS/chainfs.c:7-39 | mounts exactly on the magic number and recovers the stored parameters; on a disk with a superblock that fits it, the volume is the disk's, at the root |
| ChainFS.FileSystem.Format | src/kernel/drivers/fs/chainFS/chainfs.c:41-111 | leaves a mounted volume, ready, with the root alone, every block free and usable, the data area untouched |
| Sessions.Play | src/kernel/drivers/fs/chainFS/chainfs.c:266-664 | a sequence of calls on the class is a run, reply by reply, with memory granted as the heap stands; the heap's block list is as before |
| Sessions.PlayOnMap | src/kernel/drivers/fs/chainFS/chainfs.c:266-664 | it is a run of the map, which the disk holds at the end |
| Sessions.FormatAndPlay | src/kernel/drivers/fs/chainFS/chainfs.c:41-664 | from format on, the replies are those of the map that starts with the root alone |
| Sessions.Mount | src/kernel/drivers/fs/chainFS/chainfs.c:7-39 | init on the image of a sane volume is ready, at the root of that volume |
| Sessions.PowerCut | src/kernel/drivers/fs/chainFS/chainfs.c:7-664 | mounted from any disk a create leaves before its last write, calls run on the map as it was before the create |
| Counterexamples.SomeBlank | src/kernel/drivers/fs/chainFS/chainfs.c:70-106 | blank volumes, from which the failing inputs start, exist for every number of entries and blocks |
| Counterexamples.OverwriteLosesFile | src/kernel/drivers/fs/chainFS/chainfs.c:318-347 | on one data block, a byte written and then 513 over it: -1, and the file has lost its block |
| Counterexamples.SecondFails | src/kernel/drivers/fs/chainFS/chainfs.c:318-347 | the same for every volume and file: an overwrite with more blocks than the others leave returns -1 and leaves the volume broken |
| Counterexamples.DigRuns | src/kernel/drivers/fs/chainFS/chainfs.c:558-664 | mkdir and chdir repeated succeed as deep as the table has slots |
| Counterexamples.SeventeenDeep | src/kernel/drivers/fs/chainFS/chainfs.c:453-480 | seventeen levels down, reached by calls that all succeed, the current path does not resolve to the current directory |
| Counterexamples.SlotBeyondTotal | src/kernel/drivers/fs/chainFS/chainfs.c:434-437 | formatted for one file, mkdir and chdir succeed, and the path printed is that of the root, which resolves to sector 0 |
| Numerals.QuotRem | src/mlibc/itoa.s:23-27 | truncated quotient and signed remainder recombine to the dividend |
| Numerals.Mirror | src/mlibc/itoa.s:7-30 | a negative remainder finds its digit in the mirrored table |
| Numerals.DigitsDenote | src/mlibc/itoa.s:22-33 | in every base from 2 to 36 the digits denote the absolute value |
| Numerals.NumeralDenotes | src/mlibc/itoa.s:12-62 | in every base what itoa leaves begins with a minus exactly for a negative value, and the rest is the absolute value in digits of the base, most significant first, no zero in front |
| Numerals.ReversePrefix | src/mlibc/itoa.s:43-51 | the two-pointer exchange reverses the prefix and nothing else |
| Numerals.Itoa | src/mlibc/itoa.s:12-68 | the buffer holds a numeral that denotes the value, in every base from 2 to 36, and its terminator; an invalid base gives the empty string |
| Numerals.Atoi | src/mlibc/string.c:11-26 | the value of sign and leading digits, or overflow of the int arithmetic |
| Numerals.ParseDenotes | src/mlibc/string.c:11-26 | on any string: an optional minus, the longest run of digits, and the value they denote in base ten, overflow exactly above 2^31 - 1 |
| Numerals.AtoiOfItoa | src/mlibc/itoa.s:12-68 | atoi of itoa in base ten is the identity on every 32-bit value but the least |

## Left out

- Heap.Heap.KMalloc: sizes above 2^64 - 16, for which align16 wraps to 0, are outside its contract; `HeapLaws.WrappedRequest` says what they do.
- Heap.Heap.KMallocAligned: requires a power of two, and sizes and alignments whose sums do not wrap in 64 bits.
- Heap.Heap.KFree: wild pointers into the heap that are no payload of the list are outside its contract; so are they for krealloc.
- Heap.Heap.KCalloc: products between 2^64 - 16 and 2^64 are outside its contract, since kmalloc's rounding wraps on them.
- The corruption diagnostics on a wrong magic number: with the list intact those branches cannot be reached.
- ChainFS.FileSystem.WriteNamed: names of 1 to 29 characters without a slash, and targets that are not directories; on a directory free_block_chain loops or robs a file (`VolumeLaws.DirectoryWalkEnds`, `VolumeLaws.OverwriteDirectoryBreaks`).
- ChainFS.FileSystem.DeleteFile: targets are files, for the same reason (`VolumeLaws.DeleteDirectoryBreaks`), and not sector 0.
- ChainFS.FileSystem.MkDirNamed: names without a slash; through a slash path mkdir, write_file and list_dir record a table sector number where lookup uses the entry index.
- ChainFS.FileSystem.GetCurrentPath: paths of 256 characters or more would overrun the code's buffers and are outside its contract.
- ChainFS.FileSystem.SplitPath: components are values; the copying into a fixed array of 32-byte strings is not modelled.
- Runs.LastWriteReads: overwrites that run out of room are not calls of a run, since `VolumeLaws.WriteKeepsInv` shows that they break the invariant.
- CrashStates.CrashReadsOthers: delete and overwrite free blocks before the entry is rewritten, so nothing is claimed for the file's own name at their snapshots.
- ChainFS.PutDirEntry: names of 30 characters and more, which strcpy would carry beyond the name field.
- write_file on a file system that was never mounted: its scan for a free entry returns -2 (`ChainFS.FileSystem.FindFreeFileEntry`), the call itself is outside the contract.
- chainfs_rmdir, which compares a table sector number with a directory index.
- kmalloc_usable_size, kheap_dump, printf and the serial log: reading or printing without a further property.
- Port input and output, PATA polling, interrupts, keyboard, mouse, screen, boot code, the shell and its commands: a sector read or write is one atomic step.
- Numerals.Atoi: C leaves signed overflow undefined; the model reports it as a separate outcome.
