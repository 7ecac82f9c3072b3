# A verified model of the FAT32 engine, the kernel heap, the FAT12 table and the floppy reader

The project models the storage and memory core of a small 32-bit kernel and proves what it keeps. Everything the code
updates in place is updated in place here too: the mounted partition, the open file, the tokenizer, the heap, the
FAT12 window and the floppy's transfer buffer are classes whose methods are proved against specification functions, and
the laws are lemmas about those functions.

**FAT32** (`fs/fat32.c`), in layers, each a refinement of something simple:

- `Bytes`, `Device`: little-endian words and sectors; a block device that may fail any operation, without effect.
- `FatTable`, `FatCache`, `Volume`: the one-sector write-back cache over two FAT copies denotes one flat table of links
  and one array of clusters (`Meaning`). Loading, saving and looking up leave that meaning alone, whatever the device
  does; every other operation is a point update of it.
- `Chains`, `FileBytes`: the table's end-marked walks are acyclic, unique chains; a chain denotes a byte sequence, growing
  one pads it with zeros, writing into one splices it.
- `DirEntries`, `Files`, `FileLaws`: a descriptor's read and write loops over clusters refine slice and splice of the
  file's text, including disks that fill up in the middle.
- `Names`, `Directory`, `Paths`: 8.3 names, directory search as linear search, and path walking with the in-place
  tokenizer as a fold of lookups.
- `Catalogs`, `Transitions`, `Runs`: the whole volume. A ghost catalog names every chain, the home of every cluster in
  use, every directory and the one slot that owns each chain. `WellFormed` ties it to the volume; creating, removing,
  writing, reading past the end and making directories keep it, so every run does, from a freshly formatted volume on.
  So does `Rooted`: the directories are one tree below the root.
- `FileSystem`: the calls of the file system by path and by descriptor. Each is proved to be a step of `Runs` on the
  directory the path leads to.

- `OnDisk`: the bytes each operation leaves: the new slot, the fresh cluster, the one byte a removal writes, the four a
  write changes. With the layout laws of `DirEntries`, `FatCache` and `Names` it says in numbers what the other laws say
  about entries, links and names.

**The kernel heap** (`libc/memory.c`): `HeapBlocks` and `HeapRuns` see the heap as a row of blocks that tile it and are
fully coalesced; `HeapHeaders` says how headers and the address-ordered free list are spelled in memory; `Heap` is the
allocator itself, over one array of bytes.

**FAT12** (`archive/fat12.c`): `Fat12Table` is the packed 12-bit table, `Fat12` its three-sector window cache and the
reservation of chains. **Floppy** (`drivers/floppy`): `Floppy` splits addresses into cylinder, head and sector and reads
track by track.

Where the code does not do what it is for, the exact condition under which it does is proved, over the state before the
call, with an input that fails:

- creation in a full directory, which leaves it, or is refused when the disk is full too:
  `CreationStaysInsideExactlyWhenSafe`, `SeventeenthFileIsNotSafe`;
- creation of a name that starts with byte 0xE5: `CreatedIsFoundExactlyWhenStorable`, `StorableExactlyWhen`,
  `DeletedLookalike`;
- the name creation stores: `LastNameIsLastSegmentExactlyWithASlash`, `RelativeNameLosesItsHead`,
  `EmptyNameStoresAnother`;
- opening for creation on a full disk: `OpenFile` (see `OpenOutcome` and `OnUnwrittenEntry`);
- mkdir on a full disk: `MakeDirFillsFreeClusterExactlyWhenThereIsOne`, `FullVolumeMakeDirHitsTheFat`, and the method
  `MakeDir`, which follows the code into the stray write;
- the count and the size a write reports: `CountIsHonestExactlyWhen`, `SizeFitsExactlyWhenReachable`,
  `FullVolumeOverCounts`;
- reads past the end: `ReadStaysInFileExactlyWhen`, `ReadKeepsVolumeExactlyWhen`;
- requests to k_malloc that wrap around: `AllocationKeepsHeapExactlyWhenServable`, `WrappingRequestLeavesTheHeap`;
- the FAT12 window offset: `SpelledOffsetIsMeantExactlyInTheFirstWindow`; and cylinders beyond 16 bits: `LbaRoundTrip`.

Shrinking with k_realloc is wrong whenever there is room: `ShrinkingBreaksTheNextHeader` says what four bytes too many do,
and `ShrinkingOnesBreaksTheHeap` gives contents that break every heap.

The methods stop short of a failing branch in these places, each named again under "Left out": `Malloc` and `Realloc`
require the condition above or a size that does not shrink, because the code then writes over other blocks or outside the
heap; creation requires a directory with an end slot, a suitable deleted slot, or no way at all to create, because the
code otherwise takes a cluster the directory never gets or follows the end mark as a cluster; creation by path also
requires a path of non-empty names with a slash and a last name that does not start with 0xE5; paths must not use a
regular file as a directory; and the FAT12 cache uses the offset that is meant.

The invariant of whole runs is not empty: `FormattedIsWellFormed` gives a volume of every size that satisfies it, and
`FormattedIsRooted` the tree of one directory.

## Model

| member | source | states |
|---|---|---|
| `Bytes.PackThenWords` | fs/fat32.c:397-402 | 128 links packed into a sector and read back are the same links |
| `BlockDevice.Device.Write` | fs/fat32.c:499-503 | a write that succeeds changes exactly its sector; one that fails changes nothing |
| `Fat32Volume.Volume.constructor` | fs/fat32.c:82-106 | mounting starts with nothing cached, and the volume means what the disk says |
| `FatCache.WriteBack` | fs/fat32.c:396-405 | writing the cached sector to the primary copy, with or without the mirror, preserves the flat table and the clusters |
| `FatCache.Loaded` | fs/fat32.c:418-424 | replacing a clean cached sector by one just read preserves the flat table and the clusters |
| `FatCache.LinkChanged` | fs/fat32.c:446-451 | changing one cached word is a point update of the flat table and touches no cluster |
| `FatCache.ClusterChanged` | fs/fat32.c:499-503 | a data write changes one cluster and no link of either copy |
| `FatCache.CleanMeansOnDisk` | fs/fat32.c:393-406 | when nothing is dirty, both copies on disk spell every link of the flat table |
| `FatCache.BytesOnDisk` | fs/fat32.c:379-385 | where the bytes of a cluster and, in both tables, the four of its link lie, lowest first |
| `FatCache.WhereTablesLie` | fs/fat32.c:96-98 | both tables behind the reserved sectors, the data area behind them |
| `Fat32Volume.Volume.SaveCurrentFat` | fs/fat32.c:387-407 | no update is lost whichever write fails: links and clusters are preserved; success leaves nothing dirty |
| `Fat32Volume.Volume.LoadFatSector` | fs/fat32.c:409-426 | no update is lost whichever operation fails; success means the sector asked for is cached |
| `Fat32Volume.Volume.GetNextCluster` | fs/fat32.c:428-437 | yields the flat table's link and changes neither links nor clusters, through any eviction |
| `Fat32Volume.Volume.ChangeFat` | fs/fat32.c:439-459 | exactly two point updates (one when they coincide), then flushed; a device error stops it only before or between them |
| `FatTable.FirstFreeFromIsLeast` | fs/fat32.c:461-470 | the cluster found is the least free one, and 0 exactly when none is free |
| `Fat32Volume.Volume.FindEmptyCluster` | fs/fat32.c:461-470 | the scan, through any evictions, finds the least free cluster and changes nothing |
| `Fat32Volume.Volume.AllocateCluster` | fs/fat32.c:472-491 | the least free cluster is zeroed and becomes the new end-marked tail; all other links and clusters stay; 0 and no change when the disk is full; on a failing device one cluster is zeroed and the two link updates stop before, between or after |
| `Fat32Volume.Volume.WriteCluster` | fs/fat32.c:499-503 | any number is written to the sector its 32-bit sum comes out at: one cluster changes if the number is of the volume, and otherwise one sector outside its clusters |
| `FatCache.WhereSectorsLie` | fs/fat32.c:493-503 | clusters of the volume lie in the data area, the numbers 0 and 1 in the FAT area |
| `Chains.ClaimAppends` | fs/fat32.c:439-459 | claiming behind a chain's tail appends one previously free cluster to that chain, marked 0xFFFFFFF, and changes no other link |
| `Chains.ClaimStarts` | fs/fat32.c:484-487 | claiming with tail 0 makes a chain of one fresh cluster and changes no other link |
| `Fat32Volume.Volume.ReadPartCluster` | fs/fat32.c:505-512 | delivers exactly the bytes asked for, or on an error none |
| `Fat32Volume.Volume.WritePartCluster` | fs/fat32.c:519-526 | splices the bytes into one cluster and touches nothing else, or on an error nothing at all |
| `Fat32Volume.Volume.TraverseFat` | fs/fat32.c:528-542 | one step of a walk: the action on this cluster, then the next link, a fresh cluster at the tail if allocating, 0 at the end |
| `FatTable.ReleaseFreesReachable` | fs/fat32.c:270-289 | deletion frees exactly the clusters reachable from the start, on every table with links in range, cyclic ones included |
| `FatTable.ReleaseStep` | fs/fat32.c:275-285 | each turn of the loop strictly shrinks the set of used clusters or ends it, so deletion terminates |
| `Fat32Volume.Volume.DeleteFatChain` | fs/fat32.c:270-289 | the released table, flushed to both copies; no cluster's bytes change |
| `Chains.ReleaseOfChain` | fs/fat32.c:270-289 | deleting a chain frees precisely its clusters and keeps every other link |
| `Chains.ChainEndsWithMark` | fs/fat32.c:531-541 | a chain is a walk over usable clusters whose last link is 0xFFFFFF8 or above |
| `Chains.ChainIsAcyclic` | fs/fat32.c:528-542 | an end-marked walk never meets a cluster twice |
| `Chains.ChainIsUnique` | fs/fat32.c:528-542 | a cluster starts at most one chain |
| `Chains.GrowLength` | fs/fat32.c:472-491 | growing by single claims ends at the length wanted, or at all the disk can give |
| `Chains.GrowExtends` | fs/fat32.c:472-491 | growth keeps the old chain as prefix, takes only free clusters and leaves every other used cluster as it was |
| `FileBytes.FlatPut` | fs/fat32.c:519-526 | writing cluster by cluster along a chain is one splice of the chain's bytes |
| `FileBytes.FlatGrow` | fs/fat32.c:477-482 | growing a chain extends its bytes with zeros |
| `FileBytes.PutJoins` | fs/fat32.c:350-361 | two adjacent pieces written one after the other are one write of both |
| `DirEntries.ParseRender` | fs/fat32.h:91-104 | the 32-byte entry, as the specification lays it out, reads back field by field |
| `DirEntries.EntryLayout` | fs/fat32.h:91-104 | at which bytes the name, the attributes, the times, the first cluster and the size lie, lowest byte first, and which bit marks a directory |
| `DirEntries.SizeBytes` | fs/fat32.c:364-377 | recording a size changes the last four bytes of an entry and none of the other 28 |
| `DirEntries.RenderParse` | fs/fat32.h:91-104 | any 32 bytes taken for an entry are written back as they were |
| `Files.SeekCluster` | fs/fat32.c:342-348 | seeking, also to a multiple of 512, stands on the right cluster of the chain grown to hold the position, or ran out of disk |
| `Files.WriteBytesInFile` | fs/fat32.c:334-370 | the loop refines growing and splicing; size, descriptor slot and both FAT copies are up to date afterwards; the count is exact for every fill level |
| `FileLaws.CountIsHonestExactlyWhen` | fs/fat32.c:344-368 | the count returned is the count stored if and only if the disk could reach the position (or nothing is written, or the position is a multiple of 512), judged before the call |
| `FileLaws.FullVolumeOverCounts` | fs/fat32.c:344-368 | the input: a full volume of 128 clusters and an empty file positioned at 600; a write of one byte reports one, stores none and records a size beyond the chain |
| `Files.SaveDescriptor` | fs/fat32.c:372-377 | one slot of one cluster is rewritten, the other bytes of that cluster are kept |
| `Files.ReadBytesFromFile` | fs/fat32.c:300-332 | what is delivered and what is claimed, for every position and size, including the wrap-around of the unsigned difference |
| `FileLaws.WriteIsSplice` | fs/fat32.c:334-370 | from a reachable position: the old text zero-extended with exactly the reported prefix of the data spliced in; size max(size, offset + count), position moved by the count, and the count is all of it or what the disk has room for |
| `FileLaws.WrittenLength` | fs/fat32.c:342-361 | the chain ends at exactly max(old length, ceil((offset + n) / 512)) clusters, cut off only by a full disk |
| `FileLaws.SizeFitsExactlyWhenReachable` | fs/fat32.c:344-364 | the recorded size stays within the chain if and only if the starting position was reachable |
| `FileLaws.TwoWritesAreOne` | fs/fat32.c:194-200 | two calls through one descriptor equal one call with both pieces, in text, size, position and count, also when the disk fills up |
| `FileLaws.ChunkingDoesNotMatter` | fs/fat32.c:194-200 | any run of writes through one descriptor equals one write of the concatenation |
| `FileLaws.ReadIsSlice` | fs/fat32.c:300-332 | within the file a read yields text[offset .. min(offset + size, file size)], and its allocating seek never allocates |
| `FileLaws.ReadStaysInFileExactlyWhen` | fs/fat32.c:307-331 | a read claims no byte beyond the file if and only if its position is within it (or nothing is asked for, or the disk is too full to reach a position on a cluster border), judged before the call |
| `FileLaws.ReadKeepsVolumeExactlyWhen` | fs/fat32.c:311-316 | the allocating seek of a read leaves the volume as it was if and only if the chain already reaches the position or no cluster is free |
| `FileLaws.ReadInvertsWrite` | fs/fat32.c:194-209 | reading the range just written returns exactly what was stored |
| `FileLaws.WriteLeavesOthers` | fs/fat32.c:334-370 | every chain apart from the file's keeps its links and its bytes and stays disjoint from the grown one |
| `Names.Make8Point3Name` | fs/fat32.c:564-586 | the two loops and their counters compute the stored name position by position |
| `Names.NameRoundTrip` | fs/fat32.c:554-586 | trimming and re-inserting the dot undoes the encoding but for lower-case letters a-z, which come back as A-Z, for base 1-8 and extension 0-3 |
| `Names.NamesCollideExactlyUpToCase` | fs/fat32.c:554-586 | two fitting names share a stored name if and only if they are byte for byte the same or one letter in its two cases |
| `Names.Name83IgnoresCase` | fs/fat32.c:554-586 | any two names that are the same but for the case of letters are stored alike, fitting or not |
| `Names.StoredNamesAreUpperCase` | fs/fat32.c:554-558 | no byte of a stored name is a lower-case letter |
| `Names.StoredParts` | fs/fat32.c:570-585 | whatever comes before the last dot that letters or digits follow: its first eight bytes, then the first three behind the dot, each padded with spaces |
| `Names.StoredWhole` | fs/fat32.c:570-585 | a name without a dot is stored by its first eight bytes, with an extension of spaces |
| `Names.DotNames` | fs/fat32.c:566-586 | "." and ".." encode to the very names mkdir writes |
| `Directory.CompareDirectory` | fs/fat32.c:597-607 | the verdict on a slot, told apart in all five cases |
| `Directory.SlotKinds` | fs/fat32.c:597-607 | a slot ends the directory, is deleted, or is a hit by its first byte 0 or 0xE5 and its first eleven |
| `Directory.EntryBytes` | fs/fat32.c:505-512 | entry k of a directory is 32 bytes of cluster k / 16 of its chain |
| `Directory.CreationSlotIsLastDeletedOrEnd` | fs/fat32.c:634-656 | creation uses the last deleted slot before the first end slot, or that end slot if none is deleted |
| `Directory.StopAtIsFirst` | fs/fat32.c:622-638 | the search stops at the first slot that is a live entry of the name or an end slot |
| `Directory.SearchDirectory` | fs/fat32.c:613-639 | the cluster walk with its reused buffer terminates and is linear search of the listing, despite the extra pass over a stale buffer |
| `Directory.FindNode` | fs/fat32.c:609-657 | on any chain, a file's too, lookup returns the first live match with its true cluster and index or nothing; creating settles on a slot of this directory, or on none when it is full and so is the disk; the volume is unchanged |
| `Directory.CreationStaysInsideExactlyWhenSafe` | fs/fat32.c:622-656 | the cluster picked for creation is the directory's if and only if an end slot was seen or the deleted slots lie outside the last cluster only; none is picked if and only if the directory is full, nothing in it deleted, and no cluster free |
| `Directory.FullDirectoryIsNotSafe` | fs/fat32.c:622-656 | a directory without end or deleted slots has no room for another name |
| `Directory.SeventeenthFileIsNotSafe` | fs/fat32.c:622-656 | the input: a volume whose root is filled by sixteen files; creating a seventeenth picks the free cluster 19, which is in no chain |
| `Directory.ListingEdited` | fs/fat32.c:372-377 | rewriting a descriptor changes exactly that slot of the directory's listing |
| `Catalogs.SearchFindsTheEntry` | fs/fat32.c:622-638 | with unique names and nothing after the end slot, the search finds precisely the live entry of the name |
| `Transitions.CreateKeepsWellFormed` | fs/fat32.c:667-709 | creating a file or directory keeps the whole-volume invariant |
| `Transitions.RemovalKeepsWellFormed` | fs/fat32.c:134-151 | removing a file keeps it |
| `Transitions.FileTransitionKeepsWellFormed` | fs/fat32.c:300-377 | writing from a reachable position keeps it, short writes on a full disk included, and so does reading from any position, whose seek may claim clusters |
| `Runs.StepKeepsWellFormed` | fs/fat32.c:108-209 | every operation of a run preserves the invariant: create, make directory, remove, write from a reachable position, and read from any |
| `Runs.RunKeepsWellFormed` | fs/fat32.c:108-209 | over every run, at every step: chains end-marked and disjoint, nothing leaked, entries own their chains, names unique, end slots last |
| `Runs.WhatWellFormedMeans` | fs/fat32.c:108-209 | the invariant spelled out: chains are acyclic and pairwise disjoint, a cluster is in use exactly when it is in a chain, names are unique, no entry after the end slot |
| `Runs.CreatedIsFound` | fs/fat32.c:667-684 | a created name is found as an empty entry of the right kind owning a fresh one-cluster chain, its slot holding the name, attributes 0x10 or 0, the start and a zero size, and otherwise what it held; all other names resolve as before |
| `Runs.CreatedIsFoundExactlyWhenStorable` | fs/fat32.c:667-684 | for every stored name, in the slot the code picks: the claimed cluster is in use, and the name is found and the cluster owned by an entry if and only if the name is storable; otherwise the cluster leaks |
| `Runs.StorableExactlyWhen` | fs/fat32.c:564-586 | a path name is storable if and only if its first byte is not 0xE5 |
| `Runs.DotsLeadHome` | fs/fat32.c:686-709 | in a directory just made "." leads to itself, ".." to its parent, nothing else is found, and the bytes of both slots are given |
| `Runs.RemovedIsGone` | fs/fat32.c:134-151 | a removed name is not found, its slot changes only in the first byte, to 0xE5, exactly its chain is free, all other names resolve as before |
| `Runs.WrittenIsFound` | fs/fat32.c:194-200 | a written file is found in its slot with the spliced text, its slot the same but for the size; all other names resolve as before |
| `Runs.ReadIsSilent` | fs/fat32.c:202-209 | a read, also past the end, changes no directory, and the file read keeps its text on a chain that goes on from the old one |
| `Runs.BystanderIsUntouched` | fs/fat32.c:108-209 | a file the operation does not name keeps its entry, its chain and its text |
| `Runs.PathsSurvive` | fs/fat32.c:731-763 | every path to a directory leads to the same directory after any operation |
| `Runs.CreatedPathResolves` | fs/fat32.c:108-127 | after creation the whole path resolves to the new empty entry |
| `Runs.RemovedPathIsGone` | fs/fat32.c:134-151 | after removal the whole path resolves no more |
| `Runs.MadeDirectoryPaths` | fs/fat32.c:166-179 | after mkdir of p, the paths p and p/. lead to the new directory and p/.. to the one it was made in |
| `Runs.RunKeepsRooted` | fs/fat32.c:108-209 | over every run, every directory is where some path from the root leads, and ".." of each leads to the directory its own entry is in: no directories cut off in a cycle |
| `OnDisk.CreatedSlotBytes` | fs/fat32.c:667-684 | creation writes one slot and the fresh cluster, and the 32 bytes of the slot are given |
| `OnDisk.CreatedClusterBytes` | fs/fat32.c:477-487 | the fresh cluster holds zeros, or the dot entries of a directory before them, and its link is 0xFFFFFFF; no other link changes |
| `OnDisk.RemovedBytes` | fs/fat32.c:145-146 | removal writes one byte of all clusters: the first of the slot, to 0xE5 |
| `OnDisk.WrittenSlotBytes` | fs/fat32.c:364-377 | a write leaves 28 bytes of the slot and spells the size in the other four |
| `Paths.Tokenizer.Next` | libc/strings.c:102-116 | each call cuts the next name off in place: it becomes a C string, the rest is what follows the slash, earlier names stay |
| `Paths.FilenameFromPath` | fs/fat32.c:721-729 | what follows the last slash, or without any slash all but the first character |
| `Paths.SegmentsOfJoin` | fs/fat32.c:742-752 | walking a path joined from names visits exactly those names in order |
| `Paths.LastNameIsLastSegmentExactlyWithASlash` | fs/fat32.c:721-752 | on every path without empty names, absolute or relative, creation stores the name the walk ended with if and only if there is a slash in it |
| `Paths.EmptyNameStoresAnother` | fs/fat32.c:721-752 | the input "/a//b": the walk ends with "a" and creation stores "b" |
| `Paths.RelativeNameLosesItsHead` | fs/fat32.c:721-729 | without a slash creation stores all but the first character of the name walked |
| `FileSystems.FileSystem.ResolvePath` | fs/fat32.c:731-763 | the token loop is the fold of lookups from the root or the given directory, and changes nothing |
| `FileSystems.FileSystem.AbsoluteWalksFromRoot` | fs/fat32.c:736-745 | a path that begins with a slash is walked from the root, name by name behind it, whatever the given directory |
| `FileSystems.FileSystem.RelativeWalksFromBase` | fs/fat32.c:736-745 | any other path is walked from the given directory, or from the root without one |
| `FileSystems.FileSystem.CreatedIsFoundFromAnywhere` | fs/fat32.c:736-752 | what is created at an absolute path from one directory is found at that path from any other |
| `FileSystems.EncodeIsNameByName` | fs/fat32.c:746-752 | every name of a path is looked up as its own 8.3 name |
| `FileSystems.FileSystem.Lookup` | fs/fat32.c:609-657 | one lookup in the chain of any directory or file of the volume, and nothing changes |
| `FileSystems.FileSystem.InitializeNode` | fs/fat32.c:667-684 | a fresh zeroed chain and the entry naming it, with attributes 0x10 or 0, size 0 and all else as the slot held it, or on a full disk no change |
| `FileSystems.FileSystem.InitializeDirectoryInside` | fs/fat32.c:686-709 | the two links and end slots are written to the cluster the node records, and nothing else changes; a number outside the volume strikes the sector it comes out at |
| `FileSystems.FileSystem.OpenFile` | fs/fat32.c:108-127 | a create step of the directory the path leads to, or no change; the descriptor is on the file if and only if there was one, or it was asked for, nothing had its name and a cluster was free, and then its entry has the bytes of a new one; on a full disk none if the directory is full too, or else none or one on an unwritten entry, by the directory bit of the slot picked |
| `FileSystems.FileSystem.OpenedCanBeUsed` | fs/fat32.c:123-126 | a descriptor that opening has put on a file satisfies what writing and reading through it require |
| `FileSystems.FileSystem.MakeDir` | fs/fat32.c:166-179 | 1 exactly when the way does not exist or directory and disk are both full; a create step if the name is there or a cluster is free; otherwise the dot entries overwrite what the slot picked recorded as its start |
| `FileSystems.MakeDirFillsFreeClusterExactlyWhenThereIsOne` | fs/fat32.c:166-179 | for every slot, the sector mkdir writes is that of a free cluster if and only if the disk has one; on a full disk it is in the FAT area for a recorded start below 2 and of a cluster in use for one on the volume |
| `FileSystems.FullVolumeMakeDirHitsTheFat` | fs/fat32.c:166-179 | the input: a full volume of one FAT sector and an end slot of zeros; the primary FAT is overwritten |
| `FileSystems.FileSystem.RemoveFile` | fs/fat32.c:134-151 | removing by path is a remove step; 0 exactly when the name was that of a file |
| `FileSystems.FileSystem.WriteFile` | fs/fat32.c:194-200 | the clusters, the entry and the count are those of one write call, from any position, the size is max(size, position + count), the other 28 bytes of the entry stay, and the position moves by the count; from a reachable one it is a write step, and the descriptor stays in step with its slot |
| `FileSystems.FileSystem.ReadFile` | fs/fat32.c:202-209 | from any position a read step, with the exact count and buffer; within the file the slice of the text, and nothing on the volume changes; the position moves by the count and the descriptor stays in step with its slot |
| `HeapBlocks.CarvedKeepsCoalesced` | libc/memory.c:60-67 | carving the tail of a free block keeps the heap tiled, its first block free and no two free blocks adjacent |
| `HeapBlocks.ReleasedKeepsCoalesced` | libc/memory.c:80-83 | freeing with merges on both sides keeps that |
| `HeapRuns.AllocationKeepsHeapExactlyWhenServable` | libc/memory.c:52-68 | one allocation, for any 32-bit size, leaves a tiled and coalesced heap if and only if size + 8 does not wrap or no free block has even the wrapped room |
| `HeapRuns.WrappingRequestLeavesTheHeap` | libc/memory.c:55-67 | the input: on a fresh heap a request of 2^32 - 4 bytes yields a pointer behind its end |
| `HeapRuns.RunKeepsCoalesced` | libc/memory.c:47-86 | after any run of k_malloc, with sizes it can serve or refuse, and k_free, in any order, the heap is tiled and fully coalesced |
| `HeapRuns.EveryByteIsAccountedFor` | libc/memory.c:47-68 | payload sizes and 8 bytes a block always add up to the length of the heap |
| `HeapRuns.FreeBlocksAreFew` | libc/memory.c:82-83 | free blocks number at most live blocks plus one |
| `HeapRuns.LiveBlocksAreDisjoint` | libc/memory.c:52-68 | no two live blocks share a byte |
| `HeapRuns.CarvedBlockIsNew` | libc/memory.c:62-67 | the block handed out was not live before |
| `HeapRuns.CarvingAddsOneLiveBlock` | libc/memory.c:60-67 | allocation adds exactly that block to the live ones |
| `HeapRuns.ReleasingDropsOneLiveBlock` | libc/memory.c:70-86 | freeing removes exactly the freed block, merges included |
| `HeapRuns.FreeingAllRestores` | libc/memory.c:70-86 | freeing every pointer still held, in any order, restores the single initial block |
| `HeapRuns.HeldPointersCanBeFreed` | libc/memory.c:70-83 | every live pointer can be freed: there always is a free block before it |
| `HeapHeaders.HeaderBeforePayload` | libc/memory.c:37-40 | eight bytes in front of every payload stand its size and, for a free block, the address of the next free one, lowest byte first |
| `HeapHeaders.CarveSpells` | libc/memory.c:60-65 | after the three header writes memory spells the carved heap, its free list included |
| `HeapHeaders.LinkSpells` | libc/memory.c:80-81 | after the two link writes the free list is the address-ordered list with the block in it |
| `HeapHeaders.MergeSpells` | libc/memory.c:113-120 | after a merge memory spells the merged heap |
| `HeapHeaders.ContiguousExactlyWhenNeighbours` | libc/memory.c:109-111 | comparing a block's end with the next list node is true exactly when the right neighbour is free |
| `HeapHeaders.OwnerWritesAreHarmless` | libc/memory.c:67 | whatever a caller writes into its own payload leaves headers, free list and all other payloads intact |
| `Heaps.Heap.constructor` | libc/memory.c:47-50 | whatever the memory held, it becomes one free block |
| `Heaps.Heap.Malloc` | libc/memory.c:52-68 | first fit: null exactly when no free block has room, and then nothing changes; otherwise one new live block; no live payload changes |
| `Heaps.Heap.Merge` | libc/memory.c:113-120 | two neighbouring free blocks become one; no live payload changes |
| `Heaps.Heap.Free` | libc/memory.c:70-86 | the walk finds the place in the list; the block is linked and coalesced on both sides; no other live payload changes |
| `Heaps.Heap.Realloc` | libc/memory.c:88-98 | the contents move to the new block and the old one is freed, or nothing changes; every other live payload is kept |
| `Heaps.ShrinkingBreaksTheNextHeader` | libc/memory.c:88-98 | a copy at least four bytes longer than the new block replaces the size in the next block's header; unless those bytes spell that size, the header is broken |
| `Heaps.ShrinkingOnesBreaksTheHeap` | libc/memory.c:88-98 | the input: old contents of ones, which break every heap |
| `Heaps.Heap.Copy` | kernel/util.c:8-12 | the destination holds what the source held, all other bytes stay, also when the destination begins below the source and overlaps it |
| `Fat12Table.WindowsHoldWholeEntries` | archive/fat12.c:848-866 | a window of 1536 bytes holds exactly 1024 entries, and none straddles two |
| `Fat12Table.PackedLayout` | archive/fat12.c:868-874 | three bytes hold two entries, the middle one half of each |
| `Fat12Table.PackedExample` | archive/fat12.c:868-886 | an example read and written in numbers |
| `Fat12Table.SpelledOffsetIsMeantExactlyInTheFirstWindow` | archive/fat12.c:864-866 | the offset as written equals the intended one, and stays inside the buffer, if and only if the cluster is below 1024 |
| `Fat12Table.StoringSetsOneEntry` | archive/fat12.c:876-886 | storing sets that entry to the value modulo 4096 and no other, though neighbours share a byte |
| `Fat12Table.ReservedIsAChain` | archive/fat12.c:761-781 | a reserved list is a chain of exactly n previously free clusters in ascending order ended by 0xfff, and no other entry changes |
| `Fat12Table.FreeInIsEveryFreeCluster` | archive/fat12.c:761-770 | the scan's list holds all free clusters of the range, only those, ascending |
| `Fat12.FatBuffer.GetEntryOffset` | archive/fat12.c:852-866 | the entry's window is cached, whatever was dirty is written back first, the table is unchanged |
| `Fat12.FatBuffer.ReadFatValue` | archive/fat12.c:868-874 | the entry of the table, across evictions |
| `Fat12.FatBuffer.WriteFatValue` | archive/fat12.c:876-886 | one entry of the table becomes the value modulo 4096, across evictions |
| `Fat12.FatBuffer.Flush` | archive/fat12.c:888-896 | both copies on the device equal the table |
| `Fat12.FatBuffer.ReserveChain` | archive/fat12.c:752-781 | null, with the table unchanged, exactly when too few clusters are free; otherwise the first n free ones are threaded and both copies agree |
| `Floppy.LbaRoundTrip` | drivers/floppy/floppy_common.c:38-46 | the split names a sector of a track, and re-joining gives the address back if and only if the cylinder fits 16 bits |
| `Floppy.ChsRoundTrip` | drivers/floppy/floppy_common.c:38-46 | splitting the joined address gives cylinder, head and sector back |
| `Floppy.DriveSizes` | drivers/floppy/floppy_common.c:48-94 | the geometry and the number of sectors of every kind of drive |
| `Floppy.EndsOfTrack` | drivers/floppy/floppy_common.c:38-46 | which cylinder, head and sector the first and the last address of every track come out at |
| `Floppy.AddressesOnA1440KDisk` | drivers/floppy/floppy_common.c:38-46 | eight addresses of a 1.44 MB disk, among them 15 and the last |
| `Floppy.InsideTheDrive` | drivers/floppy/floppy_common.c:48-94 | every address below a drive's capacity splits to one of its cylinders and back |
| `Floppy.SegmentStaysOnTrack` | drivers/floppy/floppy_dma.c:136-140 | a segment has at least one sector, no more than asked for, none beyond its track, and stops short only at the track's end |
| `Floppy.AlongTheTrack` | drivers/floppy/floppy_dma.c:136-140 | the sectors after one on its track are those addressed next |
| `Floppy.Drive.DoTrack` | drivers/floppy/floppy_dma.c:120-193 | on success the transfer buffer begins with exactly the segment's sectors; no drive is an error |
| `Floppy.Drive.ReadFloppyDma` | drivers/floppy/floppy_dma.c:35-49 | always progresses, and fails only with the drive; on success the buffer holds exactly sectors lba .. lba + n in order and nothing behind them is touched |

## Left out

Assumptions the code makes and the model states as preconditions or invariants:

- One sector a cluster, exactly two FATs (the second copy is addressed that way at fs/fat32.c:401-402), a data sector behind every cluster, and links that are 0, in range or an end mark.
- Above the cache the device does not fail: the results of loads are ignored at fs/fat32.c:433 and 280, so a failing device gives no promise there. `SaveCurrentFat`, `LoadFatSector`, `ChangeFat`, `ReadPartCluster` and `WritePartCluster` are proved for failing devices too.
- Fat32Volume.Volume.constructor: takes the three boot-record fields it needs as parameters, and on a reliable device requires two FAT copies that agree.
- A directory's ".." entry names a directory of the volume, as mkdir writes it; a volume made elsewhere may hold 0 there for the root.
- One descriptor at a time on a file, and sizes and positions below 2^31.
- Allocations of descriptors and path copies succeed; the file system is not run on top of the heap model.
- FileSystems.FileSystem.OpenFile: nothing is promised about using a descriptor on an entry that was never written. When creating, the path must consist of non-empty names and hold a slash, its last name must not start with byte 0xE5, and the directory must have the room `CreationSafe` describes or refuse as `CreationRefused` does; the lemmas above say what happens otherwise.
- FileSystems.FileSystem.MakeDir: the same for its path and its directory. After the stray write of a full disk nothing more is promised about the volume than which sector was struck.
- FileSystems.FileSystem.ResolvePath: requires that no regular file is used as a directory on the way. `Lookup` covers the lookup directly below a file; what the code then takes for an entry records any start, and walking on from one outside the table reads sectors behind the FAT as links.
- FileSystems.FileSystem.RemoveFile: the same for its path.
- FileSystems.FileSystem.WriteFile: from a position the disk cannot reach, the size recorded exceeds the chain, so the invariant of runs is not promised.
- Runs.StepKeepsWellFormed: creations of names that start with byte 0xE5, creations that leave a full directory, mkdir on a full disk and writes from unreachable positions are no steps; each can break the invariant or leaves the directory, as the lemmas above show.
- Directory.FindNode: when creating, requires `CreationSafe` or `CreationRefused`. Otherwise the code either records a deleted slot under the end mark's number, or claims a free cluster behind the end mark, which reaches outside the table; extending a full directory never works as meant.
- Empty file names: make_8point3_name underflows on length 0, which a trailing slash reaches; names are required to be non-empty.
- Heaps.Heap.Malloc: requires a size it can serve or refuse; otherwise it writes a header across the end of the block.
- Heaps.Heap.Free: requires a live pointer, as the code does; null and stale pointers are undefined behaviour there.
- Heaps.Heap.Realloc: requires a size no smaller than the old one, unless there is no room for it; otherwise the copy overruns the new block. k_memcpy counts in a signed int, so payloads of 2^31 bytes and more, which it would not copy, are not modelled.
- Fat12.FatBuffer.GetEntryOffset: uses the intended offset (c + c/2) % 1536; the text's parenthesis gives the same only for c < 1024, and leaves the buffer otherwise. Whole windows (sectors per FAT a multiple of 3) and equal copies at the start are required; the two copies are modelled as one run of bytes, and the clusters_list that reserve_chain leaks on failure is not modelled.
- Fat12.FatBuffer.ReserveChain: rests on the same offset, as do reading and writing an entry.
- Floppy.Drive.DoTrack: seeking, the motor, DMA set-up, the twenty tries and the controller's status bytes are one operation that may fail; on failure nothing is promised about the buffers.

What the repository does that is not modelled:

- fat32_lseek, whose backward and end-relative moves do not do what is meant; the position is modelled directly.
- fat32_list_dir, which re-lists a full last cluster; fat32_open_dir; the stubs fat32_create_file and fat32_remove_dir.
- FSInfo; time stamps and attributes other than the directory bit, which are carried along unchanged.
- Volumes written elsewhere: the invariant wants every live entry to start a chain, so it leaves out long-name and label entries and empty files without a cluster, which this code never writes.
- Boot-record signature checks, the VFS dispatch tables and partition letters: thin wrappers.
- FAT12 chain resizing, reading and directories, whose end-marker tests disagree with each other; write_floppy_dma, which never advances its source.
- ATA and the floppy controller's command sequences, interrupts, paging, screen and keyboard: hardware plumbing.
