# Storage core of VesperaOS

A Dafny model of the stateful storage code of VesperaOS, an x86_64 operating system written in C++,
with proofs of what that code keeps over every run. `dafny verify dfyconfig.toml` checks all of it.

- **ext4** (`Ext4*.dfy`). A write-back LRU block cache and inode cache, the bitmap allocator with its
  counts in three places, extent trees with inline entries, promotion and leaves, and on top of them
  `read_file`, `write_file`, `truncate`, `create_file` and `unlink`. The main results: over every run
  each allocated block belongs to one owner; what a shrinking truncate keeps when it rebuilds its tree
  from the blocks it has just freed, which is everything except where a 16-bit count wraps; the batched
  read equals the byte-wise one; a write changes its range and nothing else, and how it ends follows
  from the state before it; link counts are the number of names. Directory blocks are modelled byte by
  byte, and a directory is a file of the same volume.
- **FAT32** (`Fat*.dfy`). Floyd loop detection, chain walks and chain freeing in batches of 128
  sectors over mirrored FATs, the FAT sector cache, growth, truncation and the free count, up to runs
  over all files with their directory entries; and the long-name encoder with its two decoders.
- **Dentry cache** (`Dentry*.dfy`). Tree, sibling lists, LRU list and slab free list over one array of
  slots, with eviction of whole subtrees and reference counts.
- **klib sort** (`KlibSort.dfy`). Introsort with median-of-three Hoare partition, heapsort fallback
  and a final insertion pass. `free_cluster_chain` uses it.
- **NVMe queue pair** (`Nvme*.dfy`). The phase-tag protocol of section 4.6 of NVM Express 1.4, as a
  step relation with the controller as environment and as the class that polls.

State that the code updates in place is a class with arrays or sequence fields; its methods are
proved against functions on values, and those functions carry the theorems. Device reads and writes
and memory allocation succeed; cache sizes are parameters.

In these places the code does less than one might expect. Each is stated exactly, with a condition on
the state before the call, and shown at an input:

- The ext4 group descriptor keeps the free count in 16 bits. `alloc_block` finds nothing exactly when
  the free blocks of every group are a multiple of 65536, which for smaller groups means a full volume
  (`Ext4Allocator.Allocator.AllocBlock`, `Ext4Allocator.SmallGroupsFull`,
  `Ext4Overlooked.FreeGroupOverlooked`).
- `truncate` ignores whether a re-append succeeds. It loses no block exactly when the leaves of the new
  tree can be found, which fails only where such a count reads 0 (`Ext4Files.FileSystem.Truncate`,
  `Ext4Rebuild.KeepsAll`, `Ext4LostBlock.LosesBlock`).
- `write_file` does not write the inode back when the extent tree is exhausted. The state it leaves is
  valid exactly when the first position of the range without a block is already refused, which the
  allocated blocks and the tree before the call tell (`Ext4Files.FileSystem.WriteFile`,
  `Ext4Files.StopsAtFirstIff`, `Ext4Unwritten.LeavesInvalid`).
- ext4 `unlink` looks the name up in a listing of at most 256 entries and misses exactly the names
  behind them (`Ext4Names.Names.Unlink`, `Ext4Names.ListedIff`,
  `Ext4ManyNames.MissesName`).
- `free_cluster_chain` adds the chain's length to the free count. A chain whose last entry is already
  free is counted one too many (`FatChains.CountFreedChain`, `FatVolume.Volume.FreeClusterChain`,
  `FatVolume.FreedTwice`).
- The growth loop of FAT32 `write_file` finds the chain's own last cluster exactly when that cluster's
  entry is free and comes first in the search. The cluster is then linked to itself; later links still
  attach, and the chain ends one link short (`FatVolume.Volume.GrowChain`, `FatVolume.OneLinkShort`).
- FAT32 `write_file` returns without writing the directory entry when space runs out. If the file was
  empty and at least one cluster was found, the entry misses the new chain, and deleting the file or
  looking it up again loses that chain (`FatFiles.Run`, `FatFiles.RunToSpill`, `FatFiles.LosesCluster`).
- `insert_component` may evict the parent it was given. The cache stays consistent exactly when it
  does not, which holds for every path shorter than the cache
  (`DentryCache.DentryCache.InsertComponent`, `DentryCache.EvictsOwnParent`).
- After a timeout of `submit_wait` the late completion is never removed, and each later call takes
  that of an earlier one (`NvmeRing.LateForever`, `NvmeRing.TakesStale`).
- `submit_wait` does not look at the submission queue's head. A command overwrites one that was not
  fetched exactly when a whole ring of commands waits, and all of these are then lost
  (`NvmeRing.Overrun`, `NvmeRing.Overwrites`, `NvmeRing.LostForGood`).

## Model

| member | source | states |
|---|---|---|
| `Ext4Cache.WriteBackCache.Agrees` | filesystem/ext4/ext4.cpp:193-294 | every valid slot holds the current content of its block, so at most one content exists per block number |
| `Ext4Cache.WriteBackCache.Find` | filesystem/ext4/ext4.cpp:195-202 | a block is found exactly when some slot holds it, and then in its one slot |
| `Ext4Cache.WriteBackCache.Victim` | filesystem/ext4/ext4.cpp:204-219 | the slot to reuse is an empty one or else one with the smallest sequence number |
| `Ext4Cache.WriteBackCache.Fetch` | filesystem/ext4/ext4.cpp:193-240 | after a read the block is cached with its current content and the newest sequence number, no block's content has changed, and no other slot was touched; on a miss the slot is an empty one or one with the smallest number |
| `Ext4Cache.WriteBackCache.ReadBlock` | filesystem/ext4/ext4.cpp:193-240 | a read returns the content of the block and changes no content, whatever is evicted and written back on the way; the block's slot gets the newest sequence number and no other slot is touched |
| `Ext4Cache.WriteBackCache.Put` | filesystem/ext4/ext4.cpp:242-294 | a write changes the content of one block and touches one slot, which gets the newest sequence number; if the block was not cached, an empty slot or one with the smallest number |
| `Ext4Cache.WriteBackCache.WriteBlock` | filesystem/ext4/ext4.cpp:242-294 | a write changes the content of its block and of no other, whatever is evicted; the block's slot gets the newest sequence number |
| `Ext4Cache.WriteBackCache.Flush` | filesystem/ext4/ext4.cpp:113-129 | after a flush the device equals the content and no slot is dirty |
| `Ext4Cache.WriteBackCache.Evacuate` | filesystem/ext4/ext4.cpp:1592-1603 | once the cached blocks of a run are flushed and dropped, the device holds the run's current content |
| `Ext4Allocator.FlippedAccounted` | filesystem/ext4/ext4.cpp:1087-1181 | changing one bitmap bit with its group count and the total keeps every group's 16-bit count equal to its clear bits modulo 65536 and the total equal to their sum |
| `Ext4Allocator.FreeUndoesAlloc` | filesystem/ext4/ext4.cpp:1087-1181 | freeing the block just allocated restores every byte of the bitmap, the descriptors and the superblock |
| `Ext4Allocator.AllGroupsVisited` | filesystem/ext4/ext4.cpp:1098-1099 | starting at the preferred group and going round visits every group: if every group's count reads 0 nothing can be allocated |
| `Ext4Allocator.SmallGroupsFull` | filesystem/ext4/ext4.cpp:1098-1103 | in groups of less than 65536 blocks every count reads 0 exactly when every block is allocated |
| `Ext4Overlooked.FreeGroupOverlooked` | filesystem/ext4/ext4.cpp:1087-1136 | a valid volume of two groups of 65536 blocks, one full and one free, on which an allocation finds nothing |
| `Ext4Allocator.ResidualTake` | filesystem/ext4/ext4.cpp:1103-1131 | the sum of the counts as they read goes down by one with each block taken from a group whose count is not 0, so that it is the number of blocks that are sure to be found |
| `Ext4Allocator.FirstClear` | filesystem/ext4/ext4.cpp:1107-1111 | the byte-wise scan finds the first clear bit, or reports that there is none |
| `Ext4Allocator.PickFree` | filesystem/ext4/ext4.cpp:1098-1129 | the block that is found, told from the allocated ones, was free |
| `Ext4Allocator.PickNearest` | filesystem/ext4/ext4.cpp:1092-1129 | the search starts at the group of the block asked for, or at the first group, and finds the first free block of the nearest group whose count does not read 0 |
| `Ext4Allocator.Allocator.TryGroup` | filesystem/ext4/ext4.cpp:1101-1131 | a group gives nothing exactly when its 16-bit count reads 0, that is when its clear bits are a multiple of 65536; otherwise it gives up its first free block and accounts for it |
| `Ext4Allocator.Allocator.AllocBlock` | filesystem/ext4/ext4.cpp:1087-1136 | the result is 0 exactly when the clear bits of every group are a multiple of 65536; otherwise it is the first free block of its group, and no group whose count does not read 0 is nearer, going round, to the group of the block asked for, or to the first group without one; it is now allocated, and no other block changes state |
| `Ext4Allocator.Allocator.FreeBlock` | filesystem/ext4/ext4.cpp:1138-1181 | exactly the block is released; freeing a free block changes nothing |
| `Ext4Extents.DecodeFlat` | filesystem/ext4/ext4.cpp:879-929 | the parsed extents map the same logical blocks to the same physical blocks as the stored ones, with no empty run |
| `Ext4Extents.AppendRunFlat` | filesystem/ext4/ext4.cpp:1230-1257 | appending to a list of runs, merged or not, adds exactly the one mapping |
| `Ext4Extents.PackBound` | filesystem/ext4/ext4.cpp:2177-2185 | re-appending the blocks of a list of runs one by one needs no more runs than the list had |
| `Ext4Extents.SurvivorsFit` | filesystem/ext4/ext4.cpp:2177-2185 | the same for the blocks that survive a cut at any position |
| `Ext4Extents.AppendTreeFlat` | filesystem/ext4/ext4.cpp:1295-1413 | a successful append to an inline or indexed tree makes the mapping the old one plus the new block, through merging, inline insertion, promotion and a new leaf |
| `Ext4Extents.AppendPacked` | filesystem/ext4/ext4.cpp:1295-1413 | appending to a tree built by appends succeeds while the runs fit in four leaves, and asks for a new leaf exactly when all leaves are full |
| `Ext4Extents.AppendNeed` | filesystem/ext4/ext4.cpp:1295-1413 | an append to a tree built by appends fails exactly when its runs would need a fifth leaf, and takes a leaf exactly when they need one more than before |
| `Ext4Extents.FittingAll` | filesystem/ext4/ext4.cpp:2177-2185 | re-appending leaves out no block exactly when the runs need no more leaves than can be had |
| `Ext4Trees.ExtentLeafAppend` | filesystem/ext4/ext4.cpp:1213-1262 | a leaf takes a block exactly when it merges or there is room; only that leaf changes |
| `Ext4Trees.ExtentAllocLeaf` | filesystem/ext4/ext4.cpp:1266-1293 | a new empty leaf in a block that was free, or none exactly when the allocator finds no block |
| `Ext4Trees.Promote` | filesystem/ext4/ext4.cpp:1340-1372 | the inline runs and the new block move to a new leaf with the same mapping |
| `Ext4Trees.ExtentTreeAppend` | filesystem/ext4/ext4.cpp:1295-1413 | true makes the mapping the old one plus the new block; false leaves tree, allocation and all data as they were; false exactly when the tree cannot take the block or a leaf is needed and the allocator finds none; a leaf that is taken is the block the allocator finds near the new one |
| `Ext4Trees.ParseExtents` | filesystem/ext4/ext4.cpp:884-965 | parsing through the cache gives the runs of the stored tree and changes no content |
| `Ext4Ownership.OwnedExactlyOnce` | filesystem/ext4/ext4.cpp:1087-1206 | in every consistent state a block is allocated exactly when it is fixed metadata, lost, or belongs to a file, to one file only and once only |
| `Ext4Ownership.DisjointFiles` | filesystem/ext4/ext4.cpp:1183-1206 | the data and leaf blocks of different files are disjoint |
| `Ext4Edits.AppendConsistent` | filesystem/ext4/ext4.cpp:1682-1692 | taking a block for a file and appending it to its tree keeps the whole disk consistent: it and any new leaf now belong to the file, and nothing is lost |
| `Ext4Edits.OverwrittenPatch` | filesystem/ext4/ext4.cpp:1695-1707 | writing into one block changes the file's bytes in that range and nowhere else |
| `Ext4Edits.OthersKeep` | filesystem/ext4/ext4.cpp:1644-1725 | every other file keeps its inode, its mapping and its bytes |
| `Ext4Rebuild.FreeFrom` | filesystem/ext4/ext4.cpp:2159-2163 | exactly the blocks at or behind the cut are freed |
| `Ext4Rebuild.RebuildTaken` | filesystem/ext4/ext4.cpp:2177-2185 | each append of the rebuild, whose result the code ignores, succeeds exactly when the runs so far and this block need no more leaves than the root can point to and the allocator can find |
| `Ext4Rebuild.SurvivorsNeed` | filesystem/ext4/ext4.cpp:2143-2199 | for any file and any cut, the survivors need no more entries and leaves than the file has just given up |
| `Ext4Rebuild.KeepsAll` | filesystem/ext4/ext4.cpp:2177-2185 | every block below the cut stays exactly when, before the call, there are blocks to be found for the leaves they need |
| `Ext4Rebuild.RebuildCannotFail` | filesystem/ext4/ext4.cpp:2143-2199 | if groups have less than 65536 blocks, then for any file and any cut the leaves of the new tree can be found: the old ones have just been freed |
| `Ext4Rebuild.RebuiltConsistent` | filesystem/ext4/ext4.cpp:2153-2199 | the rebuilt file and all others are consistent; the file has its old bytes where it is still mapped and zeros elsewhere; the blocks that did not fit are lost, and no others |
| `Ext4Rebuild.TruncateTree` | filesystem/ext4/ext4.cpp:2156-2185 | the new tree maps exactly those old blocks below the cut for whose entries there are leaves, in order |
| `Ext4Rebuild.FreeBlocksForInode` | filesystem/ext4/ext4.cpp:1183-1206 | the blocks freed are exactly the data and leaf blocks of the file |
| `Ext4Read.ReadRun` | filesystem/ext4/ext4.cpp:1580-1614 | the direct read of a run of whole blocks, past the cache, returns their current content |
| `Ext4Read.ReadOverlap` | filesystem/ext4/ext4.cpp:1555-1628 | head, run and tail together return the bytes of the overlap, aligned or not |
| `Ext4Read.AllCovered` | filesystem/ext4/ext4.cpp:1546-1629 | stopping once as many bytes are covered as were asked for misses no extent, since extents are disjoint |
| `Ext4Read.ReadExtents` | filesystem/ext4/ext4.cpp:1480-1642 | the batched read equals the byte-by-byte read through the cache, zeros in holes, for every offset, size and order of disjoint extents |
| `Ext4Files.TakeBlock` | filesystem/ext4/ext4.cpp:1666-1693 | a new block with the given bytes for a file, mapped at the asked position, owned by it and counted in its sectors, or nothing changes; which block and which tree, and if none the reason, is told from the allocated blocks and the tree before; no block is lost |
| `Ext4Plans.UntakenExactly` | filesystem/ext4/ext4.cpp:1666-1693 | going through the positions of a range, a block is taken exactly if one of them in front of the position reached had none |
| `Ext4Files.NextChunk` | filesystem/ext4/ext4.cpp:1660-1662 | one turn of the loop reaches to the end of its block or of the bytes |
| `Ext4Files.CourseStep` | filesystem/ext4/ext4.cpp:1659-1712 | each turn of the loop of write_file stays on the course foretold at its start, or ends it there |
| `Ext4Files.BlocksForLeast` | filesystem/ext4/ext4.cpp:2154-2155 | the number of blocks of a size is the least that holds it |
| `Ext4Files.ShortenedCut` | filesystem/ext4/ext4.cpp:2154-2190 | keeping that many blocks keeps every block and byte in front of the new size and none behind, and the sectors are theirs |
| `Ext4Files.FileSystem.ReadInode` | filesystem/ext4/ext4.cpp:425-483 | the inode read is the current one, it is cached, and the extents beside it are those of its tree |
| `Ext4Files.FileSystem.WriteInode` | filesystem/ext4/ext4.cpp:485-541 | the inode changes, no other does, and its cached extents are parsed again |
| `Ext4Files.FileSystem.MapLogicalToPhysical` | filesystem/ext4/ext4.cpp:1030-1083 | the block mapped at a position is found, by the cached extents or by the tree, even while the inode is being changed |
| `Ext4Files.FileSystem.EnsureBlock` | filesystem/ext4/ext4.cpp:1664-1693 | the position is mapped afterwards, the file's bytes are the same, and nothing else changes; the block is the one foretold from the state before |
| `Ext4Files.FileSystem.WriteFile` | filesystem/ext4/ext4.cpp:1644-1725 | the written bytes, the old bytes elsewhere, zeros in the rest of new blocks; the size grows only with a full write, the sectors with each new block; other files are untouched; the answer, the number of bytes and the new tree follow from the allocated blocks and the tree before; the exit of an exhausted extent tree leaves a valid state exactly when the first position of the range without a block is already refused |
| `Ext4Files.StopsAtFirstIff` | filesystem/ext4/ext4.cpp:1666-1688 | no block was taken exactly when every position in front of the one where the write stopped had one |
| `Ext4Unwritten.LeavesInvalid` | filesystem/ext4/ext4.cpp:1684-1688 | a valid volume of eight blocks on which a write of two blocks ends with the tree exhausted and leaves an invalid state |
| `Ext4Files.FileSystem.ReadFile` | filesystem/ext4/ext4.cpp:1480-1642 | reading returns the file's bytes from the offset on and changes nothing: no more than asked for, none behind the file's size, and as many as that allows |
| `Ext4Files.FileSystem.WriteThenRead` | filesystem/ext4/ext4.cpp:1480-1725 | what a full write has written is what a read of that range returns |
| `Ext4Files.FileSystem.Truncate` | filesystem/ext4/ext4.cpp:2143-2199 | no block behind the new size stays mapped, and the sectors are those of the fewest blocks that hold it; every block and byte in front of the new size is as it was if the leaves of the new tree can be found beforehand, which they can in groups of less than 65536 blocks; otherwise exactly the blocks without a leaf are lost; a longer file only changes its size; other files are untouched |
| `Ext4Files.FileSystem.Unlink` | filesystem/ext4/ext4.cpp:1874-1889 | the last link frees exactly the file's blocks and the inode; otherwise only the link count changes |
| `Ext4LostBlock.LosesBlock` | filesystem/ext4/ext4.cpp:2159-2185 | a valid volume with one group of 65544 blocks on which cutting a file of six blocks to five loses its fifth |
| `Ext4Files.FileSystem.InitInode` | filesystem/ext4/ext4.cpp:594-620 | a fresh inode is live and maps nothing |
| `Ext4Files.FileSystem.FreeInode` | filesystem/ext4/ext4.cpp:622-672 | an inode without blocks is out of use and out of the cache, and no other inode changes |
| `Ext4Files.FileSystem.Sync` | filesystem/ext4/ext4.cpp:107-129 | both caches are clean and both devices equal the content, which is unchanged |
| `Ext4Files.Run` | filesystem/ext4/ext4.cpp:1644-2199 | over every run of writes, truncates, unlinks, reads, inode initialisations and syncs the disk stays consistent and the caches fresh; a run stops early exactly when a write has left an invalid state; in groups of less than 65536 blocks no run loses a block |
| `Ext4DirBlock.ReadsBack32` | filesystem/ext4/ext4.cpp:722 | little-endian fields read back what was written |
| `Ext4DirBlock.Whole` | filesystem/ext4/ext4.cpp:698-734 | the entries of a tiled block are those in front of any record and those from it on |
| `Ext4DirBlock.Reused` | filesystem/ext4/ext4.cpp:706-716 | filling an empty record keeps the block tiled and puts exactly the entry in its place |
| `Ext4DirBlock.SplitOff` | filesystem/ext4/ext4.cpp:717-731 | splitting the slack off a record keeps the block tiled, both records large enough, and puts exactly the entry behind the record's own |
| `Ext4DirBlock.Merged` | filesystem/ext4/ext4.cpp:837-838 | giving a record's space to the one in front keeps the block tiled, removes exactly the entry and leaves the others in order |
| `Ext4DirBlock.Emptied` | filesystem/ext4/ext4.cpp:839-841 | emptying the first record of a block removes exactly its entry and leaves the others in order |
| `Ext4Directory.FindInBlock` | filesystem/ext4/ext4.cpp:793-804 | a name is found exactly when an entry of the block has it |
| `Ext4Directory.AddToBlock` | filesystem/ext4/ext4.cpp:698-734 | the first record with room takes the entry, behind its own if it has one, and all others keep their order; the block is unchanged exactly when no record has room |
| `Ext4Directory.RemoveFromBlock` | filesystem/ext4/ext4.cpp:829-850 | a name is removed exactly when an entry has it; nothing else goes and the others keep their order |
| `Ext4DirFiles.StoredBlock` | filesystem/ext4/ext4.cpp:714-731 | writing one mapped block changes that block of the directory's file and no other |
| `Ext4DirFiles.GrownBlocks` | filesystem/ext4/ext4.cpp:735-773 | a block mapped behind the end becomes the directory's last block |
| `Ext4DirFiles.Directory.Find` | filesystem/ext4/ext4.cpp:776-809 | 0 exactly when no entry of the directory's file has the name; otherwise the inode of such an entry, of the only one if names are unique |
| `Ext4DirFiles.Directory.Add` | filesystem/ext4/ext4.cpp:678-774 | the first block with room takes the entry in its first record with room, and no other block changes; only if no block has room a new block of the file holds it; it fails exactly when moreover no block is found or the tree cannot take it, and then nothing changes; size and sectors count the new block, the disk stays consistent and other files are untouched |
| `Ext4DirFiles.Directory.Grow` | filesystem/ext4/ext4.cpp:735-773 | a new block is taken like any block of a file, exactly when the allocated blocks and the directory's tree before allow it, and is then the directory's last one; otherwise the directory is as it was |
| `Ext4DirFiles.Directory.Remove` | filesystem/ext4/ext4.cpp:811-855 | the first block with the name loses one entry of it, the others keep their order and no other block changes, or there is none and nothing changes; other files are untouched |
| `Ext4DirFiles.Directory.List` | filesystem/ext4/ext4.cpp:1417-1478 | a listing is the entries in the order in which they stand, cut off after 256 |
| `Ext4Directory.UniqueAdd` | filesystem/ext4/ext4.cpp:1747-1760 | an addition keeps names unique exactly when the name is not there yet |
| `Ext4Names.RefsGain` | filesystem/ext4/ext4.cpp:1743-1766 | one entry more is one reference more to its inode, wherever it stands |
| `Ext4Names.EntryLive` | filesystem/ext4/ext4.cpp:1850-1889 | every entry refers to an inode in use, and an entry of a plain file is never the last reference to the directory itself |
| `Ext4Names.NamesAdded` | filesystem/ext4/ext4.cpp:1743-1766 | a name for a new inode with one link keeps names unique and link counts exact |
| `Ext4Names.NamesRemoved` | filesystem/ext4/ext4.cpp:1850-1889 | so does removing a name with one link of its inode, and no other entry has the name |
| `Ext4Names.Names.Create` | filesystem/ext4/ext4.cpp:1743-1768 | each error exactly when its cause is there, with nothing changed, the lack of room for the name told from the state before; otherwise the name refers to a new empty inode with one link; names stay unique, link counts exact, the disk consistent and other files as they were |
| `Ext4Names.Names.Unlink` | filesystem/ext4/ext4.cpp:1850-1889 | the name goes, and its inode exactly when that was the last reference to it; a name is not found exactly when it is not among the first 256 entries; no block is lost and other files are untouched |
| `Ext4Names.ListedIff` | filesystem/ext4/ext4.cpp:1443-1458 | of unique names one is listed exactly when fewer than 256 entries stand in front of it, so that unlink misses the others |
| `Ext4ManyNames.MissesName` | filesystem/ext4/ext4.cpp:1443-1458 | 257 files are created in a new directory of a new volume, and unlink answers for one of them that it does not exist |
| `Ext4Names.Run` | filesystem/ext4/ext4.cpp:1644-2199 | over every run of creations, unlinks, writes, reads, truncates and syncs in a directory that is itself a file of the volume, the disk stays consistent, every link count is the number of names, and an inode is in use exactly while it has one |
| `FatChains.Revisit` | filesystem/fat32/fat32.cpp:400-417 | a walk longer than the FAT comes back to a cluster |
| `FatChains.Meeting` | filesystem/fat32/fat32.cpp:400-417 | on a walk that never ends tortoise and hare meet |
| `FatChains.MeetingLoops` | filesystem/fat32/fat32.cpp:400-417 | if they meet the walk never ends |
| `FatChains.ChainUnique` | filesystem/fat32/fat32.cpp:442-534 | a cluster has one chain |
| `FatChains.ChainDistinct` | filesystem/fat32/fat32.cpp:442-534 | no cluster is on a chain twice |
| `FatChains.CountFreedChain` | filesystem/fat32/fat32.cpp:621-622 | freeing a chain adds its length to the free clusters, less one if its last entry was free already |
| `FatChains.ShapeFreed` | filesystem/fat32/fat32.cpp:536-626 | after freeing a chain nothing dangles exactly when nothing pointed to its start |
| `FatChains.ExtendOwnLast` | filesystem/fat32/fat32.cpp:949-958 | linking a free cluster behind a chain lengthens it exactly when that cluster is not the chain's own last one |
| `FatChains.PickNearest` | filesystem/fat32/fat32.cpp:419-440 | no free cluster is nearer, going up and round, to a hint that is a cluster than the one found; without such a hint none comes earlier |
| `FatChains.ReserveStep` | filesystem/fat32/fat32.cpp:948-958 | each link takes one from the clusters that can be found, and only the first can find the chain's own last cluster |
| `FatChains.GrownChain` | filesystem/fat32/fat32.cpp:948-963 | growth gives the old chain followed by the clusters found, without the first of them if it is the chain's own last one |
| `FatChains.AppendOwned` | filesystem/fat32/fat32.cpp:948-958 | growing by free clusters gives the old chain followed by exactly those |
| `FatChains.CutLinked` | filesystem/fat32/fat32.cpp:1657-1659 | cutting leaves the first clusters of the chain |
| `FatTables.PutAllMirrored` | filesystem/fat32/fat32.cpp:355-381 | writing an entry in every copy keeps the copies equal and changes that entry only |
| `FatTables.ClearCopiesMirrored` | filesystem/fat32/fat32.cpp:558-617 | clearing a chain in every copy keeps the copies equal and frees exactly the chain |
| `FatTables.ClearedOutside` | filesystem/fat32/fat32.cpp:558-617 | no sector outside the FATs changes |
| `FatTables.OverlayPut` | filesystem/fat32/fat32.cpp:590-605 | clearing an entry in the batch buffer is clearing it on the device that the buffer stands for, wherever the batch begins and ends |
| `FatVolume.Volume.ReplaceIndex` | filesystem/fat32/fat32.cpp:124-139 | the slot to fill is an empty one or else one with the smallest use stamp |
| `FatVolume.Volume.ReadFatSector` | filesystem/fat32/fat32.cpp:107-148 | a read returns the device's sector and every valid slot stays equal to its sector; one slot is used and gets the new stamp, the sector's own or, if it has none, an empty one or one with the smallest stamp |
| `FatVolume.Volume.InvalidateSector` | filesystem/fat32/fat32.cpp:156-162 | the cache is right again about the sector |
| `FatVolume.Volume.NextCluster` | filesystem/fat32/fat32.cpp:383-398 | the successor of a cluster, 0 at the end of its chain |
| `FatVolume.Volume.WriteFatEntry` | filesystem/fat32/fat32.cpp:328-381 | the entry changes in every copy, nothing else does, the cache stays right, and a known free count stays exact |
| `FatVolume.Volume.HasFatLoop` | filesystem/fat32/fat32.cpp:400-417 | terminates on every FAT, whether or not its copies agree, and is true exactly when the walk never ends |
| `FatVolume.Volume.FindFreeCluster` | filesystem/fat32/fat32.cpp:419-440 | the free cluster that comes first from the search hint on, in cyclic order, and 0 exactly when there is none or the volume has fewer than two clusters |
| `FatVolume.Volume.CountChain` | filesystem/fat32/fat32.cpp:449-497 | the first phase counts the clusters of the chain |
| `FatVolume.Volume.FillChain` | filesystem/fat32/fat32.cpp:499-529 | the second phase lists the same clusters |
| `FatVolume.Volume.GetClusterChain` | filesystem/fat32/fat32.cpp:442-534 | the batched walk gives the chain of the start cluster, and none exactly when the start is no cluster or its walk never ends |
| `FatVolume.Volume.ClearCopy` | filesystem/fat32/fat32.cpp:558-617 | whatever batches are loaded and flushed, one copy ends up with exactly the chain's entries cleared |
| `FatVolume.Volume.FreeClusterChain` | filesystem/fat32/fat32.cpp:536-626 | exactly the chain's entries are freed, in every copy; all other sectors and entries stay; a known free count stays exact exactly when the chain's last entry was not free already |
| `FatVolume.Volume.GrowChain` | filesystem/fat32/fat32.cpp:923-965 | how growth ends, from the FAT and the search hint before it: without space exactly when too few clusters can be found, with an error and one link short exactly when the chain's last entry is free and found first, otherwise with the old chain followed by clusters that were free, each the one the search found in its turn; copies, cache, free count and the new hint are right |
| `FatVolume.GrewOwned` | filesystem/fat32/fat32.cpp:923-965 | a chain whose entries are all in use gets all it needs, or is out of space exactly when too few clusters can be found |
| `FatVolume.OneLinkShort` | filesystem/fat32/fat32.cpp:948-965 | a volume with three free clusters and a directory entry for one of them, on which growth ends one link short |
| `FatVolume.FreedTwice` | filesystem/fat32/fat32.cpp:621-622 | freeing that chain counts a cluster that was free already |
| `FatVolume.Volume.TruncateChain` | filesystem/fat32/fat32.cpp:1654-1661 | a longer chain is cut to its first clusters and the rest freed; a shorter one stays |
| `FatFiles.GrowAllocated` | filesystem/fat32/fat32.cpp:931-963 | growth keeps every used cluster on the chain of exactly one file |
| `FatFiles.CutAllocated` | filesystem/fat32/fat32.cpp:1654-1661 | so does a cut |
| `FatFiles.FreeAllocated` | filesystem/fat32/fat32.cpp:536-626 | so does freeing |
| `FatFiles.AllocatedShape` | filesystem/fat32/fat32.cpp:383-398 | then no two entries share a successor and no used entry points to a free cluster |
| `FatFiles.SoundShape` | filesystem/fat32/fat32.cpp:383-398 | so it is in every state that a run reaches |
| `FatFiles.GrowFile` | filesystem/fat32/fat32.cpp:918-965 | a file's chain keeps its clusters and gets the ones it needs, one more for an empty file, or all that can be found if they are too few; the directory entry misses the new first cluster exactly after a write to an empty file that found some clusters and not enough; other files keep theirs |
| `FatFiles.TruncateFile` | filesystem/fat32/fat32.cpp:1645-1673 | a file keeps its first clusters and its directory entry is right again; other files keep theirs |
| `FatFiles.DeleteFile` | filesystem/fat32/fat32.cpp:1328-1364 | the clusters that the directory entry leads to are free; if the entry misses them they stay in use on no file's chain; other files keep theirs |
| `FatFiles.ReopenFile` | filesystem/fat32/fat32_vfs_adapter.cpp:98 | a node looked up again has the first cluster of its directory entry; a chain that the entry misses is then no file's |
| `FatFiles.Do` | filesystem/fat32/fat32.cpp:918-1673 | one operation does to the FAT, the nodes, the entries and the chains exactly what it should; from a state in which every entry is right and nothing is lost it leads to such a state exactly unless it is a write to an empty file that finds some clusters and not enough |
| `FatFiles.SpillThenDelete` | filesystem/fat32/fat32.cpp:940-1364 | after such a write and a deletion no assignment of chains to files accounts for all clusters in use |
| `FatFiles.LosesCluster` | filesystem/fat32/fat32.cpp:940-1364 | a volume of two clusters on which this happens |
| `FatFiles.Run` | filesystem/fat32/fat32.cpp:918-1673 | over every run of writes, truncates, deletions and lookups: copies agree, each used cluster is on one chain once, a known free count is exact, every valid cache slot equals its sector; each state follows from the one before by its operation, and it is one in which every entry is right and nothing is lost, if the one before is, exactly unless the operation is such a write |
| `FatFiles.RunToSpill` | filesystem/fat32/fat32.cpp:918-1673 | a run from a state in which every entry is right and nothing is lost does all its operations exactly if it ends in such a state; otherwise it has stopped behind the first write to an empty file that found some clusters and not enough |
| `FatLongNames.WriteLfnEntries` | filesystem/fat32/fat32_lfn.cpp:143-196 | as few directory slots as hold the name have its parts of 13, last part first; exactly the first slot bears 0x40; one 0x0000 stands behind the last character and 0xFFFF behind that; attribute, zero fields and the short name's checksum are set; other slots stay |
| `FatLongNames.CheckSumDiffers` | filesystem/fat32/fat32_lfn.cpp:30-34 | short names that differ in one character have different checksums |
| `FatLongNames.CheckSumBits` | filesystem/fat32/fat32_lfn.cpp:30-34 | each step moves every bit of the sum down by one and the lowest to the top and adds the character, modulo 256 |
| `FatLongNames.EntriesLaidOut` | filesystem/fat32/fat32_lfn.cpp:143-196 | which entry bears the mark, which characters each holds, and what stands behind the name |
| `FatLongNames.CopyLfnPart` | filesystem/fat32/fat32_lfn.cpp:54-80 | a piece adds its characters up to the terminator or to the end of the buffer |
| `FatLongNames.AssembleName` | filesystem/fat32/fat32_lfn.cpp:54-80 | the pieces in order give the name back, for every length from 1 to 255, multiples of 13 included |
| `FatLongNames.ReadName` | filesystem/fat32/fat32.cpp:731-749 | the listing puts the entries together from the last to the first |
| `FatLongNames.SortByOrder` | filesystem/fat32/fat32.cpp:1253-1262 | the entries end up sorted by their order fields, and are the same entries |
| `FatLongNames.SortedEntries` | filesystem/fat32/fat32.cpp:1246-1262 | sorting the entries of a name puts its pieces in order |
| `FatLongNames.RoundTrip` | filesystem/fat32/fat32_lfn.cpp:143-196 | what is written for a name is read back as the name, by a listing and by a deletion |
| `DentryLists.LruRemoved` | filesystem/vfs/dentry_cache.cpp:106-119 | relinking the neighbours takes an entry out of the doubly linked list and leaves the order of the others |
| `DentryLists.LruAppended` | filesystem/vfs/dentry_cache.cpp:121-140 | the entry becomes the last of the list |
| `DentryTree.SubtreesAll` | filesystem/vfs/dentry_cache.cpp:142-166 | the subtree of an entry is the entry and the subtrees of its children |
| `DentryTree.CollectReady` | filesystem/vfs/dentry_cache.cpp:142-153 | while children are being freed the remaining ones are intact and still linked |
| `DentryTree.TreePruned` | filesystem/vfs/dentry_cache.cpp:96-166 | without an entry and its subtree the rest is a tree: lists, parents, names and depths are right |
| `DentryTree.TreeGrafted` | filesystem/vfs/dentry_cache.cpp:316-326 | with a new entry at the head of its parent's list it is a tree again |
| `DentryTree.ReachesOne` | filesystem/vfs/dentry_cache.cpp:397-440 | a path leads to one entry at most |
| `DentryCache.SplitCovers` | filesystem/vfs/dentry_cache.cpp:66-77 | every slot is on exactly one of free list and LRU list |
| `DentryCache.HashName` | filesystem/vfs/dentry_cache.cpp:39-50 | the 32-bit FNV-1a hash |
| `DentryTree.FnvKnown` | filesystem/vfs/dentry_cache.cpp:39-50 | its values for the empty name and for "a" |
| `DentryCache.DentryCache.constructor` | filesystem/vfs/dentry_cache.cpp:52-83 | the empty cache |
| `DentryCache.DentryCache.FindChild` | filesystem/vfs/dentry_cache.cpp:85-94 | the child of a parent with a name, and none exactly when there is none |
| `DentryCache.DentryCache.UnlinkFromParent` | filesystem/vfs/dentry_cache.cpp:96-104 | the entry is out of its sibling list and nothing else is |
| `DentryCache.DentryCache.LruRemove` | filesystem/vfs/dentry_cache.cpp:106-119 | the LRU list without the entry |
| `DentryCache.DentryCache.Promote` | filesystem/vfs/dentry_cache.cpp:121-140 | the entry becomes the most recently used, the order of the others stays |
| `DentryCache.DentryCache.CollectAndFree` | filesystem/vfs/dentry_cache.cpp:142-166 | exactly the subtree goes from the LRU list to the free list, the entry's own slot on top; the collected nodes are those it held; the buffer never overflows; the count stays exact |
| `DentryCache.DentryCache.DropSubtree` | filesystem/vfs/dentry_cache.cpp:440-457 | an entry and its subtree go, each reference they held is given back once, all structures stay consistent |
| `DentryCache.DentryCache.EvictLru` | filesystem/vfs/dentry_cache.cpp:173-200 | the least recently used entry goes with its subtree and its own slot is handed back |
| `DentryCache.DentryCache.LookupComponent` | filesystem/vfs/dentry_cache.cpp:202-224 | the child of that name with one more reference for the caller, now most recently used; or a miss that changes nothing |
| `DentryCache.DentryCache.InsertComponent` | filesystem/vfs/dentry_cache.cpp:281-345 | one entry of that name under the parent, most recently used, holding one reference; the others stay but for the evicted subtree; consistent exactly unless room was made by evicting the parent or an ancestor |
| `DentryCache.DentryCache.PathIsSafe` | filesystem/vfs/vfs.cpp:134-148 | on a path shorter than the cache room is never made at the path's expense |
| `DentryCache.DentryCache.KeepsParent` | filesystem/vfs/dentry_cache.cpp:305-326 | a walk from the parent to the root tells exactly whether room can be made without evicting the parent |
| `DentryCache.DentryCache.WalkPath` | filesystem/vfs/vfs.cpp:132-148 | as many components as the path led to before are found with the nodes they had, and the caller gets one reference for each; all others are inserted with the nodes the file system found; every entry of the path is then cached, in order and most recently used, and the cache consistent |
| `DentryCache.WalkingHit` | filesystem/vfs/vfs.cpp:137-141 | a component is a hit only while all before it were, and its entry is the one the path led to at the start |
| `DentryCache.WalkingMiss` | filesystem/vfs/vfs.cpp:142-147 | the first miss is where the path led nowhere at the start, and behind it every component is a miss |
| `DentryCache.EvictsOwnParent` | filesystem/vfs/dentry_cache.cpp:305-326 | a cache of one slot in which an insertion evicts the new entry's own parent and is then inconsistent |
| `DentryCache.DentryCache.FindPath` | filesystem/vfs/dentry_cache.cpp:405-438 | the entry a path leads to, and none exactly when there is none |
| `DentryCache.DentryCache.Invalidate` | filesystem/vfs/dentry_cache.cpp:397-457 | exactly the subtree of the path's entry goes, or nothing if there is none |
| `DentryCache.DentryCache.Flush` | filesystem/vfs/dentry_cache.cpp:466-497 | all entries go and every reference the cache held is given back |
| `DentryCache.Run` | filesystem/vfs/dentry_cache.cpp:85-497 | over every run of walks, lookups, insertions, invalidations and flushes: slab split between the two lists, LRU list a permutation of the tree, sibling names unique, count exact, each reference held by one entry or released; a run stops only in front of an insertion that would evict its own parent |
| `KlibSort.InsertionSort` | include/klib/sort.h:42-57 | sorted and a permutation |
| `KlibSort.MedianOfThree` | include/klib/sort.h:59-77 | the middle one of three elements |
| `KlibSort.Partition` | include/klib/sort.h:79-98 | the cut lies strictly inside, what is left of it ranks at most the pivot and what is right of it at least |
| `KlibSort.Heapsort` | include/klib/sort.h:100-148 | sorted and a permutation |
| `KlibSort.IntrosortImpl` | include/klib/sort.h:150-170 | a permutation in which elements 16 or more apart are in order; each nested call uses up one of a number of levels for which the logarithm of the length is enough, so that calls nest no deeper |
| `KlibSort.Log2Floor` | include/klib/sort.h:36-40 | the largest power of two that is at most the length |
| `KlibSort.Sort` | include/klib/sort.h:172-181 | sorted and a permutation, for every input and every range |
| `NvmeRing.PhaseExact` | drivers/nvme/nvme.cpp:462-474 | with at most one ring of completions waiting, the phase test succeeds exactly when the next completion has been posted, and then that one is read |
| `NvmeRing.StepInv` | drivers/nvme/nvme.cpp:445-485 | every step of host or controller, timeouts and overwritten commands included, keeps the invariant that ties indices, phases and slots to what has happened |
| `NvmeRing.RunInv` | drivers/nvme/nvme.cpp:407-485 | it holds in every state of every run |
| `NvmeRing.OneCompletionEach` | drivers/nvme/nvme.cpp:445-485 | each completion is taken once and in the order of posting, no two are of one command, and without a timeout each is taken by its own command |
| `NvmeRing.Accounted` | drivers/nvme/nvme.cpp:445-485 | in every run each command is in exactly one place: completed, in flight, lost, or waiting; none is lost with fewer timeouts than submission slots |
| `NvmeRing.LostForGood` | drivers/nvme/nvme.cpp:453-458 | in every run a lost command is never fetched and never completed |
| `NvmeRing.AcceptsPosted` | drivers/nvme/nvme.cpp:462-475 | a slot is accepted only after the controller posted it in this round |
| `NvmeRing.LateForever` | drivers/nvme/nvme.cpp:462-485 | after timeouts the host takes, from a controller that completes in order, the completion of the command submitted as many calls before; its own exactly when there was none |
| `NvmeRing.TakesStale` | drivers/nvme/nvme.cpp:460-485 | a run in which one command times out and the call for the next one takes its completion |
| `NvmeRing.Overrun` | drivers/nvme/nvme.cpp:453-458 | in every run a write loses commands exactly when a whole ring of them waits to be fetched, and then all of these; the first is overwritten on the spot |
| `NvmeRing.Overwrites` | drivers/nvme/nvme.cpp:453-485 | for every ring size, a run with as many timeouts as slots whose next command overwrites the first one, and all of them are lost |
| `NvmeRing.OverwritesFetched` | drivers/nvme/nvme.cpp:453-458 | in every run with fewer timeouts than submission slots, and so without any, a slot is written only when the controller has fetched what was in it |
| `NvmeRing.CommandVisible` | drivers/nvme/nvme.cpp:455-460 | the controller sees an announced command exactly when less than a ring of them wait |
| `NvmeRing.NoDeadlock` | drivers/nvme/nvme.cpp:460-485 | unless a whole ring of commands waits, a waiting host sees its phase if a completion has been posted, and otherwise the controller can make a step |
| `NvmeRing.Stuck` | drivers/nvme/nvme.cpp:455-460 | with a whole ring of commands waiting and nothing in flight the controller can make no step |
| `NvmeRing.WaitEnds` | drivers/nvme/nvme.cpp:460-485 | unless a whole ring of commands waits, the controller makes at most two steps for each command outstanding while the host waits, and when it can make no more the host sees its phase |
| `NvmeQueue.NvmeQueue.constructor` | drivers/nvme/nvme.cpp:407-423 | the initial state |
| `NvmeQueue.NvmeQueue.SubmitWait` | drivers/nvme/nvme.cpp:445-485 | a timeout exactly if after each of 0 to 500001 yields the slot at the head does not have the awaited phase; otherwise the completion at the head is taken after the first yield at which it has; without an earlier timeout that is the completion of the command just submitted; after some, and from a controller that completes in order, of the command submitted as many calls before; the commands that waited are lost exactly when they filled the ring |
| `NvmeQueue.NvmeQueue.Poll` | drivers/nvme/nvme.cpp:462-475 | the polling stops at the first look at which the phase is there, or after 500001 yields without it; the state is what the controller's moves make of the one before |
| `NvmeQueue.ReactedSteps` | drivers/nvme/nvme.cpp:462-475 | what a move of the controller does as a function is its step, made whenever it can be |

## Left out

- Device errors, failed memory allocations, locks and preemption, DMA and registers, logging: every operation runs to its end in one piece, except in the NVMe model.
- ext4 extent trees of depth two and more on append, unwritten-extent flags (the parser drops them), HTree directories, checksums, journal, timestamps, owners and modes, and 32-bit truncation of logical block numbers.
- ext4 inode bitmaps and the choice of an inode number: the set of live inodes is given, and the inode table is a device of its own.
- Ext4Files.FileSystem.Truncate: does not say that growing a file after a shrink reads zeros in the old last block, because the source does not clear it.
- Ext4Files.FileSystem.Unlink: is the end of unlink, from the link count on; the lookup of the name and the removal of its entry are in Ext4Names.Names.Unlink.
- Ext4DirFiles.Directory.Add: works on directories whose mapped blocks are covered by records and lie below the directory's size; a malformed block is not part of this model.
- Ext4Names.Names.Create: the inode number comes from a parameter, 0 for none, because inode bitmaps are not part of this model.
- ext4 create_dir, rmdir, rename and symbolic links: they work on two directories at a time, and this model has one directory.
- FAT32 repair of a bad entry from the second FAT: every entry is assumed to be free, an end mark or a cluster, as `is_valid_fat_entry` has it.
- FAT32 file data, the bytes of directory entries, `create_file`, `rename`, trimming and the information sector; of a directory entry only the first cluster is kept.
- FatFiles.ReopenFile: replaces the node, where the source's lookup makes a further one; two nodes of one file in use at once are not part of this model.
- How FAT32 makes short names, and case folding.
- Dentry paths as strings and `DentryCache::insert` and `lookup` by path, whose intermediate lookups keep extra references; nodes marked permanent, which are not counted; the window in which `evict_lru` drops its lock.
- DentryCache.Run: insertions and lookups of single names are given the path of their directory, where the source has a pointer to its entry.
- NVMe `submit` without waiting, PRP lists, identify and SMART data.
- KlibSort.Sort: compares by an integer rank, which any strict weak order on a finite input has.
