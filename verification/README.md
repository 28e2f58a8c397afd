# Models of bareDOOM / barebox in Dafny

barebox is a boot loader; bareDOOM adds a cooperative scheduler and the game to it. This
project models the parts of it that keep state and proves what they promise over all
inputs, all runs and all reachable states.

- **Allocator** (`common/dlmalloc.c`): `Arena`, `ArenaWalk`, `Bins`, `BlockWord`,
  `BinSearch`, `HeapInvariant`, `HeapMoves`, `Alignment`, `Requests`, `Malloc`. The class
  `Heap` holds the arena as a sequence of words, with heads and footers at the positions
  the C code writes them, and reads sizes and in-use bits from there. The layout in chunks
  is ghost state; the invariant ties it to the words, the bins and `binblocks`. Addresses
  and sizes are counted in words of 4 or 8 bytes. A list of free chunks is a sequence.
- **Block cache** (`common/block.c`): `UseList`, `CacheState`, `FlatBytes`, `BlockCache`.
  The device may fail at any write, read or flush, which is counted, and a failed write may
  leave anything behind in the range it was to write. `view` is what the device looks like through the cache.
- **Environment** (`common/environment.c`, `common/envfs-core.c`,
  `defaultenv/defaultenv.c`): `Octets`, `EnvFormat`, `EnvTree`, `EnvImage`. Trees are maps from
  paths to files or links, with the directories beside them. Where links lead, the size lstat
  reports for them and the checksum are parameters.
- **Clock** (`common/clock.c`): `Arithmetic`, `ClockScale`, `ClockTime`.
- **Calendar** (`common/date.c`): `Calendar`, `Date`.
- **Threads** (`common/bthread.c`): `ThreadRing`, `ThreadSafety`, `ThreadFairness`,
  `ThreadFlags`, `Scheduler`. The ring is listed from the current thread on, so a context switch rotates
  it. Each call is a step of the current thread.
- **Bootchooser** (`common/bootchooser.c`): `BootTargets`, `BootBudget`, `Bootchooser`. The
  persistent variables are a record of maps; what comes of a boot is a parameter.
- **Kermit receiver** (`commands/loadb.c`): `KermitCode`, `KermitReceiver`, `KermitRun`.
- **2048** (`commands/2048.c`): `SlideRow`, `SlideLaws`, `Rotation`, `Moves`, `GameBoard`,
  `GameScore`. Cells wrap at 16 bits and the score at 32, as in C. The board is of any size.

`dafny verify dfyconfig.toml` checks all of it.

## What turned out not to hold

- A saved environment does not always come back. Files are compared through links, so a
  link to the bytes of the default file is not saved; a link that leads nowhere is not
  replaced by another; a file is written through a link in its place; a link to its own
  basename is taken for a whiteout; a file cannot take the place of a directory nor a
  directory that of a file; and on ramfs, which reports size zero for links, only the first
  character of a link's target is saved. `EnvImage.SaveLoad` says exactly when it does come
  back.
- The shift of `clocks_calc_mult_shift` is not always the largest that avoids overflow over
  the range; `ClockScale.ShiftCouldBeLarger` gives an input and `ClockScale.LargestExactly`
  says exactly when it is.
- A boot lowers the saved number of attempts only if no other target of the same name
  follows (`Bootchooser.AttemptKept`); after reading the targets, only if the name is listed
  once (`Bootchooser.AttemptSaved`).
- `memalign` casts the alignment to int; from 2^32 on it depends on where the chunk lies
  whether the result is right (`Alignment.LeadBeyondCast`).
- A Kermit packet that is damaged after its sequence number takes the data of the packet
  before with it when it is sent again; `KermitRun.TransferRight` gives the condition and
  `KermitRun.DamagedTransfer` a run.
- A prefix character between 63 and 95 or 191 and 223 does not come through the Kermit
  translation (`KermitCode.PrefixLost`), though the receiver accepts any the sender names.
- Tiles of 2048 are lost when a merger reaches 65536 (`SlideLaws.SumKept`, `SlideLaws.SumLost`).
- `gameEnded` is false for the empty board, on which no move changes anything.

## Model

| member | source | states |
|---|---|---|
| `Arena.FuseTiled` | common/dlmalloc.c:1392-1411 | Chunks that lie side by side fused into one: the chunks still tile the arena, each borders the next and knows whether the one before it is in use |
| `Arena.CutTiled` | common/dlmalloc.c:1606-1612 | One chunk cut in two: the chunks still tile the arena |
| `Arena.SplitTags` | common/dlmalloc.c:1264-1277 | After the head and foot words of a split are written, every size word, every in-use bit and every footer of the arena agrees with the layout |
| `Arena.FuseTags` | common/dlmalloc.c:1403-1415 | The same after a merge |
| `Arena.FuseFrees` | common/dlmalloc.c:1388-1417 | What a merge does to the set of free chunks: those merged go, the new one comes, no other changes |
| `Arena.SplitFrees` | common/dlmalloc.c:1264-1277 | What a split does to the set of free chunks |
| `Arena.RegionUndisturbed` | common/dlmalloc.c:1345-1418 | A step that writes only inside a region leaves the size and every user word of each chunk in use outside it alone |
| `ArenaWalk.Tiling` | common/dlmalloc.c:580-590 | Walking from size field to size field reaches exactly the chunks and ends at the end of top; the sizes add up to the memory of the arena |
| `ArenaWalk.TagsDetermineLayout` | common/dlmalloc.c:661-683 | The tags in memory determine the layout: two layouts that fit the same memory are the same |
| `Bins.BinIndexMonotone` | common/dlmalloc.c:838-849 | The bin index never falls as the size grows, over all the ranges of the macro |
| `Bins.BinIndexRange` | common/dlmalloc.c:838-849 | Every chunk size has a bin between 2 and 126 |
| `Bins.BinTable` | common/dlmalloc.c:838-849 | The spacing of the bins, range by range |
| `Bins.SmallBin` | common/dlmalloc.c:851-861 | Every chunk in a small bin is of the one size that belongs there |
| `Bins.UnlinkIndexed` | common/dlmalloc.c:960-966 | Taking a chunk off its list leaves every other free chunk in exactly one list, the bin of its size or last_remainder, and every list in order |
| `Bins.LinkIndexed` | common/dlmalloc.c:929-956 | Putting a chunk at the front of those of its size does the same for all |
| `Bins.ResizeRemainder` | common/dlmalloc.c:1397-1409 | A last remainder that grows backwards or forwards stays the only chunk of its list |
| `Bins.ReplaceRemainder` | common/dlmalloc.c:970-974 | A new last remainder takes the place of the list's only chunk |
| `BlockWord.SetBitTest` | common/dlmalloc.c:879-880 | Marking a block sets its bit and no other |
| `BlockWord.ClearBitTest` | common/dlmalloc.c:881 | Clearing a block clears its bit and no other |
| `BlockWord.BitAtOrAbove` | common/dlmalloc.c:1239-1249 | When the comparison of the block with binblocks succeeds there is a marked block from there on, so the search for it ends |
| `BinSearch.ScanBin` | common/dlmalloc.c:1259-1284 | From the back of a bin, the first chunk that is large enough is the smallest of the bin that is |
| `BinSearch.ScanBlock` | common/dlmalloc.c:1257-1286 | The same over the bins of a block, from the one where the search enters it |
| `BinSearch.ClearBlock` | common/dlmalloc.c:1288-1296 | A block's bit is cleared only when all of its bins are empty, also when the search entered it in the middle |
| `BinSearch.NextMarked` | common/dlmalloc.c:1298-1306 | The next marked block is found and none that holds anything is skipped |
| `BinSearch.FirstMarked` | common/dlmalloc.c:1239-1249 | The search starts at the first block that can hold anything large enough |
| `BinSearch.ScanBins` | common/dlmalloc.c:1239-1308 | The search over marked blocks finds the first chunk that fits exactly as a search of every bin would; only bits of empty blocks are cleared |
| `BinSearch.ExactFit` | common/dlmalloc.c:1166-1208 | A chunk of the request's own bins is taken at once exactly when one fits without a remainder large enough to split off; otherwise all bins below the returned start hold nothing that fits |
| `BinSearch.SmallFit` | common/dlmalloc.c:1168-1187 | A chunk found in one of the two small bins needs no split; when both are empty there is none in them and nothing that fits below the returned start |
| `BinSearch.LargeFit` | common/dlmalloc.c:1188-1207 | The scan of the request's own large bin, and the rescan index when its chunks are too large |
| `BinSearch.BestOfAll` | common/dlmalloc.c:1252-1287 | What the bin scan finds is the smallest of all free chunks that fit |
| `BinSearch.AllTooSmall` | common/dlmalloc.c:1298-1308 | When the bin scan finds nothing no free chunk fits |
| `HeapInvariant.ReadTags` | common/dlmalloc.c:661-714 | What a chunk's own words say about its size, its neighbours and their status is true |
| `HeapInvariant.FuseRegion` | common/dlmalloc.c:1388-1417 | A merge keeps the physical invariant: tiling, tags, and no two free chunks side by side |
| `HeapInvariant.SplitRegion` | common/dlmalloc.c:1264-1277 | A split keeps it |
| `HeapMoves.Release` | common/dlmalloc.c:1388-1417 | Freeing a chunk inside the arena, with either, both or no neighbour merged, keeps the physical invariant and disturbs no chunk in use |
| `HeapMoves.ReleaseIntoTop` | common/dlmalloc.c:1369-1386 | The same for a chunk that borders top, with or without the chunk before it |
| `HeapMoves.ExtendTop` | common/dlmalloc.c:1019-1021 | Top grows by the memory obtained and nothing else changes |
| `HeapMoves.UserWrite` | common/dlmalloc.c:629-630 | Writing user words of a chunk in use, the footer position of the next one included, breaks no tag and reaches no other chunk in use |
| `HeapMoves.SettledMoved` | common/dlmalloc.c:1604-1618 | After the split or the final head the chunk in its new place has what fits of the old contents |
| `HeapMoves.CopyMoved` | common/dlmalloc.c:1597-1600 | Allocate, copy and free amount to a move that keeps the contents |
| `HeapMoves.JoinMoved` | common/dlmalloc.c:1588-1595 | Joining with a new chunk right behind amounts to a move in place |
| `Alignment.LeadFits` | common/dlmalloc.c:1683-1690 | For every power of two below 2^32 the leader is at least a smallest chunk, reaches an aligned address and is covered by the padding asked for |
| `Alignment.LeadBeyondCast` | common/dlmalloc.c:1683-1686 | From 2^32 on the cast of the alignment to int leaves zero, and the leader is right if and only if the chunk lies far enough below the alignment taken as an address |
| `Requests.RequestWords` | common/dlmalloc.c:634-637 | A padded request is a whole even number of words, at least four, with room for the bytes and the size word |
| `Requests.NewBrkIs` | common/dlmalloc.c:995-1045 | Where memory ends after an extension: with an arena the least number of whole pages for the request and a smallest chunk further on; else at the least page boundary behind the first aligned address and what is needed; there is one such end |
| `Requests.MemalignAsks` | common/dlmalloc.c:1660-1665 | What memalign asks malloc for: the least chunk for the padded request, the alignment and a smallest chunk |
| `Requests.ArenaGeometry` | common/dlmalloc.c:1028-1052 | The corrections for the first chunk of the arena give an aligned start, a page end, and enough room for the request |
| `Malloc.Heap.constructor` | common/dlmalloc.c:794-829 | The heap before the first allocation satisfies the invariant |
| `Malloc.Heap.Allocations` | common/dlmalloc.c:634-641 | In every valid state every live allocation is aligned to two words, at least as large as requested and inside the memory obtained, and no two share a word |
| `Malloc.Heap.Store` | common/dlmalloc.c:629-630 | A client that writes anywhere in its own allocation keeps the heap valid and changes no other allocation |
| `Malloc.Heap.Unlink` | common/dlmalloc.c:960-966 | The chunk is off its list and the index is in order for the rest |
| `Malloc.Heap.Frontlink` | common/dlmalloc.c:929-956 | The chunk is in the bin of its size, before those of its own size, and the bin is marked |
| `Malloc.Heap.LinkLastRemainder` | common/dlmalloc.c:970-974 | The chunk is the only one in last_remainder |
| `Malloc.Heap.SplitVictim` | common/dlmalloc.c:1264-1277 | The front of a free chunk comes into use, its rest becomes the last remainder, all other allocations are undisturbed |
| `Malloc.Heap.TryLastRemainder` | common/dlmalloc.c:1210-1233 | The last remainder serves the request, by a split or whole, or goes to its bin |
| `Malloc.Heap.TryBins` | common/dlmalloc.c:1235-1308 | The smallest of all free chunks that fit is allocated; failure means no free chunk fits |
| `Malloc.Heap.Sbrk` | common/memory.c:88-110 | Memory is handed out up to its end, or the break stays where it is |
| `Malloc.Heap.ExtendHeap` | common/dlmalloc.c:987-1052 | Memory grows to the end that NewBrkIs describes, without naming how it is computed, exactly when that end is within the limit; then top has room for the request and a smallest chunk. On failure memory, top and chunks are as before, though the break has moved when only the second sbrk failed |
| `Malloc.Heap.TakeTop` | common/dlmalloc.c:1310-1324 | The request is carved from top, which never disappears; failure exactly when top is too small and cannot be extended |
| `Malloc.Heap.MallocChunk` | common/dlmalloc.c:1166-1324 | Which chunk serves a request, in this order: one of the request's own bins that needs no split, if there is one; the last remainder, if it fits; the smallest free chunk that fits; top. Failure exactly when none fits, top is too small and memory cannot be extended |
| `Malloc.Heap.Malloc` | common/dlmalloc.c:1144-1325 | A new allocation with room for the request, less than a smallest chunk larger than it, all others undisturbed, the whole invariant kept; NULL if and only if the size is negative, or no free chunk fits, top is too small and the next end of memory would pass its limit |
| `Malloc.Heap.FreeIntoTop` | common/dlmalloc.c:1369-1386 | The chunk, and a free one before it, become part of top; nothing else is freed or indexed |
| `Malloc.Heap.FreeMiddle` | common/dlmalloc.c:1388-1417 | The chunk and its free neighbours become one free chunk; it is the last remainder if one of them was, which else stays as it is, and is in its bin otherwise |
| `Malloc.Heap.Free` | common/dlmalloc.c:1345-1418 | Exactly that allocation is gone, and where its words go is as for FreeIntoTop and FreeMiddle; all others are undisturbed, the whole invariant is kept; NULL changes nothing |
| `Malloc.Heap.GrowForward` | common/dlmalloc.c:1516-1521 | The chunk takes in the free chunk behind it and keeps its contents |
| `Malloc.Heap.MoveBack` | common/dlmalloc.c:1556-1578 | The chunk moves to the start of the free chunk before it, with the one behind it or without, and its overlapping copy keeps the contents |
| `Malloc.Heap.GrowIntoTop` | common/dlmalloc.c:1503-1554 | The chunk grows into top, moving back or not, and leaves a top |
| `Malloc.Heap.Resize` | common/dlmalloc.c:1491-1578 | The block is resized where it is if and only if it is large enough, or is with the free chunk before it, or with the free chunk or top behind it too, of which a smallest chunk must be left; it moves back only if what is behind it is not enough |
| `Malloc.Heap.JoinBehind` | common/dlmalloc.c:1588-1595 | A chunk that malloc put right behind is joined without a copy |
| `Malloc.Heap.CopyAway` | common/dlmalloc.c:1597-1600 | The contents are copied to the new chunk and the old one is freed |
| `Malloc.Heap.Reallocate` | common/dlmalloc.c:1580-1602 | Else it is moved to a new chunk, unless malloc fails |
| `Malloc.Heap.Shrink` | common/dlmalloc.c:1604-1616 | What is no longer needed is split off and freed when it is large enough |
| `Malloc.Heap.Realloc` | common/dlmalloc.c:1451-1619 | On every path the new chunk has room for the request, is less than a smallest chunk larger, and holds the first min(old, new) words of the old one; all other allocations are undisturbed. NULL if and only if the size is negative, or the block does not fit where it is and malloc would fail. Where it fits in place, the result is the old address, or that of the free chunk before it if what is behind is not enough; on failure the old block and everything else is intact |
| `Malloc.Heap.Memalign` | common/dlmalloc.c:1636-1713 | For every power of two below 2^32 the address is a multiple of it, with room for the request; leader and tail go back to the heap and the invariant is kept. NULL if and only if the size is negative or malloc would fail for the padded request |
| `UseList.MoveToFrontElems` | common/block.c:76-80 | Moving a chunk to the head of the list keeps the partition of the eight chunks |
| `UseList.UsedRecency` | common/block.c:76-80 | and keeps the list ordered by last access |
| `UseList.TakeLast` | common/block.c:112-128 | The last chunk of the list is the least recently used, and taking it loses no other |
| `UseList.TakeIdle` | common/block.c:124-128 | Taking an idle chunk keeps the partition |
| `UseList.NeverEmpty` | common/block.c:112-114 | With no idle chunk there is a buffered one to evict |
| `CacheState.WriteFailed` | common/block.c:116-120 | A failed write back, whatever it left on the device, changes nothing that can be read through the cache |
| `CacheState.WrittenBack` | common/block.c:46-54 | After a successful write back the chunk is clean, equals the device, and nothing visible has changed |
| `CacheState.Loaded` | common/block.c:147-168 | A chunk filled from the device covers an aligned range disjoint from all others, short at the end of the device, and shows the same contents |
| `CacheState.PutBlock` | common/block.c:255-273 | Overwriting one block of a chunk and marking it dirty changes exactly that block of the visible contents |
| `CacheState.AllClean` | common/block.c:45-55 | When no chunk is dirty the device equals the visible contents |
| `FlatBytes.ReadStep` | common/block.c:224-235 | The bytes of one more block continue a read of the flat contents |
| `FlatBytes.WriteStep` | common/block.c:306-315 | Merging bytes into one more block continues a write of the flat contents |
| `BlockCache.BlockDevice.constructor` | common/block.c:364-388 | Eight idle chunks; the visible contents are those of the device |
| `BlockCache.BlockDevice.ChunkGetCached` | common/block.c:67-85 | The chunk that covers the block, now the most recently used, or none covers it |
| `BlockCache.BlockDevice.GetChunk` | common/block.c:107-131 | An idle chunk, else the least recently used one, clean; on failure of its write the lists and the visible contents are as before |
| `BlockCache.BlockDevice.CacheBlock` | common/block.c:138-169 | The block is cached, short last chunk or not, unless the device fails; then no chunk is lost and the contents are as before |
| `BlockCache.BlockDevice.BlockGet` | common/block.c:175-196 | The chunk that holds the block, unless the device fails or there is no such block; the lookup after block_cache finds it, so BUG() is not reached |
| `BlockCache.BlockDevice.BlockPut` | common/block.c:255-273 | Exactly that block of the visible contents changes, unless the device fails or there is no such block |
| `BlockCache.BlockDevice.Read` | common/block.c:198-247 | For every offset and length: if the device does not fail, the read succeeds if and only if it stays within the device, and returns exactly those bytes of the visible contents; -ENXIO otherwise; failures change nothing visible |
| `BlockCache.BlockDevice.Write` | common/block.c:275-330 | If the device does not fail, the write succeeds if and only if it stays within the device; the visible contents change by exactly the bytes written: all of them on success, a prefix on failure, and up to the end of the device if that was passed |
| `BlockCache.BlockDevice.Flush` | common/block.c:37-61 | It succeeds unless the device fails; then no chunk is dirty and the device equals the visible contents; after failure the visible contents are as before |
| `Octets.Le32RoundTrip` | include/envfs.h:70-74 | Little-endian words are read back as written |
| `Octets.LowestFirst` | include/envfs.h:70-74 | and the lowest byte comes first |
| `Octets.PadMultiple` | include/envfs.h:97 | Padding leads to a multiple of four |
| `EnvFormat.ParseEncoded` | common/envfs-core.c:87-163 | The decoder reads back every inode the encoder writes, whatever follows it, and stops exactly behind it |
| `EnvFormat.EncodedLayout` | include/envfs.h:19-33 | The bytes of an entry, field by field |
| `EnvFormat.LinkMode` | common/envfs-core.c:131 | A link is told by its mode |
| `EnvFormat.ParseLegacy` | common/envfs-core.c:98-102 | Entries of images before version 1 have no trailer and are read as files |
| `EnvFormat.WrongEndMagic` | common/envfs-core.c:114-118 | An entry whose trailer lacks its magic is not read |
| `EnvTree.BasenameIs` | common/environment.c:186-193 | The basename is what follows the last slash |
| `EnvTree.AboveIs` | common/envfs-core.c:120-122 | A directory is what stands before a slash of the path |
| `EnvTree.StoredLink` | common/environment.c:108-124 | What is read back of a stored link: its target cut to the size reported and one, provided that its end can be told |
| `EnvTree.FilePass` | common/environment.c:96-145 | Of the current tree exactly the paths that do not read the same in the default tree get an entry, each once, in the opposite order; of a link one byte more is stored than the size lstat reports for it |
| `EnvTree.RemovePass` | common/environment.c:173-209 | Of the default tree exactly the paths that do not exist in the current one get a whiteout, directories counting as existing, empty ones too, placed before all other entries |
| `EnvTree.CollectEntries` | common/environment.c:252-258 | Both passes together list the differences and nothing else |
| `EnvTree.DeltaOfFile` | common/environment.c:103-104 | For a path that is a file or nothing in either tree: it is saved if and only if its bytes are not those of the default tree, and has a whiteout if and only if it is gone |
| `EnvTree.DeltaOfLink` | common/environment.c:64-76 | For links it is what they lead to that counts |
| `EnvTree.ApplyWhiteout` | common/envfs-core.c:131-134 | A whiteout removes its path and touches nothing else |
| `EnvTree.ApplyRight` | common/envfs-core.c:124-160 | What an entry does where no directory is in the way, in every case: it brings what was saved; or the link is taken for a whiteout, left out because of one that leads nowhere, or cut; or the file would be written through a link |
| `EnvTree.ReplayRight` | common/envfs-core.c:87-168 | Where no directory is in the way, replaying entries that cover all differences gives the saved tree exactly when each brings what was saved |
| `EnvTree.DirStays` | common/envfs-core.c:131-151 | Where a directory stands no load that goes through puts a file or link |
| `EnvTree.BelowStays` | common/envfs-core.c:119-151 | Nor does one put anything below a file or link that no entry names |
| `EnvTree.ReplayDelta` | common/envfs-core.c:87-168 | Replaying what was saved onto the default tree gives the saved tree exactly when no path of one tree is a directory of the other, though it be empty, no link is disguised by what it leads to, and each entry brings what was saved; for a link that means that it is stored whole, is not taken for a whiteout and does not meet one that leads nowhere |
| `EnvTree.DisguisedLink` | common/environment.c:64-76 | A family of trees where it fails: compare_file follows links, so a link to the default's bytes is not saved |
| `EnvTree.DirectoryBecomesFile` | common/envfs-core.c:147-151 | A family where it fails: a file in place of a default directory; the directory is still there when the file is opened |
| `EnvTree.FileBecomesDirectory` | common/environment.c:186-187 | The mirror family: a default file in place of a directory counts as existing and is not removed |
| `EnvTree.EmptyDirectoryInPlace` | common/environment.c:186-187 | The same with an empty directory: nothing is saved and the default file is back |
| `EnvTree.ReplayBrings` | common/envfs-core.c:131-162 | Whatever stands at a path after the load of any image was there before or was put there by an entry of that name |
| `EnvTree.CutFails` | common/environment.c:108-124 | A link that has changed and is not stored whole does not come back |
| `EnvTree.LinksLostOnRamfs` | fs/ramfs.c:158-171 | On ramfs, where the reported size is zero, that is every changed link of two characters or more |
| `EnvTree.LinkCut` | common/environment.c:108-124 | A tree of one such link comes back with the first character of the target, or empty if that is the name of the link |
| `EnvTree.PlainFiles` | common/environment.c:96-209 | In trees of plain files nothing is disguised and every entry brings what was saved |
| `EnvTree.PlainRoundTrip` | common/environment.c:96-209 | so they come back if and only if no path of one tree is a directory of the other, though it be empty |
| `EnvTree.ReplayOver` | defaultenv/defaultenv.c:148-164 | Laying a built-in tree over any tree gives their union, the built-in one winning, if and only if no path of one is a directory of the other and each entry brings what it should |
| `EnvTree.ReplayKeeping` | common/envfs-core.c:124-162 | With ENV_FLAG_NO_OVERWRITE, for any image: exactly when the load ends well, and then what is at each path: what was there stays, but for a link that leads nowhere and has a whiteout; what was missing comes unless something is in its way |
| `EnvTree.FilesStay` | common/envfs-core.c:124-128 | With that flag no load that goes through changes a file that is there, whatever the image |
| `EnvImage.SizePass` | common/environment.c:261-266 | The first pass computes exactly the number of bytes the entries take |
| `EnvImage.SaveInode` | common/environment.c:147-170 | An inode is written at the cursor as the format says, the cursor is advanced by its size, and all other bytes are untouched |
| `EnvImage.SaveInodes` | common/environment.c:279-292 | The second pass fills the buffer exactly to its end |
| `EnvImage.Save` | common/environment.c:252-296 | The buffer is the whole image: superblock with both checksums, then the entries |
| `EnvImage.SuperFields` | include/envfs.h:38-50 | The superblock, field by field |
| `EnvImage.Directory.constructor` | common/envfs-core.c:74-75 | The directory an image is loaded into |
| `EnvImage.Directory.LoadData` | common/envfs-core.c:74-176 | The loop over the image is a replay of the inodes parsed from it, with every error outcome |
| `EnvImage.Directory.LoadFromBuf` | common/envfs-core.c:178-197 | In the bytes of the image: a wrong magic or checksum, of the superblock or of the data, gives -EIO and leaves all files alone; otherwise the data is replayed |
| `EnvImage.Directory.DefaultenvLoad` | defaultenv/defaultenv.c:148-164 | The built-in images one after the other up to the first that fails |
| `EnvImage.Directory.Load` | common/environment.c:370-455 | All error cases in order, in the bytes of the image: too short, wrong magic or superblock checksum, the flag for the built-in environment, data cut short, wrong data checksum; in all of them but the flag the files are left alone, and else the data is replayed |
| `EnvImage.ReplayEncoded` | common/envfs-core.c:87-168 | Decoding encoded entries replays exactly them and consumes exactly their bytes |
| `EnvImage.DamagedEntry` | common/envfs-core.c:95-99 | An entry without its magic ends the load with -EIO; those before it are in place |
| `EnvImage.LoadSaved` | common/environment.c:370-455 | Loading an intact image comes down to replaying its entries |
| `EnvImage.SaveLoad` | common/environment.c:228-455 | Saving and loading onto the default tree gives the saved files and links back, if and only if the condition of ReplayDelta holds; no empty directory is left |
| `EnvImage.AllLaid` | defaultenv/defaultenv.c:148-164 | The list of built-in images: each lays its tree over what is there, exactly under the condition of ReplayOver for each in turn |
| `EnvImage.SaveLoadBuiltIn` | common/environment.c:406-413 | An image saved with the force-built-in flag, whatever its entries, lays the built-in trees over any tree: each does so in turn if and only if its paths do not clash with directories and each of its entries brings what it should, and then the result is the union, the later winning |
| `ClockScale.LimitingShift` | common/clock.c:103-111 | The bits left for the factor: the range fits the rest of 64 bits, and no more than needed is set aside |
| `ClockScale.CalcMultShift` | common/clock.c:98-126 | The largest shift from 1 to 32 whose rounded factor fits; when none does, shift 0 with the factor of shift 1 |
| `ClockScale.NoOverflow` | common/clock.c:88-95 | No cycle count of up to maxsec seconds overflows 64 bits when multiplied with a factor that fits |
| `ClockScale.Rounded` | common/clock.c:118-120 | The factor is right to within half a unit in either direction |
| `ClockScale.FitsExactly` | common/clock.c:121-122 | What the test means: a factor is accepted if and only if its product with the power of two that bounds the range fits 64 bits |
| `ClockScale.LargestExactly` | common/clock.c:117-123 | The shift found is the largest without overflow over the range if and only if every factor the test rejects does overflow, which comes down to the factor of the next shift |
| `ClockScale.ShiftCouldBeLarger` | common/clock.c:103-123 | It is not always: a concrete frequency where the next shift would do |
| `ClockTime.TimeKeeper.GetTimeNs` | common/clock.c:52-71 | The state after a call, in 64-bit arithmetic, is one tick of the clock |
| `ClockTime.TrueCycles` | common/clock.c:58-62 | If the counter has not gone round, the masked difference is the true number of cycles, wherever it wraps |
| `ClockTime.KeepsTime` | common/clock.c:52-71 | Over any number of calls all cycles are accounted for, time does not fall, and it is behind the exact value by less than a nanosecond for each call |
| `ClockTime.TimeKeeper.IsTimeout` | common/clock.c:155-161 | The sign of the 64-bit difference decides |
| `ClockTime.TimeoutExact` | common/clock.c:155-161 | and is right however often the time has wrapped, as long as the end is less than half the range away |
| `Calendar.YearStartIs` | common/date.c:39-41 | Years counted one by one and by the leap formula are the same |
| `Calendar.SameDay` | common/date.c:121-137 | No two dates of the calendar fall on the same day |
| `Date.GaussIsCalendar` | common/date.c:121-137 | The shifted-month formula is the number of days counted month by month and year by year |
| `Date.MkTimeIs` | common/date.c:121-137 | mktime is the number of seconds of the Gregorian calendar, modulo the width of long |
| `Date.RtcTime.GregorianDay` | common/date.c:31-65 | The day of the week is the day number plus four modulo seven |
| `Date.Dates.ToTm` | common/date.c:67-103 | The fields are a date and time of the every-fourth-year calendar that comes to the given seconds, with its weekday; the month table is as it was |
| `Date.FourthUntil2100` | common/date.c:20-21 | Until 2100 that calendar is the Gregorian one |
| `Date.ThereAndBack` | common/date.c:67-137 | mktime undoes to_tm for all times before 2100 |
| `Date.BackAndThere` | common/date.c:67-137 | to_tm undoes mktime for all valid dates before 2100 |
| `ThreadSafety.StepInv` | common/bthread.c:83-208 | Every step keeps the invariant of the ring, the flags and what has been freed |
| `ThreadSafety.Reachable` | common/bthread.c:37-208 | In every reachable state the ring holds the main and the current thread, the current one has not stopped, and no thread was freed twice or before it stopped |
| `ThreadSafety.ScanInv` | common/bthread.c:180-191 | The scan with its deletions keeps the invariant |
| `ThreadSafety.FinishInv` | common/bthread.c:58-63 | A thread that ends hands over to the main thread |
| `ThreadFairness.ScanRuns` | common/bthread.c:180-185 | A reschedule runs the first thread after the current one that is awake, or goes on with the current one |
| `ThreadFairness.StepNearer` | common/bthread.c:109-191 | No step but a finish or a direct switch puts a thread ahead of one that waits awake, and every yield takes one away |
| `ThreadFairness.BoundedWaiting` | common/bthread.c:109-191 | A thread that stays awake runs within as many reschedules as there are threads ahead of it, creation included |
| `ThreadFairness.WaitBoundFinishing` | common/bthread.c:58-63 | Also when threads finish, if none is created: within a full ring for each thread that can finish |
| `ThreadFairness.Isolated` | commands/bthread.c:52-56 | Direct switches between the main thread and the last in the ring can go on for ever while no other thread runs |
| `ThreadFairness.JoinedStays` | common/bthread.c:142-153 | A thread that is waited for is freed by nobody else, so the flag the wait looks at stays valid |
| `ThreadFlags.StepFlags` | common/bthread.c:51-153 | What every call does to each flag of each thread |
| `ThreadFlags.StepTakes` | common/bthread.c:142-191 | A call frees a thread if and only if it ends a wait for it, or is a yield that finds it stopped and to be cleaned up before any that is awake |
| `ThreadFlags.ScanFrees` | common/bthread.c:180-191 | The same for the scan from any place |
| `ThreadFlags.StepCreates` | common/bthread.c:83-112 | A new thread comes last, asleep and yet to begin |
| `ThreadFlags.RequestStays` | common/bthread.c:136-152 | Over any run, a thread asked to stop stays so, and one cancelled is to be cleaned up, until it is freed |
| `ThreadFlags.WokenRuns` | common/bthread.c:126-191 | A thread that is woken and then not suspended runs within as many reschedules as there are threads ahead of it |
| `Scheduler.Bthreads.constructor` | common/bthread.c:37-43 | The ring of the main thread alone |
| `Scheduler.Bthreads.Create` | common/bthread.c:83-119 | The new thread is in the ring just before the current one; when its stack or its name cannot be allocated nothing happens |
| `Scheduler.Bthreads.Wake` | common/bthread.c:126-129 | One flag changes and the invariant is kept |
| `Scheduler.Bthreads.Suspend` | common/bthread.c:131-134 | One flag changes and the invariant is kept |
| `Scheduler.Bthreads.Cancel` | common/bthread.c:136-140 | Both flags change and the invariant is kept |
| `Scheduler.Bthreads.Stop` | common/bthread.c:142-146 | The request to stop |
| `Scheduler.Bthreads.Join` | common/bthread.c:148-152 | One turn of the wait: a yield, or the thread is out of the ring and freed once |
| `Scheduler.Bthreads.Reschedule` | common/bthread.c:173-192 | The scan of the ring in place is the scan of the state machine |
| `Scheduler.Bthreads.Schedule` | common/bthread.c:194-208 | The ring stays and is seen from the new current thread |
| `Scheduler.Bthreads.Begin` | common/bthread.c:51-54 | A new thread yields before it runs its function |
| `Scheduler.Bthreads.Finish` | common/bthread.c:58-63 | The thread is stopped and asleep, and the main thread is current |
| `BootTargets.AddSort` | include/linux/list.h:764-777 | Insertion keeps the targets by descending priority and, among equals, in the order they are listed |
| `BootTargets.LoadTargets` | common/bootchooser.c:388-405 | Every listed target is in the list once, in that order |
| `BootTargets.SavedLast` | common/bootchooser.c:503-514 | For each name what the last target of that name holds is saved |
| `BootTargets.SavedElse` | common/bootchooser.c:503-514 | and everything else stays |
| `BootBudget.AttemptsSpent` | common/bootchooser.c:622-652 | Over any sequence of boots, a target's boots and its remaining attempts add up to what it had |
| `BootBudget.PrioritiesFall` | common/bootchooser.c:622-652 | The priorities of the targets booted never rise |
| `BootBudget.FirstIsBest` | common/bootchooser.c:626-629 | The first target of the list that can be booted has the highest priority of all that can |
| `BootBudget.SaveBudget` | common/bootchooser.c:494-531 | What the variables offer after a save is what the targets in memory offer |
| `BootBudget.StillNamedOnce` | common/bootchooser.c:494-531 | If no name that can be booted is listed twice, that stays so over any boots |
| `BootBudget.DisableOffers` | common/bootchooser.c:464-473 | Disabling spent targets changes nothing that can be booted |
| `Bootchooser.Chooser.Get` | common/bootchooser.c:347-486 | The ordered targets, each as the variables say, then as PolicyApplied says; the last chosen target, and the error for an empty list; the variables are not written |
| `Bootchooser.ListedAsStored` | common/bootchooser.c:235-258 | Priority and attempts are what the variables hold, or the defaults if they hold none; a disabled target has no attempts |
| `Bootchooser.ListedInOrder` | include/linux/list.h:764-777 | The targets by descending priority and, among equals, as listed |
| `Bootchooser.PolicyApplied` | common/bootchooser.c:414-473 | Target by target: priorities are the defaults again if all were disabled; attempts are the defaults again for enabled targets at power-on or when none are left, and for the last chosen one after a successful boot; spent targets are disabled; nothing else changes |
| `Bootchooser.Chooser.FindLast` | common/bootchooser.c:454-462 | The last chosen target if it still exists; it alone gets its default attempts back after a successful boot |
| `Bootchooser.Chooser.Save` | common/bootchooser.c:494-531 | The variables of all targets and the last chosen one are written |
| `Bootchooser.Chooser.GetTarget` | common/bootchooser.c:622-652 | The first target that can be booted gives up one attempt, saved before it is booted; otherwise nothing changes |
| `Bootchooser.Chooser.BootOne` | common/bootchooser.c:792-840 | Outcome and retry flag for each way a boot can go, with whatever error the boot entry returns |
| `Bootchooser.Chooser.Boot` | common/bootchooser.c:842-854 | The retry loop ends; each try costs one attempt of a best target; with retries on it ends by a boot, or with -ENOENT and nothing left to boot; without, it returns what the one try returned |
| `Bootchooser.Chooser.EntryBoot` | common/bootchooser.c:856-873 | For every configuration: what comes of a power cycle, from the targets as the variables and policies give them, and that what is left is saved. Without resets or a success mark, and if no name that can be booted is listed twice, it only spends what the variables held, and keeps it so; with retries on it fails only when all of it is spent |
| `Bootchooser.AcrossReboots` | common/bootchooser.c:347-854 | Over any number of reboots: each target is booted at most as often as it had attempts, exactly that often once nothing is left, and priorities never rise |
| `Bootchooser.AttemptKept` | common/bootchooser.c:503-514 | For any targets in memory, retries included: a boot lowers what is saved for its name, by one, if and only if no target of that name follows the one booted |
| `Bootchooser.AttemptSaved` | common/bootchooser.c:503-514 | so, for every list of names and every store, the first boot after the targets are read costs an attempt if and only if the name of the target is listed once; otherwise the old number is saved |
| `KermitCode.UnescapeJoin` | commands/loadb.c:211-239 | The translation of a stream does not depend on where it is cut |
| `KermitCode.KtransIs` | commands/loadb.c:76-84 | What each character stands for after the prefix |
| `KermitCode.EncodedByte` | commands/loadb.c:76-84 | How the sender prefixes, as the protocol manual has it |
| `KermitCode.StreamComesThrough` | commands/loadb.c:76-84 | It inverts control prefixing for every usable prefix |
| `KermitCode.PrefixLost` | commands/loadb.c:76-84 | For every other prefix it does not |
| `KermitCode.ManualPrefix` | commands/loadb.c:76-84 | For the prefixes the manual allows, both hold: the stream comes through and nothing in it is rejected |
| `KermitCode.EncodedPrintable` | commands/loadb.c:486-488 | Encoded data never holds a character the receiver rejects |
| `KermitReceiver.Kermit.constructor` | commands/loadb.c:355-370 | The state before the first packet |
| `KermitReceiver.Kermit.DataSave` | commands/loadb.c:159-192 | What was held goes to the file through the write buffer, whole and in order; the new data is held |
| `KermitReceiver.Kermit.Receive` | commands/loadb.c:380-533 | The state after a packet that arrives whole or damaged, its sequence number possibly damaged too, and whether it is acknowledged; a send packet sets the prefix to its sixth byte, or the number sign |
| `KermitReceiver.Damaged` | commands/loadb.c:428-440 | A damaged copy passes nothing on, and drops what is held if its number was read as that of the packet before |
| `KermitRun.FileGets` | commands/loadb.c:344-535 | Over a whole transfer with repeats and damage: the file gets the data of every packet once and in order, except those followed by a packet whose first copy was damaged |
| `KermitRun.TransferRight` | commands/loadb.c:428-440 | So the file is right if and only if no packet with data was followed by such a one |
| `KermitRun.RepeatsHarmless` | commands/loadb.c:428-440 | Repeats of intact packets lose and duplicate nothing |
| `KermitRun.FileArrives` | commands/loadb.c:344-535 | A file encoded with the prefix the sender names, cut into packets anywhere, and repeated at will arrives as it was |
| `KermitRun.DamagedTransfer` | commands/loadb.c:428-434 | A transfer where it goes wrong: the first copy of the second packet is damaged and the first one's data is lost |
| `KermitRun.EarlyIgnored` | commands/loadb.c:513-518 | Over a whole transfer, damage before the sequence number is as if nothing had been sent, where no packet before it left a prefix pending or used one up |
| `KermitRun.TransferRightEarly` | commands/loadb.c:428-440 | so the condition for a right file is the same with it |
| `KermitRun.EarlyDamage` | commands/loadb.c:513-518 | Damage before the sequence number changes nothing if and only if the packet before left the prefix state as it was |
| `SlideRow.FindTarget` | commands/2048.c:73-96 | The tile comes to rest on an equal one, else on the gap above the next, else on the gap at the stop |
| `SlideRow.Score.SlideArray` | commands/2048.c:98-120 | In place, for a row of any length: gaps dropped, leftmost equal pairs merged once, the rest gaps; the score grows by the merged values; the result is whether anything changed |
| `SlideLaws.SumSlid` | commands/2048.c:104-117 | The tiles add up to what they did, less 65536 for each merger that overflows 16 bits |
| `SlideLaws.SumKept` | commands/2048.c:104-117 | so the sum is kept if and only if no merger overflows |
| `SlideLaws.SumLost` | commands/2048.c:104-117 | Two tiles of 32768 become nothing |
| `SlideLaws.OnePair` | commands/2048.c:247-251 | The rows the command tests itself with, for any tiles: equal tiles meet across gaps |
| `SlideLaws.ThreeAlike` | commands/2048.c:252-256 | the pair nearest the start merges, and a merger does not merge again |
| `SlideLaws.TwoPairs` | commands/2048.c:257-260 | and two pairs both merge |
| `SlideLaws.GainIsWorth` | commands/2048.c:104-117 | A slide earns exactly what its tiles gain in worth, a tile being worth all mergers that made it |
| `SlideLaws.FixedIffStuck` | commands/2048.c:98-120 | A row stays as it is if and only if no gap is below a tile and no two neighbours are equal |
| `Rotation.FullTurn` | commands/2048.c:122-135 | Four quarter turns lead back |
| `GameBoard.Board.RotateBoard` | commands/2048.c:122-135 | The cycles of four turn a square board of any size by a quarter |
| `GameBoard.Board.MoveUp` | commands/2048.c:137-145 | Every row is slid |
| `Moves.LeftByTurning` | commands/2048.c:147-156 | The turns around moveUp slide every column to its start |
| `Moves.DownByTurning` | commands/2048.c:158-167 | every row to its end |
| `Moves.RightByTurning` | commands/2048.c:169-178 | every column to its end |
| `GameBoard.Board.MoveLeft` | commands/2048.c:147-156 | Columns slid to their start, the score, and whether anything changed |
| `GameBoard.Board.MoveDown` | commands/2048.c:158-167 | Rows slid to their end, the score, and whether anything changed |
| `GameBoard.Board.MoveRight` | commands/2048.c:169-178 | Columns slid to their end, the score, and whether anything changed |
| `GameScore.UpEarns` | commands/2048.c:137-145 | A move up earns what the board gains in worth |
| `GameScore.TurnedTotal` | commands/2048.c:122-135 | which turning does not change |
| `GameScore.MovesEarn` | commands/2048.c:147-178 | so this holds in every direction |
| `GameBoard.Board.FindPairDown` | commands/2048.c:180-190 | Whether two neighbours in a row are equal |
| `GameBoard.Board.CountEmpty` | commands/2048.c:192-204 | The number of gaps |
| `Moves.EndedIff` | commands/2048.c:206-217 | Full and without pairs both ways, if and only if there is a tile and none of the four moves changes the board |
| `GameBoard.Board.GameEnded` | commands/2048.c:206-217 | True if and only if there is a tile and no move changes the board, which is left as it was |

## Left out

- Allocator: the fenceposts after a foreign `sbrk`, `calloc`, the statistics, and sizes near
  the end of the integer range where `request2size` wraps.
- Allocator: the links `fd` and `bk` inside free chunks are sequences, so that they overlay
  user memory of free chunks is not modelled.
- Malloc.Heap.Sbrk: negative increments, which malloc does not ask for.
- Malloc.Heap.Memalign: alignments that are not a power of two, which the source leaves to
  the caller, and alignments from 2^32 on, where the cast to int can make the source write
  outside the chunk; `LeadBeyondCast` says when.
- Block cache: discard ranges, whose code compares a byte offset with a number of blocks;
  registering and unregistering; `block_read` and `block_write`, which only convert units.
- Block cache: the width of `loff_t` and `size_t`.
- EnvTree.ApplyRight: writing a file over a link ends the model's run with its own outcome;
  what the link leads to is not changed in the model. So does a link whose target does not end
  with its entry, where the source reads on into the next.
- EnvTree.FilePass: the table of open files. `compare_file` leaves two descriptors open for
  each file whose size differs (`lib/libfile.c`, line 520); once the table is full, files that
  cannot be opened are left out of the image without an error.
- EnvImage.SaveLoad: empty directories are not saved, and the load removes those it finds;
  what comes back is files and links.
- EnvImage.SaveLoadBuiltIn: with several built-in images the condition is exact for each being
  laid in turn, not for a later one making up for an earlier one; compressed images.
- Environment: paths behind links to directories, flash protection and erasure, the checksum
  function, reading in several parts, names beyond the image when no terminating zero is
  found, and images of 2 GB and more.
- ClockScale.CalcMultShift: a frequency of zero, by which the source divides.
- Clock: delay loops, choosing a clock source, and time that runs past 2^64 nanoseconds in
  `KeepsTime`.
- Date.MkTimeIs: years from 11 million on, where 32-bit products wrap, and months outside 1
  to 12.
- Date.Dates.ToTm: negative times, for which only the month table is promised; `time_str`.
- Threads: stacks, `setjmp` and `longjmp`, the names, and reuse of a freed thread's address.
  Waking or switching to a stopped thread, and cancelling a thread that is being waited for,
  are taken as the caller's mistake.
- Scheduler.Bthreads.Create: a failing `calloc`, after which the source passes a null pointer
  to `bthread_free`.
- ThreadFairness.BoundedWaiting: runs in which threads finish and others are created have no
  bound here.
- Bootchooser: the order after priorities are reset, when the list is not sorted again;
  state devices; failing saves; priorities and attempts whose sum or decimal form overflows
  32 bits; parsing the list of names.
- BootBudget.AttemptsSpent: resets and success marks, which give attempts back.
- KermitReceiver.Kermit.Receive: a packet is given with its number, kind and data; reading
  characters, lengths and checksums, answering, and failing writes are not modelled.
- KermitRun.FileGets: copies whose sequence number is read wrong, which the source assumes
  does not happen (`commands/loadb.c`, line 422), and damage before the number is known next to
  a packet that splits a prefixed character, which `EarlyDamage` covers one packet at a time.
- 2048: random tiles, drawing and the keyboard.
- Other commands, drivers, filesystems and the console, whose behaviour depends on code and
  hardware that is not part of this model.
