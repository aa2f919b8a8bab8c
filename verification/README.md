# MINIX file server and checker: a verified model

This project models the parts of a MINIX V2 file server and file system checker that change
shared structures in place, and proves what those parts are for. It has two halves.

The file server. `Bitmap.dfy` is the inode and zone allocator: a wraparound search over packed words
with hints. `ZoneTree.dfy` and `ZoneMap.dfy` are the zone map: an inode as a tree of direct, single
and double indirect zones, read by `ReadMap` and grown by `WriteMap` and `NewBlock`, with
`Truncate.dfy` giving it back; `ZoneNeeds.dfy` counts the zones it lacks, and `FileBlocks.dfy` the
blocks of those it has. On these rest file contents (`FileData.dfy`, `Lifetime.dfy`) and directories
(`Names.dfy`, `DirMap.dfy`, `Directory.dfy`). `Server.dfy` is the protocol in which reads run beside
one another and writes run alone; `FileServer.dfy` and `DirServer.dfy` are its two uses.
`BufferCache.dfy` is the block cache with its hash chains and its intrusive list, and
`InodeTable.dfy` the table of reference-counted inodes.

The checker. `FsckImage.dfy` is an arbitrary disk image, `FsckState.dfy` the checker's global
variables and what a part of the walk may do to them, `Fsck.dfy` the mutually recursive walk, and
`FsckUtils.dfy` its packed bitmaps and inode addresses, `FsckCover.dfy` what a check without errors
has accepted of a file, `FsckOffsets.dfy` the same in bytes, and `FsckSound.dfy` what the walk does
on a sound image.

The main results:

- A file is a plain sequence of bytes: a write splices in exactly the bytes it reports, which are as
  many as there are free zones for, and a read returns exactly the slice asked for. Other files are
  not affected, and removing a file returns exactly its zones.
- Zone trees stay well formed and zones are neither leaked nor shared, whatever fails; a block can be
  had exactly if as many zones are free as the tree lacks for it.
- The allocator hands out a free number whenever there is one, and the least inode number, for maps
  that fit the bitmap's own arithmetic; what is allocated can be given back, in every state of a
  map, exactly if it does.
- A directory is a finite map, over slots packed in blocks that are extended one at a time.
- Under every interleaving the servers answer as if requests ran one at a time, and once nothing
  more is submitted they answer everything.
- The hash index of the block cache is right over all runs. From a new cache, its list stays right
  exactly as long as every put is matched by a get that took the buffer; then eviction follows the
  order of return.
- The answers of the inode table are a function of its requests: it counts its clients, and an
  inode is found as it was left.
- The checker's walk ends on every image, marks only reachable inodes and, through directories it
  does not report, all of them, opens no zone twice, and reports exactly the wrong link counts,
  where stored counts above 32767 pass for 32767. It reports only inodes with something wrong, and
  on a sound image no inode.

Naming: a Go function keeps its name in Dafny's spelling (`search_dir` is `SearchDir`). Values that
the source keeps in arrays inside a record or a cached block are sequences that methods reassign.
Long functions are divided into methods along their branches or loops, as the third column of the
table says. `old` and ghost parameters carry the state before an operation. Divisions are written
`Quot` and `Rem`; they are of naturals, where all roundings agree.

## Model

| member | source | states |
|---|---|---|
| `Words16.FirstZero` | src/minixfs/bitmap/bitmap.go:216-219 | The bit the inner loop stops at: the lowest clear bit of a word that is not all ones. |
| `Bitmaps.Layout.LocateNumber` | src/minixfs/bitmap/bitmap.go:221-222 | The number the search computes for a bit leads `free_bit` back to that bit, for every block, word and bit, when the numbering fits. |
| `Bitmaps.Layout.AllocFreeUndoneIff` | src/minixfs/bitmap/bitmap.go:174-285 | For maps whose blocks hold all their bits: in every state of the maps and from every origin, freeing the number just allocated finds its bit set, within the map, and restores the maps, exactly if the whole map is numbered within one step, or the step is what a block really holds. |
| `Bitmaps.Layout.FoundUndone` | src/minixfs/bitmap/bitmap.go:174-285 | In a map that fits, the number the search answers leads back to the place it found. |
| `Bitmaps.Layout.Misnumbered` | src/minixfs/bitmap/bitmap.go:189-269 | In every map that does not fit, there is a state in which the search answers a number whose bit, to `free_bit`, is the first of the next block: past the end of the map, or another bit, clear or taken. |
| `Bitmaps.Layout.HandedOutTwice` | src/minixfs/bitmap/bitmap.go:189-251 | With several blocks, there is a state in which the number answered is one already handed out for another bit, and in use. |
| `Bitmaps.NewBitmapSoundIff` | src/minixfs/bitmap/bitmap.go:27-42 | For the step that `NewBitmap` computes, half of the true bits of a block, and maps of as many blocks as `bitmapsize` says or more: what is allocated can be given back, in every state, exactly if the map has at most (Blocksize/2)*8 bits. |
| `Bitmaps.BitmapBlocksHold` | src/minixfs/bitmap/util.go:7-18 | The blocks that `bitmapsize` computes hold all bits of the map. |
| `Bitmaps.LargeInodeMapMisnumbered` | src/minixfs/bitmap/bitmap.go:27-42 | A concrete device with maps sized by `bitmapsize`, 5000 inodes and blocks of 1024 bytes: once the first 4096 numbers are taken, the search answers 4096, and what `free_bit` clears for it is bit 0 of the zone map. |
| `Bitmaps.SwitchOne` | src/minixfs/bitmap/bitmap.go:229-231 | Storing one word changes exactly one number of one map; the other map is untouched even where both share the block list. |
| `Bitmaps.Bitmap.FindInBlock` | src/minixfs/bitmap/bitmap.go:206-236 | On any map blocks, the scan of one block stops where the recursive scan `ScanRow` does. |
| `Bitmaps.Layout.ScanRowMeans` | src/minixfs/bitmap/bitmap.go:206-236 | In a map that fits: every number up to the one found is taken; a word whose first clear bit is past the end of the map ends the scan. |
| `Bitmaps.Layout.FirstFree` | src/minixfs/bitmap/bitmap.go:189-250 | What the search has left behind when it stops makes its bit the first clear one on the way up and around. |
| `Bitmaps.Layout.LeastFrom` | src/minixfs/bitmap/bitmap.go:107-117 | If all numbers below the origin are taken, the first free one on the way is the least. |
| `Bitmaps.Bitmap.FindFree` | src/minixfs/bitmap/bitmap.go:189-250 | On any map blocks, the loop finds what the recursive search `Find` does, once around and back into its first block. |
| `Bitmaps.Layout.FindMeans` | src/minixfs/bitmap/bitmap.go:189-250 | In a map that fits: from any origin, the first clear bit from the first bit of the origin's word up and around, or nothing exactly if all are set. |
| `Bitmaps.Bitmap.AllocBit` | src/minixfs/bitmap/bitmap.go:174-251 | On any map blocks, sets the bit that `Find` finds and answers its number; in maps that fit, sets exactly one number, the first clear one from the origin's word up and around, or answers `NO_BIT` with nothing changed exactly if every bit is set. |
| `Bitmaps.Bitmap.FreeBit` | src/minixfs/bitmap/bitmap.go:254-285 | Clears the bit that a number leads to; in maps that fit, that is exactly the number returned, and the other map is unchanged. |
| `Bitmaps.Bitmap.AllocInode` | src/minixfs/bitmap/bitmap.go:107-117 | Returns the least free inode number, or ENFILE exactly if none is free; the hint becomes the number allocated, and no free inode lies below it. |
| `Bitmaps.Bitmap.FreeInode` | src/minixfs/bitmap/bitmap.go:120-128 | Frees exactly that inode, ignores numbers out of range, lowers the hint to it. |
| `Bitmaps.Bitmap.AllocAgain` | src/minixfs/bitmap/bitmap.go:107-128 | Freeing the inode allocated last makes it the next one allocated. |
| `Bitmaps.Bitmap.AllocZone` | src/minixfs/bitmap/bitmap.go:133-156 | Returns a zone in [Firstdatazone, Zones) that was free, the first one up and around from where the search starts (`FirstAround`), marks it and nothing else, or ENOSPC exactly if none is free; the hint becomes the zone's bit if that is lower, or if there was no hint. |
| `Bitmaps.FirstAroundMeans` | src/minixfs/bitmap/bitmap.go:133-187 | No free zone lies from the zone asked for up and around to the one answered, and only a zone in the same 16-bit word may precede it; without a zone asked for, that holds of the hint; for a number past the last zone, the lowest free zone is answered. |
| `Bitmaps.HintIsLeast` | src/minixfs/bitmap/bitmap.go:150-170 | Over any run of allocations and frees from a new bitmap on, the hint is the least bit allocated or freed. |
| `Bitmaps.MarkedMeans` | src/minixfs/bitmap/bitmap.go:174-223 | Number b of the inode map is bit b of the blocks from block 2 on, the lowest bit of a word first; the zone map comes right after it, and zone z is its bit z - (Firstdatazone - 1). |
| `Bitmaps.Bitmap.FreeZone` | src/minixfs/bitmap/bitmap.go:159-171 | Frees exactly that zone; zones out of range are ignored. |
| `Disk.BlockCache.ZeroBlock` | src/minixfs/utils/write.go:45-60 | The block becomes zeroes of the type and size asked for, and no other block changes. |
| `Disk.BlockCache.GetBlock` | src/minixfs/bcache/cache_lru.go:110-168 | As the data path sees it: a read of a known block changes nothing; without a read, a block that was not resident may hold anything of its type. |
| `ZoneTree.FileZoneInverse` | src/minixfs/common/read.go:9-67 | File zones and places in the inode tree (direct, single, double indirect) correspond one to one. |
| `ZoneTree.DataNodeValid` | src/minixfs/common/read.go:9-67 | A place exists exactly for zones below 7 + n + n*n. |
| `ZoneMap.RdIndir` | src/minixfs/common/read.go:71-82 | Reads one entry; the panic cannot happen where the entry is NO_ZONE or a data zone. |
| `Common.Pow2Sum` | src/minixfs/common/read.go:9-14 | What stands for 1 << scale is 2 to the power scale, by its laws. |
| `ZoneTree.BlockAtMeans` | src/minixfs/common/read.go:9-67 | The block of a position by numbers: b / 2^scale is the zone at the place of its zone k, and block k * 2^scale + b % 2^scale of the file, counted from its start, is the one that holds the position. |
| `ZoneTree.FileZoneMeans` | src/minixfs/common/read.go:20-66 | The kth zone of a file by numbers: entry k of the inode, then the entries of the block at Zone[7] << scale, then those of the blocks that the entries of the one at Zone[8] << scale name. |
| `ZoneMap.ReadMap` | src/minixfs/common/read.go:9-67 | Answers the block of a position as the tree, taken as a value, gives it: divided by 2^scale it is the zone of the position, and the blocks of the file follow one another without gaps; changes no block. At any scale. |
| `ZoneMap.WrIndir` | src/minixfs/utils/write.go:266-269 | Changes one entry of one indirect block. |
| `ZoneMap.U32Wraps` | src/minixfs/utils/write.go:266-269 | A number stored in a 32-bit field loses what is above its lower 32 bits. |
| `ZoneMap.CreateDouble` | src/minixfs/utils/write.go:194-221 | Hangs a zeroed double indirect block in the inode, or leaves all as it was; past the last zone it reports EFBIG only after the zone hangs in the inode, unzeroed. |
| `ZoneMap.CreateSingle` | src/minixfs/utils/write.go:226-257 | Hangs a zeroed single indirect block in the inode, or leaves all as it was. |
| `ZoneMap.CreateChild` | src/minixfs/utils/write.go:226-257 | Hangs a zeroed indirect block under the double indirect one, or leaves all as it was. |
| `ZoneMap.WriteEntry` | src/minixfs/utils/write.go:246-262 | Enters a zone in an indirect block: one place of the tree changes, and only blocks of the tree are written. |
| `ZoneMap.WriteMap` | src/minixfs/utils/write.go:157-263 | Keeps the tree well formed (zones in range, pairwise distinct, indirect blocks typed, all marked); changes the place of the position and empty interior places above it only; newly marked zones are exactly the newly attached ones, also on failure; past the last zone it may lose one zone to the inode. |
| `ZoneTree.MapRoundTrip` | src/minixfs/utils/write.go:157-263 | After a successful write of zone z, the position reads back from block b with b / 2^scale == z, at its own block within the zone, and every position of every other zone reads as before. |
| `ZoneTree.GrowValid` | src/minixfs/utils/write.go:157-263 | One place taking a fresh zone keeps the tree well formed. |
| `ZoneTree.AttachRoot` | src/minixfs/utils/write.go:194-257 | Hanging a zeroed indirect block changes exactly one place of the tree. |
| `ZoneTree.AttachChild` | src/minixfs/utils/write.go:226-257 | The same, one level down. |
| `ZoneTree.SetEntry` | src/minixfs/utils/write.go:258-259 | Writing one entry of an indirect block changes exactly one place of the tree. |
| `ZoneTree.StepsMapped` | src/minixfs/utils/write.go:157-263 | Creating interior blocks and then writing the entry, or failing in between, add up to the contract of WriteMap. |
| `ZoneTree.DataFrame` | src/minixfs/utils/write.go:64-117 | Writing blocks that hold no indirect block leaves the tree alone. |
| `ZoneNeeds.LackingMeans` | src/minixfs/utils/write.go:157-263 | What a zone of a file lacks, by numbers: one zone for itself if it is not there, and one for each indirect block on the way to it that is not there. |
| `ZoneNeeds.GrewIffRoom` | src/minixfs/utils/write.go:122-154 | A tree that grew at one place until it was there, or until the zones ran out, got there exactly if as many zones were free as were lacking. |
| `ZoneMap.NewZone` | src/minixfs/utils/write.go:127-149 | Allocates a zone for a position that has none, the first free one around from the first zone of the file; succeeds exactly if as many zones are free as are lacking, and otherwise gives back what it did not attach; past the last zone it answers EFBIG, and may lose one zone to the inode. |
| `ZoneMap.NewBlock` | src/minixfs/utils/write.go:122-154 | The position gets a zeroed block exactly if as many zones are free as it lacks (`Needs`), and ENOSPC otherwise; the tree stays well formed, marks and attachments agree, other blocks keep their contents. Past the last zone, in a tree without a double indirect zone (with one, the source panics): no block changes, EFBIG or ENOSPC, and a double indirect zone may hang in the inode. |
| `Truncation.ExactFreeIff` | src/minixfs/utils/write.go:272-323 | `Truncate` returns exactly the whole tree if and only if no data zone is mapped past the end of the file. |
| `Truncation.PastEofMeans` | src/minixfs/utils/write.go:291-297 | The zones past the end are the data zones whose first byte, k times the zone size for the kth, is at the end or past it. |
| `Truncation.FreeData` | src/minixfs/utils/write.go:291-297 | The loop over positions frees every data zone that starts before the end of the file once, holes included, and no other. |
| `Truncation.FreeChildren` | src/minixfs/utils/write.go:309-316 | Every indirect block under the double indirect one is freed once. |
| `Truncation.Truncate` | src/minixfs/utils/write.go:272-323 | The zone map loses exactly the zones at all places of the tree not past the end; no bit is cleared twice; device files are left alone. |
| `Truncation.FreeOne` | src/minixfs/utils/write.go:291-320 | No zone of a well-formed tree has been freed already when its turn comes. |
| `FileBlocks.PositionBlock` | src/minixfs/common/read.go:9-67 | What `ReadMap` answers for a position is the block of the file that the position lies in: a block of the zone at its place, at any scale. |
| `FileBlocks.BlocksDiffer` | src/minixfs/common/read.go:9-67 | Different blocks of a file, of one zone or of two, have different numbers. |
| `FileBlocks.OtherBlock` | src/minixfs/utils/write.go:64-117 | Growing the tree for one block and writing that block leave every other block of the file where it is and as it is. |
| `FileData.ReachesBlock` | src/minixfs/utils/write.go:122-154 | A block of a file without holes, or right at its end, that has no zone yet is the first of its zone; under the condition of `Write` it is at the end, so that `NewBlock` does not come to `ClearZone`. |
| `FileData.ReachesStays` | src/minixfs/finode/finode.go:269-296 | A chunk written leaves the condition for the rest of the write true. |
| `FileData.SpliceMeans` | src/minixfs/finode/finode.go:250-311 | In a spliced file the new bytes stand where they were put, and before and after them nothing has changed. |
| `FileData.BytesMeans` | src/minixfs/common/read.go:9-67 | Byte p of a file is byte p % Blocksize of the block that `ReadMap` finds for p. |
| `FileData.ChunkSplice` | src/minixfs/utils/write.go:64-117 | Patching one block is splicing the file, and extends it when the chunk reaches past the end. |
| `FileData.ChunkBlock` | src/minixfs/utils/write.go:68-99 | The block found, created or zeroed for a chunk holds all bytes of the file that the chunk does not cover, also when it is fetched without a read; there is none exactly if it lacks more zones than are free. |
| `FileData.CopyInto` | src/minixfs/utils/write.go:101-106 | The copy loop replaces exactly `chunk` bytes at the offset by those of the buffer. |
| `FileData.FillChunk` | src/minixfs/utils/write.go:101-106 | Copying the chunk into its block splices it into the file. |
| `FileData.WriteChunk` | src/minixfs/utils/write.go:64-117 | Splices the chunk into the file exactly if as many zones are free as its block lacks, and then takes these; or changes no byte and reports ENOSPC. |
| `FileData.SpliceSplice` | src/minixfs/finode/finode.go:271-296 | Consecutive splices are one splice of the concatenation. |
| `FileData.LackingToMeans` | src/minixfs/finode/finode.go:269-296 | What a stretch of positions lacks is what its positions lack, each place counted once. |
| `FileData.ZonesForOne` | src/minixfs/utils/write.go:157-263 | What one position lacks, by numbers: nothing if its block is there, and otherwise a zone and the indirect blocks on the way. |
| `FileData.WriteChunks` | src/minixfs/finode/finode.go:269-296 | The loop has spliced in exactly the bytes it counts; there are zones for these, and not for one byte more if it stopped early. |
| `FileData.Write` | src/minixfs/finode/finode.go:250-311 | For regular files and directories: the contents become the splice of exactly the first n bytes, n is the largest number of bytes whose positions lack no more zones than are free, the size grows to match, EFBIG changes nothing; places that have zones keep them, only blocks of this tree change and only its new zones are marked: it answers as a sequence of bytes would. Zones may be several blocks, if at most one new zone is needed, at the end. |
| `FileData.BlockSlice` | src/minixfs/finode/finode.go:179-244 | A stretch of a block is a stretch of the file. |
| `FileData.CopyOut` | src/minixfs/finode/finode.go:191-205 | The copy loop changes exactly its stretch of the buffer. |
| `FileData.ReadChunk` | src/minixfs/finode/finode.go:179-244 | Appends the next bytes of the file to what the buffer holds. |
| `FileData.Read` | src/minixfs/finode/finode.go:159-248 | Fills the buffer with exactly the slice of length min(len, Size - pos), reports EOF exactly at the end, and changes neither file nor the rest of the buffer: it answers as a sequence of bytes would; at any scale. |
| `FileData.WriteThenRead` | src/minixfs/finode/finode.go:159-311 | What has just been written is read back, and what it did not reach reads as before. |
| `Lifetime.OtherFileUntouched` | src/minixfs/finode/finode.go:250-311 | A write to one file leaves the bytes and the tree of every file with a disjoint tree as they were, and disjoint; at any scale. |
| `Lifetime.EmptyFile` | src/minixfs/finode/finode.go:250-311 | A file without zones is one the operations apply to. |
| `Lifetime.ReachesIffSurvived` | src/minixfs/utils/write.go:122-154 | In a file with no zones past its end, a write can have the blocks it needs without `ClearZone` exactly if zones are single blocks or it goes no further than the zone in which the next byte would lie. |
| `Lifetime.WriteAndRemove` | src/minixfs/utils/write.go:272-323 | Any run of such writes, successful or cut short, followed by `Truncate` leaves the zone map as if the file had never been. |
| `Server.InvNext` | src/minixfs/finode/finode.go:58-117 | Every step of the server, of a read or of a write keeps the protocol invariant. |
| `Server.Linearizable` | src/minixfs/finode/finode.go:86-105 | In every interleaving no read overlaps a write and no two writes overlap, and every answer is that of a one-at-a-time execution in the order the server took the requests. |
| `Server.RealTimeOrder` | src/minixfs/finode/finode.go:86-105 | A request answered before another is submitted comes before it in that order. |
| `Server.NeverStuck` | src/minixfs/finode/finode.go:58-117 | While a request is unanswered, some step other than a new submission is possible. |
| `Server.WorkDecreases` | src/minixfs/finode/finode.go:58-117 | Every such step leaves less to do, counted in requests to take, phases and steps of those taken, and answers to give. |
| `Server.AllAnswered` | src/minixfs/finode/finode.go:58-117 | However the server goes on, if nothing more is submitted, at some time all requests have been answered. |
| `FileServer.ReadAlone` | src/minixfs/finode/finode.go:159-248 | A read that runs alone, chunk by chunk, answers what `FileData.Read` is proved to answer: the slice, or EOF. |
| `FileServer.WriteAlone` | src/minixfs/finode/finode.go:250-311 | A write that runs alone, chunk by chunk, answers what `FileData.Write` is proved to answer: it splices in a prefix of its data, all of it if there is room, or answers ENOSPC or EFBIG. |
| `FileServer.AnswersOfAFile` | src/minixfs/finode/finode.go:86-105 | In every run, each read and each write answers for the contents as of its turn what `FileData.Read` and `FileData.Write` are proved to answer, errors included: no read sees a write half done. |
| `DirServer.ScanAlone` | src/minixfs/dinode/search.go:31-93 | A search that looks at one slot a step stops at the first slot its operation stops at. |
| `DirServer.DirAlone` | src/minixfs/dinode/dinode.go:78-143 | Lookup, is-empty, link and unlink, each running alone, are the four operations on the sequence of slots. |
| `DirServer.AnswersOfAMap` | src/minixfs/dinode/dinode.go:78-143 | In every interleaving of lookups with links and unlinks, each answer is that of a finite map taking the requests one at a time. |
| `FileServer.ChunkIsStep` | src/minixfs/finode/finode.go:271-296 | What `FileData.WriteChunk` promises of the disk is what one step of a write does to the bytes: there is room for the chunk exactly if it succeeds. |
| `FileServer.WriteOnDisk` | src/minixfs/finode/finode.go:271-296 | One chunk written to the disk is one step of the request: the file has the bytes the step leaves, and the request goes on, exactly if there are zones for the chunk, or is answered as the step says. |
| `FileServer.ReadOnDisk` | src/minixfs/finode/finode.go:179-244 | One chunk read from the disk is one step of the request, and file and blocks stay. |
| `Names.NameOfMeans` | src/minixfs/common/disk.go:40-59 | The name a field holds is what stands before its first NUL, or the whole field. |
| `Names.HasName` | src/minixfs/common/disk.go:40-59 | True exactly if the field holds the name: its bytes, then a NUL unless the field is full. |
| `Names.NameIsOf` | src/minixfs/common/disk.go:40-59 | For names without NULs, that is equality with the bytes of the field up to the first NUL. |
| `Names.SetName` | src/minixfs/dinode/search.go:125-132 | The field gets the name cut to 60 bytes, and a NUL if it is shorter. |
| `Names.NamedFound` | src/minixfs/dinode/search.go:125-132 | A stored name is found again exactly if it fits the field. |
| `Names.NamedHolds` | src/minixfs/dinode/search.go:125-132 | What a field holds after storing a name. |
| `DirMap.LookupIsMapLookup` | src/minixfs/dinode/search.go:50-79 | Looking up a name in a directory of unique names is looking it up in the map. |
| `DirMap.EnterInserts` | src/minixfs/dinode/search.go:81-147 | Entering a new name inserts it, in the first free slot if there is one and in a new slot at the end otherwise; no other slot changes. |
| `DirMap.DeleteRemoves` | src/minixfs/dinode/search.go:50-79 | Deleting removes the name, and succeeds exactly if it is there. |
| `DirMap.IsEmptyIff` | src/minixfs/dinode/search.go:50-68 | The directory is empty exactly if the map holds nothing but `.` and `..`. |
| `DirMap.EnterThenLookup` | src/minixfs/dinode/search.go:17-148 | Link then lookup finds the number, link then unlink restores the map, other names are unaffected. |
| `DirMap.EnterUniqueIff` | src/minixfs/dinode/search.go:95-134 | Entering a name keeps names unique exactly if it is not in the directory yet. |
| `DirMap.LongNameLost` | src/minixfs/dinode/search.go:125-132 | In any directory, link is followed by a successful lookup exactly if the name has at most 60 bytes; a longer one is entered under its first 60. |
| `Directory.ScanBlock` | src/minixfs/dinode/search.go:38-86 | The scan of one block: where it stops, and whether the slot is free, matching, or the room past the last slot. |
| `Directory.FindSlot` | src/minixfs/dinode/search.go:25-93 | The scan over all blocks ends at the first slot at which the operation stops, or shows that there is none. |
| `Directory.Extend` | src/minixfs/dinode/search.go:104-120 | A full directory gets a zeroed block exactly if as many zones are free as that lacks, or stays exactly as it was. |
| `Directory.StoreEntry` | src/minixfs/dinode/search.go:125-134 | Exactly one slot changes; zones and blocks of others do not. |
| `Directory.SlotMeans` | src/minixfs/dinode/search.go:25-50 | Slot s stands at byte 64 * s of the directory, in the block that `ReadMap` finds there. |
| `Directory.SearchDir` | src/minixfs/dinode/search.go:17-148 | Over the blocks on disk, the one loop does lookup, enter, delete and is-empty on the sequence of slots; entering fails, and leaves the directory unchanged, exactly if there is no free slot and the first position past the end lacks more zones than are free; at any scale. |
| `BufferCache.HashIsRemainder` | src/minixfs/bcache/cache_lru.go:92-116 | With a table of a power of two, the mask is the remainder. |
| `BufferCache.LRUCache.constructor` | src/minixfs/bcache/cache_lru.go:54-96 | All buffers stand on the first hash chain, once, and on the list in order. |
| `BufferCache.LRUCache.Find` | src/minixfs/bcache/cache_lru.go:113-123 | The walk along one chain finds a buffer exactly if some buffer of the table holds the block. |
| `BufferCache.LRUCache.Unlink` | src/minixfs/bcache/cache_lru.go:265-280 | Cuts one buffer out of its chain, at the head or by the loop. |
| `BufferCache.LRUCache.Unchain` | src/minixfs/bcache/cache_lru.go:265-280 | The chains still hold every other buffer once, each under its hash. |
| `BufferCache.LRUCache.RmLru` | src/minixfs/bcache/cache_lru.go:464-478 | What unlinking does to the pointers, for any pointers that lead to buffers. |
| `BufferCache.LRUCache.EvictBlock` | src/minixfs/bcache/cache_lru.go:253-290 | Takes the head of the list, and no other buffer leaves list or chains. |
| `BufferCache.LRUCache.LoadBlock` | src/minixfs/bcache/cache_lru.go:295-348 | The buffer holds the new block (a prefetched one holds none), stands under its hash, and each block of a device is held at most once. |
| `BufferCache.LRUCache.Get` | src/minixfs/bcache/cache_lru.go:110-168 | A hit returns the holder and changes nothing; a miss evicts the head of the list, or answers nil exactly if all buffers are in use. |
| `BufferCache.LRUCache.PutBlock` | src/minixfs/bcache/cache_lru.go:357-407 | A buffer no longer in use goes to the rear, or to the front for one-shot blocks; putting back a buffer that is not in use leaves pointers that describe no list at all. |
| `BufferCache.AppendTwice` | src/minixfs/bcache/cache_lru.go:386-397 | Appending a buffer that is already on the list: no sequence of buffers fits the pointers any more. |
| `BufferCache.PrependTwice` | src/minixfs/bcache/cache_lru.go:375-385 | The same at the front. |
| `BufferCache.LRUCache.InvalidateDevice` | src/minixfs/bcache/cache_lru.go:409-415 | Exactly the buffers of the device forget it; the index stays sound. |
| `BufferCache.EvictionFollowsReturns` | src/minixfs/bcache/cache_lru.go:357-407 | Over every run of requests and outcomes in which buffers are taken from the front, without one-shot puts: the buffers on the list at first and then those that came back are, in this order, those taken by gets and then those still on the list. |
| `BufferCache.CountIsUse` | src/minixfs/bcache/cache_lru.go:98-185 | Over every run the count of a buffer is the gets that took it, which are those that missed, less its puts. |
| `BufferCache.MatchedIffInUse` | src/minixfs/bcache/cache_lru.go:98-185 | From a new cache, the puts find their buffers in use exactly if each is matched by an earlier get that took the buffer. |
| `BufferCache.LRUCache.Serve` | src/minixfs/bcache/cache_lru.go:98-185 | One request: its outcome, the buffers after it, and the list, which stays sound exactly if a buffer put back is in use; otherwise no sequence of buffers fits the pointers. |
| `BufferCache.LRUCache.Replay` | src/minixfs/bcache/cache_lru.go:98-185 | Over any run of gets, puts and invalidations, each request has the outcome that a search through all buffers tells, and the buffers are what requests and outcomes make them. The list is sound after every request exactly if every put found its buffer in use, in a new cache exactly if every put is matched; then gets that miss take its front, and nil is answered exactly if it is empty. With the first other put the pointers describe no list. |
| `BufferCache.LRUCache.HitThenPut` | src/minixfs/bcache/cache_lru.go:110-168 | In a new cache, or any in order with a buffer to take: a block is fetched and put back, found again and put back. After this ordinary run the pointers describe no list, since the hit was not counted. |
| `InodeTable.PlacesApart` | src/minixfs/inode/cache.go:330-334 | Different inode numbers lie in different places of the inode blocks. |
| `InodeTable.InodeAddress` | src/minixfs/inode/cache.go:330-334 | The inodes stand side by side in number order from the first byte of block MapOffset on, whole ones in a block: inode i at byte 64 * (i - 1). |
| `InodeTable.InodeCache.StoredMeans` | src/minixfs/inode/cache.go:330-341 | The inode that is handed out stands at that address. |
| `InodeTable.InodeCache.FindSlot` | src/minixfs/inode/cache.go:144-162 | The slot that holds the inode, or else the last unused one; the first slot is never used. |
| `InodeTable.InodeCache.LoadInode` | src/minixfs/inode/cache.go:326-345 | The slot gets the inode from its place on the disk: entry (inum - 1) % n of block MapOffset + (inum - 1) / n, with n inodes of 64 bytes in a block. |
| `InodeTable.InodeCache.WriteInode` | src/minixfs/inode/cache.go:347-366 | Writes the inode to that place; every other inode of every device reads as before. |
| `InodeTable.InodeCache.GetInode` | src/minixfs/inode/cache.go:141-206 | At most one live slot holds an inode; ENFILE exactly if no slot holds it and all slots but the first are live; a second client joins the first. |
| `InodeTable.InodeCache.PutInode` | src/minixfs/inode/cache.go:207-246 | Counts down; the last put of a dirty inode writes it back and disturbs no other; one without links is freed. |
| `InodeTable.InodeCache.LiveSlots` | src/minixfs/inode/cache.go:141-162 | All slots but the first are live exactly if as many inodes are open as there are such slots. |
| `InodeTable.CountIsBalance` | src/minixfs/inode/cache.go:141-246 | Over every run of requests the count of an inode is the gets of it that were granted minus its puts. |
| `InodeTable.LastChangeStays` | src/minixfs/inode/cache.go:141-246 | Over every run of requests an inode is what it was last changed to, through any gets and puts of it and of others; except that it is marked free exactly if it was left without links and nobody has had it open at some time since. |
| `InodeTable.InodeCache.Replay` | src/minixfs/inode/cache.go:141-246 | The answers to every run of gets, changes and puts, and the table after it, are those that the requests determine: an inode is handed out as it was last left, refused exactly if nobody has it open and no slot is free, and freed exactly by the last put of one without links. |
| `FsckImage.ReachStep` | src/fsck/main.go:631-682 | Following an entry of a reachable directory leads to a reachable inode. |
| `FsckState.MarkInode` | src/fsck/main.go:375-399 | Marking a reachable inode and charging its links (at most 32767) keeps the invariant. |
| `FsckState.ClaimZone` | src/fsck/main.go:535-553 | Accepting a zone that is not marked keeps the invariant: marked zones are the accepted ones, each accepted once. |
| `FsckState.Conservation` | src/fsck/main.go:227-236 | At every point free and marked inodes make up all inodes, free and marked zones all zones. |
| `FsckState.CountEntry` | src/fsck/main.go:631-637 | Counting an entry keeps the count of every inode equal to the entries that name it, less its links once marked. |
| `FsckState.PartialStep` | src/fsck/main.go:589-629 | What has been looked at and followed after one more entry of a directory zone. |
| `FsckState.CloseZone` | src/fsck/main.go:589-629 | All entries of a directory zone lead to marked inodes or to inodes without links. |
| `Fsck.Checker.DescendTree` | src/fsck/main.go:281-314 | Terminates on every image; afterwards the inode is marked or has no links, every inode marked on the way has been found clean or has been reported, and none is reported without something wrong with it. Zones are accepted for inodes marked on the way only. |
| `Fsck.Checker.Mark` | src/fsck/main.go:386-396 | Marks the inode, and charges it its links, at most 32767. |
| `Fsck.Checker.ChkInode` | src/fsck/main.go:375-399 | Marks an inode with links once and walks what is under it; it is recorded as clean only if its type is sound and its zones below the size are accepted, and answers false only for an inode of an unsound type, with a refused zone, or a directory without a dot entry in any of its zones. |
| `Fsck.Checker.ChkMode` | src/fsck/main.go:402-433 | Dispatches on the file type; true only for an inode of a known type with a sound size and zone numbers, and, if it is a directory, with both dot entries; false only for one of these reasons or a refused zone. |
| `Fsck.Checker.ChkSpecial` | src/fsck/main.go:488-507 | True exactly if the first zone number is not zero and all others are. |
| `Fsck.Checker.ChkDirectory` | src/fsck/main.go:452-468 | True only if entries for `.` and `..` have been come across and all zones that start below the size are accepted; false only if one of these fails because a zone was refused or an entry is missing. |
| `Fsck.Checker.ChkFile` | src/fsck/main.go:435-450 | Walks the zones at each level of indirection; true only if every zone of the file that starts below its size has been accepted for it, at its level; false only if one of its zones was refused. |
| `Fsck.Checker.ChkZones` | src/fsck/main.go:471-486 | Walks a list of zones; without errors all of it is accepted, and the position is at the true offset of its end, or at or past the size. Each zone number is looked at in one place, once. |
| `Fsck.Checker.ChkListed` | src/fsck/main.go:474-483 | One zone of the list: skipped, refused, or accepted and walked. |
| `Fsck.Checker.MarkZone` | src/fsck/main.go:535-553 | Accepts a zone exactly if it is in range and has not been accepted before, and otherwise records it as refused: then its number is out of range or stands in two places. |
| `Fsck.Checker.ZoneChk` | src/fsck/main.go:572-584 | Walks the contents of an accepted zone and advances the position. |
| `Fsck.Checker.ChkIndZone` | src/fsck/main.go:718-737 | Walks an indirect zone chunk by chunk; without errors every entry that starts below the size is accepted, and the position stays true through nested levels. |
| `Fsck.Checker.ChkDirZone` | src/fsck/main.go:589-629 | Checks every entry of a directory zone; the flags for `.` and `..` then tell exactly whether such an entry, in range, is among them or was come across before. |
| `Fsck.Checker.ChkEntry` | src/fsck/main.go:631-682 | Counts an entry in range and follows it, unless it is `.`, `..`, whose flag it sets, or a directory already marked. |
| `Fsck.Checker.ChkTree` | src/fsck/main.go:227-236 | After the walk every marked inode is reachable from the root, the directory zones looked at are exactly the accepted ones, each once, and all their entries lead to marked inodes or to ones without links. On a sound image no inode is reported, all that the root leads to below the sizes is marked, and, where directories have no zones past their sizes, nothing else. |
| `Fsck.Checker.ChkCount` | src/fsck/main.go:952-957 | The inodes reported for a wrong link count are exactly those whose count is not zero. |
| `FsckState.MentionsMeans` | src/fsck/main.go:631-637 | The count of a zone for an inode is the number of its entries that have that inode number. |
| `FsckState.CountReportsMismatch` | src/fsck/main.go:952-957 | The count is nonzero exactly if the entries in accepted directory zones that name the inode are not as many as the links it is charged with: those stored, or 32767 if they are more, and none if it is not marked. |
| `FsckOffsets.JumpMeans` | src/fsck/main.go:526-533 | What an entry of a zone list stands for, in bytes: Blocksize << scale at level 0, and for each level above as many times that as an indirect zone has entries. |
| `FsckOffsets.EntriesFill` | src/fsck/main.go:589-597 | The entries looked at fill the zone, 64 bytes each, and the zone numbers read fill the block, 4 bytes each. |
| `Fsck.TracksMeans` | src/fsck/main.go:471-486 | Where the position stands after a list of zones, in bytes. |
| `FsckOffsets.StandsMeans` | src/fsck/main.go:435-450 | A data zone stands at a byte offset exactly if it is the kth zone of its file and the offset is k zone sizes: seven zones in the inode, then those under its single, double and triple indirect zones. |
| `FsckOffsets.FileCoveredMeans` | src/fsck/main.go:435-486 | What a check without errors has accepted, list by list and counted in zones: all zone numbers of the inode, and under the indirect ones all that begin below the size. |
| `FsckOffsets.CoveredByOffset` | src/fsck/main.go:435-486 | In a file checked without errors, every data zone whose byte offset is below the size has been accepted for it. |
| `FsckCover.CoveredMeans` | src/fsck/main.go:435-486 | Accepting zones list by list, level by level, accepts every zone of a file that starts below its size. |
| `FsckCover.EntriesCover` | src/fsck/main.go:718-737 | The chunks read before the position reached the size are all that matter. |
| `FsckState.CleanStep` | src/fsck/main.go:589-682 | An entry, in a zone below the size, of a directory that was not reported leads to a marked inode, if that has links. |
| `FsckState.CleanWalkMarksReachable` | src/fsck/main.go:281-314 | Every inode that the root leads to, through directories that were not reported and inodes with links, is marked: with `ChkTree`, marked is reachable. |
| `FsckState.StandsTwice` | src/fsck/main.go:535-553 | A zone refused because it has been accepted stands in a second place of the image. |
| `FsckCover.WrongStays` | src/fsck/main.go:375-399 | What is wrong with an inode stays wrong for the rest of the walk. |
| `FsckSound.NothingReported` | src/fsck/main.go:281-314 | If all types are sound, all zone numbers in range and in one place each, and both dot entries in every directory, no inode is ever reported. |
| `FsckSound.SoundWalk` | src/fsck/main.go:227-236 | On such an image the walk marks every inode that the root leads to through entries below the sizes, and, where directories have no zones past their sizes, exactly those. |
| `FsckSound.EmptySystemSound` | src/fsck/main.go:227-236 | A file system that has only its root is such an image. |
| `FsckUtils.SetBit` | src/fsck/utils.go:54-56 | Inserts one number into the set a bitmap stands for. |
| `FsckUtils.ClrBit` | src/fsck/utils.go:58-60 | Removes one number from it. |
| `FsckUtils.BitSet` | src/fsck/utils.go:63-65 | Tells whether a number is in it. |
| `FsckUtils.StoredMembers` | src/fsck/utils.go:46-65 | Storing one bit of one word changes the set in one number. |
| `FsckUtils.BitmapSize` | src/fsck/utils.go:38-44 | The least number of blocks that hold all bits. |
| `FsckUtils.SameAsServer` | src/fsck/utils.go:75-84 | The checker and the server find an inode in the same block and at the same byte of it. |
| `FsckUtils.InodesApart` | src/fsck/utils.go:75-84 | Where blocks hold whole inodes, each inode lies within one block and no two overlap. |

## Left out

- Bitmap maps that do not fit: `NewBitmap` computes half of the true bits per block (src/minixfs/bitmap/bitmap.go:33, against src/minixfs/bitmap/util.go:9-11). The allocator's results for inodes and zones are proved for maps that fit; `Bitmaps.Layout.AllocFreeUndoneIff` and `Bitmaps.NewBitmapSoundIff` say which those are, and `Bitmaps.Layout.Misnumbered` what the search and `free_bit` do in the others.
- Holes and positions past the end: `read` slices negatively when `pos > Size` and reads block 0 for a hole (src/minixfs/finode/finode.go:167-184), so reads and writes are modelled for `pos <= Size` on files without holes, which writes keep. `ReadMap`, `WriteMap`, `NewBlock` and `Truncate` are modelled for sparse trees.
- FileData.Write: says nothing of the contents for file types other than regular files and directories, whose size the source does not record (src/minixfs/finode/finode.go:298-303); takes it that `Maxsize` is no more than a tree and the 32-bit size field can hold; and leaves out positions past the end, as above. Where zones are several blocks, `ClearZone` panics for a new zone away from the end (src/minixfs/utils/write.go:13-17,141): such writes are left out (`FileData.Reaches`; `Lifetime.ReachesIffSurvived` says which they are), and blocks of free zones that the cache still knows must be file blocks, since a type assertion fails otherwise. The same holds for `FileData.WriteChunk` and `FileData.WriteChunks`. Reading, directories, mapping and truncating are proved for any scale without such conditions.
- Lifetime.WriteAndRemove: passes over the writes that the source would not survive, or that start past the end.
- ZoneMap.WriteMap: for positions past the last zone a tree can hold it only says what is lost: the source hangs a fresh, unzeroed double indirect zone in the inode before it reports EFBIG.
- Typed blocks: a block number holds zone numbers, bytes or directory entries, as the last fetch or zeroing typed it. The type assertions of the source cannot fail in the model where its contracts hold.
- Disk.BlockCache.GetBlock: the block cache under the data path is a map from block numbers to blocks, without buffer counts and eviction, which are only in `BufferCache.dfy`; that holds no contents. Write-back is off in the source (`actuallywrite` is false), so nothing is said of the device.
- BufferCache.LRUCache.EvictBlock: the flush of a dirty buffer is left out; it changes no list or chain, and writes nothing.
- BufferCache.LRUCache.LoadBlock: the contents of the block and its read from the device are left out.
- BufferCache.LRUCache.PutBlock: immediate write-back of blocks so marked is left out, as are dirty flags and `flush`, which changes no list or chain.
- BufferCache.LRUCache.InvalidateDevice: assumes the table has NR_BUFS buffers, as the source's loop does (src/minixfs/bcache/cache_lru.go:410).
- Loads that overlap other requests, in both caches: a load is one step with its request. Waiting lists are left out.
- InodeTable.InodeCache.LoadInode: copies the inode out of its block. In the source the cached inode points into the block's memory, so a change is seen there before it is written back.
- InodeTable.InodeCache.Replay: a put of an inode that nobody has open is answered `NotOpen` and changes nothing, as it is by `InodeTable.InodeCache.Serve`; callers of the source hold a pointer to the inode, and a put through a stale one would count below zero (src/minixfs/inode/cache.go:207-246).
- InodeTable.InodeCache.PutInode: tells whether the inode is freed, but the zones it gives back are the business of `Truncation.Truncate`, and its number that of `Bitmaps.Bitmap.FreeInode`.
- `NewInode`, which keeps size and zones of the inode that had the number before (src/minixfs/inode/cache.go:117-121).
- Locking and unlocking of a server by exchanging channels (src/minixfs/finode/finode.go:63-85): a loop over a channel reads the variable once, so the exchange has no effect.
- `EFBIG` for a directory whose slot count overflows to zero: a 64-bit count cannot.
- Directory.SearchDir: entering a slot past the end assumes that the grown size fits the largest file and the 32-bit size field; neither is checked by the source.
- FileServer.WriteAlone: how many chunks the disk has room for is a parameter of the request, as other files take zones meanwhile; so it is for `FileServer.AnswersOfAFile`. `FileServer.WriteOnDisk` shows of each chunk which parameter the disk stands for, and `FileData.Write` how many chunks there is room for.
- DirServer.DirAlone: whether there is room to extend the directory is a parameter of the request; so it is for `DirServer.AnswersOfAMap`. `Directory.SearchDir` says when there is.
- Link of a name that is already there enters it twice (`DirMap.EnterUniqueIff`); `DirMap.EnterInserts` and `DirServer.AnswersOfAMap` ask that it is not, as the callers of `Link` see to.
- Checker runs that end in `log.Fatal` (a root that is no directory, a symbolic link with an impossible size) are excluded. `yes` always answers no, so nothing is repaired.
- Fsck.Checker.ChkZones: positions are claimed for images whose blocks are whole chunks of zone numbers, and not for symbolic links, whose check is used inverted (src/fsck/main.go:577).
- The checker's special maps, counters for printing, name checks, map comparison and all of its output; its bitmaps are sets in `Fsck.dfy`, and `FsckUtils.dfy` shows that the packed words are such sets.
- FsckUtils.InodesApart: the start of the inode list is a parameter.
- Integer widths: zone numbers stored in 32 bits and file sizes in a signed 32-bit field are cut explicitly (`U32`, `I32`); positions and counts are 64-bit in the source and unbounded here. Link counts are charged up to 32767, as in the source.
- System calls, path walking, mounting, file descriptors, permissions, time stamps, pipes, devices and everything under cmd/.
