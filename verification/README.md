# reflash: a verified model

reflash reads every block of a device and writes the same bytes back, shows a compressed grid of
what happened, and keeps a catalog of files with the ranges that failed. This project models the
parts of it that carry its promises, in Dafny, and proves them:

- **Transfers and the rewrite engine** (`Device.dfy`, `BlockIo.dfy`, `Grid.dfy`, `Engine.dfy`). The
  kernel is a script of replies: short transfers, interruptions, failures that stored a prefix, end of
  file, any media contents for direct reads. Flush probes and stop requests are scripts too. For every
  script the device keeps its bytes and length, the chunks tile the range up to the first stop request, and
  their outcomes are those that the script gives: inside the device a transfer succeeds exactly when no reply
  it consumed is a fault. The error list is exactly the failed chunks, the device saw exactly the transfers
  those chunks call for, the grid is the exact image of the error list and of the flushes, and the catalog
  keeps the failures row by row.
- **Allocation walkers** (`Extents.dfy`, `Arith.dfy`, `Clusters.dfy`, `Fat.dfy`, `FatFiles.dfy`, `ExFat.dfy`,
  `ExFatFiles.dfy`, `ExtTree.dfy`, `ExtFormat.dfy`, `ExtBlocks.dfy`, `ExtWalk.dfy`, `Ntfs.dfy`). The loops over
  untrusted tables terminate, coalescing keeps the byte sequence, trees equal flat scans, and the ext walk
  finds exactly the reachable inodes. Decoders invert the formats: the files that a FAT or exFAT table, an ext4
  extent tree, an ext2 block map or an NTFS run list was written for come back as exactly the bytes of their
  clusters or blocks.
- **The catalog** (`Options.dfy`, `Paths.dfy`, `FolderTree.dfy`, `TreeQuery.dfy`, `Catalog.dfy`,
  `Store.dfy`, `CatalogRuns.dfy`). The folder and file tables refine a flat map from component lists to
  records under every operation and every run of operations, and rowids keep naming their folders; the
  cross-reference check counts exactly the broken links; a clean catalog stays clean under exactly stated conditions.
- **The verify queue of the file browser** (`VerifyQueue.dfy`). Two threads as interleaved steps; a
  result only ever paints the row of the file that was hashed, in the epoch it was queued for, and while
  the user stays in a folder every queued file is hashed and painted once, in row order.

Extents are byte ranges. `Extents.Bytes` is the list of bytes an extent list names and
`Extents.PushAll([], ps)` is the list coalesced from the ranges `ps` in order. `Catalog.Contents` is the
abstract catalog: a flat file map, the folders' component lists, special objects and bad extents;
`Store.View()` is the one a set of tables stands for. Tables are maps, and a new rowid is one more than
the largest. In `BlockIo`, an `Outcome` says what happened to one chunk, `Ledger` lists the failed chunks,
and `AllOps` lists the transfers that the outcomes call for. `Devices.Reading` and `Devices.Writing` say how
an exact transfer ends under a script and what it leaves of it, `BlockIo.Processing` and `BlockIo.Answers` what
becomes of a chunk and of a run, and a `BlockIo.Switch` is the stop flag with the requests still to come.

Some properties are false of the code; they are stated as exact conditions, each with an input:

- Deleting a folder never touches extents, so it leaves the extents of the files that go with it
  (`Catalog.FolderDeleteClean`; `Catalog.FolderDeleteLeavesOrphan` for folder `d` and file `/d/a`). The
  file browser does this when it synchronises a folder (src/gui/browser.cpp:1115).
- Recording failures for a path that is neither special nor canonical leaves extents that the
  cross-reference check counts as broken (`Catalog.RewriteClean`). A FAT directory record with a blank
  name gives such a path, `/d/` (`Engine.BlankNameUnclean`).
- Deleting a file by a path that is not canonical, such as `//a`, removes the file row and leaves its
  extents behind (`Catalog.DeleteClean`, `Catalog.DeleteLeavesOrphan`). The only caller, the file browser,
  passes canonical paths (src/gui/browser.cpp:224-228, src/gui/browser.cpp:1146).
- The exFAT table walk computes entry offsets in 32 bits without noticing the wrap: for clusters
  0x3FFFFFFF, 0x7FFFFFFF and 0xBFFFFFFF it reads outside any table below 4 GiB (`ExFat.OutsideIff`,
  `ExFat.InsideIff`; `ExFat.OutsideInput` for a twelve-byte table).
- The FAT scan counts the sectors before the cluster heap in 32 bits. Where that count wraps, the heap
  starts inside the FAT region (`Fat.GeometryValid`; `Fat.WrappedLayout` for a boot sector the scan
  accepts). It also divides by the sector size before checking that it is not zero.
- The exFAT scan checks neither of the two shifts of the boot sector. Where they are too large, 64-bit
  cluster addresses wrap (`ExFat.GeometryValid`; `ExFat.WrappedLayout` for a boot sector that gives two
  clusters one address). An ext leaf can name blocks whose addresses wrap as well (`ExtTree.BlkOffWraps`).
- In an extent tree a length field of 0x8000 means a written run of 32768 blocks (ext4 on-disk format, field
  `ee_len`). The ext scan takes it for an unwritten run of no blocks, so such a file loses the run
  (`ExtFormat.RunReads`; `ExtFormat.LongestRunLost` for a leaf with nothing else).
- The NTFS fixup places a tail by an unsigned number. With a sector size of one, which the scan lets
  through (src/fs/ntfs.cpp:173), the first tail lies before the record and is written there
  (`Ntfs.FixupRecord`).
- The run-list decoder stops at a terminator only. On a list without one it reads on behind its buffer, and
  a field of more than eight bytes is shifted out of the word; `Ntfs.DecodeRunsAllocated` says exactly when.
- A rewrite that could not be set up, for want of a buffer or of direct I/O, is not noticed: a linear run
  then transfers nothing, returns zero (`Engine.LinearRun`) and counts the device as massaged
  (`Engine.CountedAnyway`).

## Model

| member | source | states |
|---|---|---|
| Extents.PushAllBytes | src/fs/fat.cpp:98-104 | coalescing any list of ranges keeps the byte sequence and the total, and leaves no two consecutive extents that touch |
| Extents.MergedDisjoint | src/fs/fat.cpp:98-104 | coalescing disjoint non-empty ranges gives disjoint extents |
| Extents.PushAllMerged | src/fs/ext.cpp:129-134 | merging an already coalesced part gives the same list as pushing the ranges it was made from |
| Clusters.PiecesTotal | src/fs/fat.cpp:93-106 | the per-cluster ranges of n clusters add up to the limit less what n clusters leave of it |
| Clusters.PiecesApart | src/fs/fat.cpp:74-78 | ranges of different clusters never overlap |
| Clusters.PiecesBytes | src/fs/fat.cpp:74-106 | the per-cluster ranges are the bytes of the clusters, cluster c beginning c - 2 clusters after the heap does, cut at the limit |
| Fat.GeometryValid | src/fs/fat.cpp:225-262 | for all field values, the computed layout is well formed exactly when the fields are not zero, the boot region is below 2^31 bytes, and neither the 32-bit count of the sectors before the heap nor the 32-bit `clusters + 2` wraps; what the chain walk needs holds without the former |
| Fat.WrapsInside | src/fs/fat.cpp:240-262 | where the count of the sectors before the heap wraps, the heap starts inside the FAT region |
| Fat.Regions | src/fs/fat.cpp:225-262 | without a wrap the boot region, the FATs, the fewest sectors that hold the root directory of FAT12 and FAT16, and the heap follow each other, and there are as many clusters as the volume has room for |
| Fat.WrappedLayout | src/fs/fat.cpp:240-262 | a boot sector the scan accepts although its heap starts inside its own FATs |
| Fat.ClusterAddress | src/fs/fat.cpp:74-78 | cluster addresses are those of the sector formula |
| Fat.ChainExtents | src/fs/fat.cpp:80-114 | on every layout without wrapped addresses, even one whose heap starts inside its FATs, terminates on every table content and returns the coalesced ranges of exactly the clusters of the chain: followed from the start, distinct, in the heap, until an end mark, a bad value, a repetition or the size is used up |
| Fat.ChainProperties | src/fs/fat.cpp:80-114 | the extents of a chain flatten to its cluster ranges in chain order, lie in the data area, are pairwise disjoint, cannot be merged further, and sum to min(limit, clusters x cluster bytes) |
| Fat.ChainUnique | src/fs/fat.cpp:80-114 | a start cluster and a limit have only one chain, so the specification of the loop fixes the clusters visited |
| Fat.ChainsApart | src/fs/fat.cpp:80-114 | with an injective successor map, chains from different clusters that are nobody's successor never meet |
| Fat.ScanObjects | src/fs/fat.cpp:190-262 | the object list is the boot region, the FAT region, and one object per directory entry with the coalesced ranges of its chain |
| Fat.ObjectsAre | src/fs/fat.cpp:190-262 | the objects are `::boot` with the boot region, `::fat` with the FATs after it, and then the entries in their order |
| Fat.VolumeDisjoint | src/fs/fat.cpp:190-262 | with an injective table and entries that start apart, no byte is named twice by all extents of all objects, boot and FAT regions included |
| Fat.Unpack12 | src/fs/fat.cpp:56-63 | decoding a 12-bit entry inverts the packing of section 4 of the Microsoft FAT Specification, for odd and even clusters |
| Fat.Unpack16 | src/fs/fat.cpp:50-55 | decoding a 16-bit entry inverts the packing |
| Fat.Unpack32 | src/fs/fat.cpp:44-49 | decoding a 32-bit entry gives back the 28 value bits whatever the reserved bits are |
| FatFiles.FileReadsBack | src/fs/fat.cpp:42-114 | a file or directory whose clusters are linked in a packed table of any of the three kinds is catalogued with exactly the bytes of its clusters: all of them for a directory or without a size, and otherwise as many as its size |
| FatFiles.LaidOutIsChain | src/fs/fat.cpp:80-114 | the clusters such a file needs are its chain, ended by one of the last eight values or the end of the table |
| Fat.ShortNameReads | src/fs/fat.cpp:116-131 | a name and an extension padded with blanks read back, with a dot between them only where there is an extension |
| Fat.BlankShortName | src/fs/fat.cpp:116-131 | a name field of blanks gives an empty file name |
| ExFat.GeometryValid | src/fs/exfat.cpp:213-221 | for all field values and volumes below 2^62, the computed layout is well formed exactly when sectors have at most 2^15 bytes, the shifts add up to at most 31 (or 32 with a heap near the start), and the cluster count leaves room for two more |
| ExFat.FitsIff | src/fs/exfat.cpp:40-44 | the bound in it says exactly that every cluster a walk can visit has a 64-bit address, and then the computed addresses are the true ones |
| ExFat.WrappedLayout | src/fs/exfat.cpp:40-44 | a boot sector the scan accepts, for which two clusters get the same address |
| ExFat.ChainByTable | src/fs/exfat.cpp:81-101 | on every table of a well-formed layout terminates and returns the coalesced ranges of exactly the clusters of the chain, or nothing where an entry is read outside the table |
| ExFat.OutsideIff | src/fs/exfat.cpp:46-51 | an entry is read outside the table exactly for clusters 0x3FFFFFFF, 0x7FFFFFFF and 0xBFFFFFFF, on every table below 4 GiB |
| ExFat.InsideIff | src/fs/exfat.cpp:81-101 | a walk stays inside a table below 4 GiB exactly when it visits none of these clusters, and only its last entry can lie outside |
| ExFat.CleanTableInside | src/fs/exfat.cpp:81-101 | it stays inside when neither the start nor any entry of the table is such a cluster |
| ExFat.OutsideInput | src/fs/exfat.cpp:81-101 | over a twelve-byte table the walk from cluster 2 visits 0x3FFFFFFF and reads outside |
| ExFat.WalkBadTable | src/fs/exfat.cpp:81-101 | the loop run on that table reads outside |
| ExFat.ChainContiguous | src/fs/exfat.cpp:58-80 | for a file, the one run of consecutive clusters that ends where the size is used up or the heap ends |
| ExFat.FileChain | src/fs/exfat.cpp:53-102 | a non-empty file on consecutive linked heap clusters gets the same single extent of exactly its size in NoFatChain mode and through the table, unless the table walk reads the entry of its last cluster outside the table, which happens exactly for the clusters above |
| ExFat.ChainUnique | src/fs/exfat.cpp:81-101 | a start cluster and a limit have only one chain |
| ExFatFiles.FileReadsBack | src/fs/exfat.cpp:46-101 | a file whose clusters are linked in the table comes back as exactly the bytes of its clusters, all of them without a size and otherwise as many as its size |
| Ntfs.ReadSigned | src/fs/ntfs.cpp:29-39 | reads a field of up to eight bytes as its two's-complement value |
| Ntfs.SignedInverse | src/fs/ntfs.cpp:29-39 | the two's-complement reading inverts the little-endian writing of every value in range |
| Ntfs.DecodeRunsAllocated | src/fs/ntfs.cpp:41-76 | stops on every buffer; returns the coalesced byte ranges of the allocated runs, which name cluster by cluster exactly their bytes, exactly when the list ends properly, and otherwise reads outside or shifts a byte out of a word |
| Ntfs.ExtentsAreClusters | src/fs/ntfs.cpp:66-74 | the bytes of the allocated runs are, run by run and cluster by cluster, those from base + c x cluster size |
| Ntfs.ReadRun | src/fs/ntfs.cpp:49-64 | reads length and address of the entry at the head of the list |
| Ntfs.RunsInvertEncode | src/fs/ntfs.cpp:41-76 | decoding the mapping pairs of any list of allocated and sparse runs gives back that list, for all field widths up to eight and negative deltas, whatever follows the terminator |
| Ntfs.DecodeEncoded | src/fs/ntfs.cpp:41-76 | the decoding loop run on the encoding of any addressable run list returns, coalesced, exactly the bytes of the clusters of its allocated runs, in order |
| Ntfs.FixupRecord | src/fs/ntfs.cpp:78-96 | accepts exactly the records whose magic is right and whose array, if any, fits, for sectors of at least two bytes; with smaller ones exactly a record that carries an array makes it write before the record; an accepted record has its saved tails copied back in place; a rejected one keeps its bytes, except for the tails before the first one that lies outside |
| Ntfs.FixupInverts | src/fs/ntfs.cpp:86-94 | on a record protected by saving its sector tails in an array clear of them, the fixup restores every byte outside the array and keeps the array |
| Ntfs.RestoreRecord | src/fs/ntfs.cpp:78-96 | a file record that names its array in bytes 4 to 7 and had its sector tails saved there comes back byte for byte outside the array |
| Ntfs.TailAtIs | src/fs/ntfs.cpp:86-94 | the tail of a sector is its last two bytes |
| Ntfs.FixupIdempotent | src/fs/ntfs.cpp:78-96 | applying the fixup to its own result changes nothing |
| ExtTree.BlkOffIff | src/fs/ext.cpp:43-45 | the computed address of a block is the true one exactly for blocks that start below 2^64 |
| ExtTree.BlkOffWraps | src/fs/ext.cpp:103-113 | with 64 KiB blocks a leaf entry can name a block that gets the address of block 0 |
| ExtTree.ParseExtents | src/fs/ext.cpp:87-145 | on nodes without endless descent, whatever depths they name, the parse gives exactly what `Parsed` says and fails exactly where a child that it comes to before the size is used up cannot be read or is no node; it never yields more than the size and succeeds on every sound tree, whose result is the flat scan of the leaf entries; a leaf is read exactly, whatever its entries are |
| ExtTree.ParseLeaf | src/fs/ext.cpp:95-119 | a leaf yields the written runs in entry order while bytes are left, whatever lengths its entries have |
| ExtTree.ParseLeafEntry | src/fs/ext.cpp:96-118 | one leaf entry adds the blocks of its run while bytes are left; an uninitialised one only uses bytes up |
| ExtTree.ParseChild | src/fs/ext.cpp:122-142 | parsing a child for the missing bytes and merging its extents extends the flat scan by the child's leaves; it fails exactly when the child cannot be read or parsed |
| ExtTree.ParsedIsFlatScan | src/fs/ext.cpp:87-145 | the extents of a sound tree are one coalesced in-order scan of its leaves, worth min(size, blocks x block size) |
| ExtFormat.NodeReads | src/fs/ext.cpp:87-94 | of a node written as bytes the parser reads its depth, its number of entries, and each entry where it was written |
| ExtFormat.LeafReads | src/fs/ext.cpp:96-103 | a leaf reads back the length and the 48-bit start of every run it was written from |
| ExtFormat.RunReads | src/fs/ext.cpp:96-103 | a run of a leaf is read right exactly when it is shorter than 32768 blocks; the longest written run is taken for an unwritten one of no blocks |
| ExtFormat.LongestRunLost | src/fs/ext.cpp:96-111 | a leaf with nothing but such a run yields no extent |
| ExtFormat.IndexReads | src/fs/ext.cpp:122-128 | an index node reads back the 48-bit blocks of its children |
| ExtFormat.HeldBlocks | src/fs/ext.cpp:87-145 | the flat scan of a tree written to the volume gives exactly the blocks of the file it was written for |
| ExtFormat.ParseHeld | src/fs/ext.cpp:87-145 | parsing a tree written to the volume, of any depth, always succeeds and gives the first bytes of the blocks of its file, up to the size, coalesced |
| ExtFormat.ParseHeldLeaf | src/fs/ext.cpp:95-119 | on a leaf with written and unwritten runs of any length it gives the bytes of the written ones as they are read, while unwritten ones use bytes up |
| ExtTree.CollectIndirect | src/fs/ext.cpp:147-169 | the recursion with its early exits is one walk over the pre-order list of what is below, cut where the size is used up; it fails exactly when it comes to a block that cannot be read before that |
| ExtTree.IndirectExtents | src/fs/ext.cpp:171-210 | the same for an inode's fifteen pointers, and for a directory of unknown size |
| ExtTree.DataInOrder | src/fs/ext.cpp:147-210 | what such a walk lists of data are the blocks of the inode in logical order, holes left out, until the size is used up; the bytes it counts down are exactly those, and its extents are coalesced |
| ExtTree.WalkIsCut | src/fs/ext.cpp:147-169 | a walk over any list lists each indirect block before the data below it, as long as bytes are wanted, and fails exactly when a block that cannot be read comes before they are used up |
| ExtTree.ReadableSucceeds | src/fs/ext.cpp:171-210 | on a map whose indirect blocks can be read the walk succeeds, whatever the size |
| ExtBlocks.WalkIsBelow | src/fs/ext.cpp:147-169 | the walk below a pointer visits exactly the blocks there that are not holes, the j-th found by division of j by the blocks below one pointer, in order |
| ExtBlocks.InodeIsFile | src/fs/ext.cpp:171-210 | the blocks of an inode are the blocks of its file in order, holes left out: the first twelve direct, then one, two and three levels of indirection |
| ExtWalk.Walker.WalkDir | src/fs/ext.cpp:212-281 | returns on every directory graph; on success everything newly seen is reachable, finished, and listed if it is a file or directory; on failure something reachable is broken |
| ExtWalk.Walker.WalkEntries | src/fs/ext.cpp:261-280 | the record loop of one directory follows every named record except the self and parent links, and fails only when something reachable is broken |
| ExtWalk.Scan | src/fs/ext.cpp:212-281 | the walk succeeds exactly when every reachable inode and directory can be read; it then visits exactly the inodes reachable from the root and lists each reachable file or directory exactly once, with its size and extents, under a path that leads to it |
| Grid.MarkIsMax | src/engine/progress.cpp:99-111 | marking a cell takes the maximum of Pending < Cached < Ok < error |
| Grid.RankOrderFree | src/engine/progress.cpp:93-113 | the rank of a cell does not depend on the order of its marks |
| Grid.HalvingStep | src/engine/progress.cpp:29-32 | halving a cell count rounded up is the closed-form count for cells twice as large |
| Grid.CountShrinks | src/engine/progress.cpp:29-32 | more shift never needs more cells, so the first shift that fits is the least |
| Grid.ChooseShift | src/engine/progress.cpp:27-32 | the shift is the least one (up to 40) with at most 4096 cells, the count is above 2048 when it is not zero, and up to 2^52 blocks always fit |
| Grid.CellsCover | src/engine/progress.cpp:37-41 | the cells cover every byte of the total and the last byte lies in the last cell |
| Grid.MeetsIsOverlap | src/engine/progress.cpp:96-98 | a non-empty range marks exactly the cells it shares a byte with |
| Grid.Progress.Reset | src/engine/progress.cpp:21-54 | a fresh grid of the chosen size, all cells pending, counters and logs cleared |
| Grid.Progress.AddDone | src/engine/progress.cpp:79-85 | the byte count grows and is capped at the total |
| Grid.Progress.MarkCell | src/engine/progress.cpp:93-118 | marks every existing cell that the range meets and no other |
| Grid.Progress.Log | src/engine/progress.cpp:120-136 | appends one entry and marks its cells |
| Grid.Progress.NoteRestart | src/engine/progress.cpp:154-169 | all cells pending and the counters cleared; the size of the map and the log stay |
| Grid.Progress.UpgradeCachedToOk | src/engine/progress.cpp:171-177 | cached cells become Ok and no other cell changes |
| Grid.Progress.SetFinished | src/engine/progress.cpp:206-213 | a run that did not fail counts as complete |
| Devices.Device.ReadExact | src/io/device.cpp:114-146 | how a read ends is fixed by the kernel script; inside the device it succeeds exactly when no reply it consumed is a fault, so an interruption or a short transfer alone never fails it, and through the cache it then holds exactly the device's bytes |
| Devices.Device.WriteExact | src/io/device.cpp:114-146 | how a write ends is fixed by the script; it succeeds exactly when no reply it consumed is a fault, and then everything is stored, otherwise some prefix |
| Devices.Device.Pread | src/io/device.cpp:123-128 | one read call moves at most what was asked, and only bytes of the device when it goes through the cache |
| Devices.Device.Pwrite | src/io/device.cpp:123-128 | one write call stores a prefix, also when it fails |
| Devices.Device.ProbeClean | src/io/block_io.cpp:66-72 | clean exactly when the kernel says so and it is time to ask or the poll is forced |
| Devices.Device.PreadAll | src/io/device.cpp:148-150 | success means the buffer holds exactly the device's bytes |
| Devices.Device.PreadDirect | src/io/device.cpp:156-163 | fails without the direct descriptor; otherwise the buffer holds whatever the medium holds |
| Devices.Device.Write | src/io/device.cpp:152-183 | the plain, synchronous and direct writes end as `Putting` says and store a prefix, all of it on success |
| Devices.RangeRead | src/io/device.cpp:114-150 | inside the device an exact read succeeds exactly when no reply it consumed is a fault; a cached read that succeeds lies inside the device and has its bytes |
| Devices.ReadingIff | src/io/device.cpp:114-146 | so it is for any rest of the device, and what a read has got is always a prefix of it |
| Devices.WritingIff | src/io/device.cpp:114-146 | an exact write succeeds exactly when no reply it consumed is a fault, and then stored everything |
| Devices.PuttingIff | src/io/device.cpp:152-183 | a write that is followed by fdatasync also needs that call to succeed at the first try; without a fault in the transfer it takes one more reply |
| Devices.StoreMore | src/io/device.cpp:141-143 | storing two adjacent pieces one after the other is storing them together |
| Devices.StoredSame | src/io/block_io.cpp:158-166 | storing any prefix of bytes that are already there changes nothing |
| BlockIo.BlockSize | src/io/block_io.cpp:96-108 | the block size in use is positive and not smaller than requested, by less than one alignment larger, and a multiple of the alignment whenever direct I/O is needed |
| BlockIo.BlockSizeIs | src/io/block_io.cpp:85-98 | the block size is the one asked for, or 4096; only a run that writes through or verifies its writes rounds it up to the alignment, by less than one alignment |
| BlockIo.PauseControl.WaitIfPaused | src/engine/pause.cpp:14-21 | one request is asked and the run may go on exactly while no stop was requested, now or before |
| BlockIo.AskedIff | src/engine/pause.cpp:14-21 | after n questions the stop flag is set exactly when it was before or one of the first n requests was a stop |
| BlockIo.RoundUp | src/io/block_io.cpp:107-108 | rounding up gives the least multiple of the alignment that is not smaller |
| BlockIo.NothingToTrim | src/io/block_io.cpp:144-148 | with the block size in use no chunk is trimmed, so the zero-chunk break is never taken |
| BlockIo.ChunksTile | src/io/block_io.cpp:130-148 | the chunks of a range name exactly its bytes in ascending order |
| BlockIo.ChunksShape | src/io/block_io.cpp:144-148 | no chunk is empty or larger than the block, and each starts where the one before ends |
| BlockIo.DoChunk | src/io/block_io.cpp:150-199 | one chunk keeps the device's bytes whatever fails, and its outcome and the replies left are those the script gives: read, written back in the way the flags and the alignment ask for, and compared with the medium if writes are verified |
| BlockIo.ChunkGoodIff | src/io/block_io.cpp:150-199 | without verification and fdatasync a chunk succeeds exactly when it lies inside the device and no reply it consumed is a fault |
| BlockIo.ChunkMoves | src/io/block_io.cpp:150-199 | it succeeds inside the device whenever every call moves something, fdatasync or not |
| BlockIo.QuietChunk | src/io/block_io.cpp:150-199 | once no more faults come nothing fails but the verification of a chunk that is not aligned |
| BlockIo.MaybePromote | src/io/block_io.cpp:62-77 | the span is promoted exactly when it is not empty, the poll is due or forced, and the probe says clean; then exactly its cells become Ok, and otherwise no cell changes |
| BlockIo.NoteGood | src/io/block_io.cpp:200-219 | a good chunk keeps the grid the exact image of failures and flushes, and the cached span the part not known to be flushed |
| BlockIo.NoteFailure | src/io/block_io.cpp:151-160 | a failed chunk is logged once and keeps the grid the image of the failures |
| BlockIo.LogsAreFailures | src/io/block_io.cpp:151-160 | the log has one entry for each failure, with its range and kind |
| BlockIo.ShowChunk | src/io/block_io.cpp:150-224 | log, byte count and grid move on by exactly one chunk |
| BlockIo.GridGood | src/io/block_io.cpp:200-219 | a good chunk turns its cells Ok or Cached and clears no error |
| BlockIo.GridFailure | src/io/block_io.cpp:151-160 | a failed chunk turns its cells into errors and no other |
| BlockIo.GridPromoted | src/io/block_io.cpp:214-227 | promoting a span of the processed range greens no failed and no untouched cell |
| BlockIo.BlamedIffMet | src/engine/progress.cpp:96-101 | a cell is blamed exactly when its range meets a failed chunk |
| BlockIo.BlameIsLast | src/engine/progress.cpp:99-111 | the status of a blamed cell is that of the last failure that meets it |
| BlockIo.RewriteChunk | src/io/block_io.cpp:150-224 | one loop pass moves device transfers, error list, log, byte count and grid on by one chunk |
| BlockIo.RewriteLoop | src/io/block_io.cpp:138-225 | one stop request is asked before each chunk; the chunks begun are those of the tiling before the first request, and the loop ends early exactly when there was one in time |
| BlockIo.FinalPromote | src/io/block_io.cpp:226-227 | the forced last poll promotes what is left of the cached span exactly when the probe says clean |
| BlockIo.RewriteAll | src/io/block_io.cpp:110-228 | the loop and the last poll of a run that could be set up |
| BlockIo.RewriteRange | src/io/block_io.cpp:92-229 | for every script of faults, probes and stops the device holds the same bytes and length; chunk k is begun exactly when none of the first k + 1 requests is a stop, and the run counts as stopped exactly when chunks are missing; each outcome is the one the script gives; transfers, error list, log and byte count are exactly those of the chunks; a cell is an error exactly when it meets a failed chunk, and otherwise Ok or Cached by what was flushed; ok means set up, not stopped and no errors; a run that cannot be set up changes nothing |
| BlockIo.RunGoodIff | src/io/block_io.cpp:138-225 | a run over chunks inside the device, without verification and fdatasync, has an empty error list exactly when no reply it consumed is a fault |
| BlockIo.RunMoves | src/io/block_io.cpp:138-225 | with fdatasync too, the error list is empty whenever every call moves something |
| BlockIo.ErrorsAreOps | src/io/block_io.cpp:150-199 | every error is a chunk of the run; it is a read error exactly when the transfer of its read failed |
| BlockIo.OpsAreErrors | src/io/block_io.cpp:150-199 | every transfer that fails is in the error list, with its kind |
| BlockIo.OpsAreRight | src/io/block_io.cpp:162-171 | every write goes out in the way the flags ask for: plain, or synchronous when writing through, and then direct where descriptor and alignment allow; every direct read is an aligned chunk to verify |
| BlockIo.ReadsAreChunks | src/io/block_io.cpp:150-152 | the read transfers of a run are exactly its chunks, once each and in order |
| BlockIo.WritesAreWritten | src/io/block_io.cpp:162-171 | the write transfers of a run are exactly the chunks that could be read, none in a dry run |
| BlockIo.WrittenApart | src/io/block_io.cpp:138-225 | disjoint chunks are written disjointly |
| Engine.RecordRewrite | src/engine/massage.cpp:81-94 | afterwards the stored extents of the path are the failures, one row each and in order, with offset and length, status 1 for a read error and 2 for a write error, and the time of the run; all other paths keep theirs; the path counts as massaged |
| Engine.RewrittenLedger | src/engine/massage.cpp:81-94 | so it is in the abstract catalog, for every list of failures |
| Engine.LedgerBytes | src/engine/massage.cpp:81-94 | the stored extents of a path name exactly the bytes of the chunks that failed |
| Engine.BlankNameUnclean | src/engine/massage.cpp:81-94 | a failure in a file with a blank FAT name makes a clean catalog unclean |
| Engine.RunOne | src/engine/massage.cpp:150-161 | rewrites a range with exactly the transfers of its chunks and records exactly its errors, except for a dry run without errors |
| Engine.FinalCell | src/engine/massage.cpp:185-190 | once the whole of a fresh map was processed and cached cells promoted, a cell is an error exactly when it meets a failed chunk and is Ok otherwise |
| Engine.SyncAndUpgrade | src/engine/massage.cpp:293-327 | cached cells are promoted after the sync exactly when the run wrote, did not write through and was not stopped |
| Engine.WaitForSync | src/engine/massage.cpp:309-318 | waits through all polls unless a stop is requested, which stays |
| Engine.LinearPass | src/engine/massage.cpp:185-190 | the rewrite phase over a fresh map, with its transfers |
| Engine.LinearRun | src/engine/massage.cpp:185-327 | whatever the kernel does, the outcomes are those its script gives, the device saw exactly the transfers of the chunks and the errors are the failed chunks; the chunks are the tiling of the whole device up to the first stop request; the bytes stored under `::linear` are exactly those of the failed chunks, one row for each failure; the grid shows failures, flushes and what was not reached, and un-stopped is the exact image of the errors; it returns zero exactly when no stop was requested in time, and for a device that is not empty zero means the whole of it was processed exactly when the run could be set up |
| Engine.FinishLinear | src/engine/massage.cpp:289-327 | the end of a run: its result, the sync, and what every cell shows, stopped or not |
| Engine.CountedAnyway | src/engine/massage.cpp:150-161 | a run that may write counts as a massage of the device even when it could not be set up |
| Engine.LinearTransfers | src/engine/massage.cpp:185-190 | a finished linear run read every byte exactly once in order, wrote exactly the chunks that could be read, and wrote no byte twice |
| Engine.WorkCovers | src/engine/massage.cpp:263-275 | the recursive work list names the bytes of all object extents in order and holds no empty range |
| Engine.WorkIsExtents | src/engine/massage.cpp:263-275 | an item is on the work list exactly when it is a non-empty extent of an object with its path |
| Engine.WorkRewritesOnce | src/engine/massage.cpp:263-287 | where no byte belongs to two objects the work items are disjoint and their total is the number of distinct bytes |
| Engine.FatWork | src/engine/massage.cpp:263-287 | so it is on a FAT volume with an injective table and entries that start apart |
| Engine.BuildWork | src/engine/massage.cpp:263-275 | the loop builds that work list with its total and upserts every object |
| Engine.CataloguedFinds | src/engine/massage.cpp:263-267 | every scanned object with a usable path is found in the catalog afterwards, with the size of the last one of that name, the SHA-1 stored before, and no massage and no verification |
| Engine.CataloguedClean | src/engine/massage.cpp:263-267 | cataloguing a scan keeps a clean catalog clean |
| Engine.RunWork | src/engine/massage.cpp:282-286 | the loop over the work list makes exactly the transfers of its items' chunks with the outcomes the script gives, asks for a stop before each item and each chunk and ends exactly at the first one, and records the ledger of each item |
| Engine.RunItem | src/engine/massage.cpp:282-286 | one turn of that loop |
| Engine.WrittenOnce | src/engine/massage.cpp:263-287 | where no byte belongs to two objects the write transfers of a run name no byte twice |
| Engine.ItemsFor | src/engine/massage.cpp:268-273 | the items of one object with their total, empty extents skipped |
| Engine.RecursiveRun | src/engine/massage.cpp:263-327 | a recursive run keeps the device's bytes and makes exactly the transfers of its items' chunks, with the outcomes the script gives; it returns zero exactly when no stop was requested in time; un-stopped its chunks are exactly the bytes of all object extents in order, with a stop a prefix of them; where no byte belongs to two objects its writes are pairwise disjoint; every object is catalogued and the failed chunks of each item are recorded; the grid is sized from the number of bytes |
| Engine.WorkFaults | src/engine/massage.cpp:263-287 | over ranges inside the device, without verification, such a run has no failure when every call moves something, and without fdatasync exactly when no reply it consumed is a fault |
| Engine.LastLedger | src/engine/massage.cpp:282-286 | the stored extents of a path are the failures of the last of its items that was recorded |
| Paths.SplitFilePath | src/db/store.cpp:48-74 | splits a path into the folders on the way and the base name, which is empty exactly when there is no component |
| Paths.CompsSlash | src/db/store.cpp:57-66 | a slash separates components |
| Paths.CompsName | src/db/store.cpp:57-66 | a text without slashes is one component, or none when empty; with the row above this fixes splitting |
| Paths.CompsRebuild | src/db/store.cpp:963-976 | splitting a rebuilt path gives back the same components |
| Paths.PrintedPaths | src/db/store.cpp:963-976 | the paths the recursive queries print are the rebuilt ones |
| FolderTree.Rooted | src/db/store.cpp:634-654 | following parents from any folder ends at the one root |
| FolderTree.CompsInjective | src/db/store.cpp:151-157 | a folder is determined by its components |
| FolderTree.NewRowid | src/db/store.cpp:151-157 | a new rowid is one more than the largest, or 1 |
| FolderTree.InsertKeepsTree | src/db/store.cpp:656-694 | inserting a missing edge under an existing parent keeps the tree and every old row |
| FolderTree.InsertAddsDir | src/db/store.cpp:656-694 | it adds exactly one path to the folders |
| FolderTree.FlatAt | src/db/store.cpp:819-864 | a file row is found in the flat map under its path and under no other |
| FolderTree.FlatPut | src/db/store.cpp:747-778 | writing a file row writes the flat map at its path |
| FolderTree.FlatDrop | src/db/store.cpp:1241-1256 | deleting a file row deletes its path from the flat map |
| FolderTree.UnderIsPrefix | src/db/store.cpp:1273-1289 | the folders of a subtree are those whose components extend its top's |
| FolderTree.FlatWithout | src/db/store.cpp:1273-1313 | deleting a subtree deletes exactly the files in its folders |
| FolderTree.DirsWithout | src/db/store.cpp:1273-1313 | and exactly the folders whose components extend its top's |
| FolderTree.ReusedRowidIsEmpty | src/db/store.cpp:1290-1313 | a rowid given out again after a deletion brings back no file |
| TreeQuery.TreeRows | src/db/store.cpp:963-970 | the recursive query terminates on arbitrary tables, cycles included, and yields every row reachable from a row without a parent exactly once, with its relative path |
| TreeQuery.TreeRelPath | src/db/store.cpp:963-970 | on a tree it yields every folder with its components joined by slashes |
| Stores.Store.constructor | src/db/store.cpp:112-184 | a new database is empty and valid |
| Stores.Store.EnsureEdge | src/db/store.cpp:656-694 | finds the row with an edge or inserts it under the next rowid |
| Stores.Store.EnsureVolume | src/db/store.cpp:601-632 | makes the volume and its root once and changes nothing else |
| Stores.Store.EnsureRoot | src/db/store.cpp:634-654 | returns the root row of an open volume |
| Stores.Store.EnsureFolders | src/db/store.cpp:741-746 | the walk down makes exactly the missing folders of the path; existing folders keep their rowids |
| Stores.Store.FindFolder | src/db/store.cpp:827-844 | finds the folder of a path, and fails exactly when no folder has it; existing folders keep their rowids |
| Stores.Store.EnsureFolder | src/db/store.cpp:1126-1138 | the tree survives exactly when the row was there or its parent exists and its name is proper |
| Stores.Store.UpsertSpecial | src/db/store.cpp:696-729 | stores a special object, keeping the old SHA-1 where the new record has none; existing folders keep their rowids |
| Stores.Store.UpsertFile | src/db/store.cpp:731-778 | stores a file record in the flat map with the folders on the way; a path without components is refused and changes nothing; existing folders keep their rowids |
| Stores.Store.UpsertObject | src/db/store.cpp:780-790 | stores a record of either kind; existing folders keep their rowids |
| Stores.Store.GetFile | src/db/store.cpp:819-864 | finds a file record exactly when the flat map has one under the path's components; existing folders keep their rowids |
| Stores.Store.GetObject | src/db/store.cpp:866-876 | finds exactly what the abstract catalog has for the path; existing folders keep their rowids |
| Stores.Store.BumpMassage | src/db/store.cpp:878-893 | sets size and time and counts one more massage on top of the old record; existing folders keep their rowids |
| Stores.Store.SetSha1 | src/db/store.cpp:895-906 | sets the SHA-1 on top of the old record; existing folders keep their rowids |
| Stores.Store.BumpVerify | src/db/store.cpp:908-925 | records a verification on top of the old record; existing folders keep their rowids |
| Stores.Store.ListObjects | src/db/store.cpp:927-992 | lists every record exactly once under the path it is listed by; existing folders keep their rowids |
| Stores.Store.ListFiles | src/db/store.cpp:963-990 | the join with the folder query lists every file exactly once |
| Stores.Store.KnownPaths | src/db/store.cpp:447-466 | exactly the paths the cross-reference query knows, on arbitrary tables |
| Stores.Store.ReplaceExtents | src/db/store.cpp:994-1038 | the rows of the path are replaced by the new ones, all other rows stay |
| Stores.Store.DeleteFile | src/db/store.cpp:1204-1257 | deletes the record and the extents stored under that very path; without a record nothing goes; existing folders keep their rowids |
| Stores.Store.DeleteFolder | src/db/store.cpp:1259-1314 | terminates and removes exactly the subtree, folders and files; the root, ids without a folder and non-positive ids remove nothing |
| Stores.Store.DeleteChildren | src/db/store.cpp:1273-1289 | takes out the subtrees of all children and nothing else |
| Stores.Store.DeleteBelow | src/db/store.cpp:1273-1313 | takes out the whole subtree of a folder |
| Stores.Store.DropFile | src/db/store.cpp:1233-1253 | deletes the file row of a path that was found; existing folders keep their rowids |
| Stores.Store.CountIssues | src/db/store.cpp:436-474 | on arbitrary tables counts exactly the folders without parent, files without folder and extents with unknown path |
| Stores.NoIssues | src/db/store.cpp:436-474 | zero issues exactly when every non-zero parent exists, every file's folder exists and every extent path is known to the queries |
| Stores.KnownOnTree | src/db/store.cpp:447-474 | on valid tables the query's known paths are the objects and the canonical paths of folders and files |
| Stores.CleanMeansNoIssues | src/db/store.cpp:436-474 | a valid catalog has no issue exactly when it is clean |
| Stores.ContentsWellFormed | src/db/store.cpp:144-163 | valid tables mean a catalog where every folder's parent and every file's folder is a folder |
| Catalog.LookupUpserted | src/db/store.cpp:731-778 | after an upsert every path with the same components finds the record, and every other path finds what it found before |
| Catalog.ListingIsLookup | src/db/store.cpp:927-992 | what is listed under a path is what looking it up finds, and whatever a path finds is listed under its canonical form |
| Catalog.UpsertWellFormed | src/db/store.cpp:731-778 | an upsert keeps every file in a folder and every folder below its parent |
| Catalog.UpsertClean | src/db/store.cpp:696-778 | an upsert keeps a clean catalog clean |
| Catalog.LedgerKept | src/engine/massage.cpp:81-94 | after a rewrite was recorded the extents of its path are exactly the recorded ones and those of other paths are as before |
| Catalog.ReplacedAt | src/db/store.cpp:994-1038 | after a replacement the rows of the path are the new spans in order, field by field, and those of every other path are as before |
| Catalog.MassageCounts | src/db/store.cpp:878-893 | counting a massage sets size and time, adds one to the count, and changes no other field |
| Catalog.RewriteCounts | src/engine/massage.cpp:81-94 | recording a rewrite sets size and time, adds one to the count of massages, and changes no other field of the record |
| Catalog.VerifyCounts | src/db/store.cpp:908-925 | counting a verification sets status and time, adds one to the count, takes the SHA-1 if one was found, and changes no other field |
| Catalog.Sha1Set | src/db/store.cpp:895-906 | setting the SHA-1 changes no other field |
| Catalog.RewriteClean | src/engine/massage.cpp:81-94 | recording a rewrite keeps the catalog clean exactly when nothing failed, the path is special, or it is the canonical path of a file, or of an existing root |
| Catalog.DeleteClean | src/db/store.cpp:1204-1257 | deleting a file keeps the catalog clean exactly when the path is special or canonical, or no such file is there, or a folder has that path too, or no extent is stored under the canonical path |
| Catalog.DeleteLeavesOrphan | src/db/store.cpp:1230-1256 | the case that fails: deleting `//a` leaves the extents of `/a` |
| Catalog.FolderDeleteClean | src/db/store.cpp:1259-1314 | deleting a folder keeps the catalog clean exactly when every extent is special, or its path lies outside the folder, or it is the folder's own path and a file has that path too |
| Catalog.FolderDeleteLeavesOrphan | src/db/store.cpp:1259-1314 | the case that fails: deleting folder `d` leaves the extents of `/d/a` |
| Catalog.RewriteLeavesOrphan | src/engine/massage.cpp:81-94 | recording a failure for `/d/` makes any clean catalog unclean |
| CatalogRuns.Drive | src/db/store.cpp:731-1314 | over any sequence of commands the tables stay valid at every step, and each step does to the flat view exactly what the command says; every rowid keeps its folder, but for a folder deletion, which takes out exactly the rowids of the subtree |
| CatalogRuns.StepFrame | src/db/store.cpp:731-1314 | one such command leaves the record alone |
| CatalogRuns.RunRefines | src/db/store.cpp:731-1257 | a run of commands by path does to the flat view what the commands say one after the other |
| CatalogRuns.RunFrame | src/db/store.cpp:731-1314 | a path keeps its record over a whole run of commands that name other records, only read, make folders, or delete folders not on the way to it |
| CatalogRuns.FolderKept | src/db/store.cpp:1259-1314 | a rowid keeps its folder over a run unless the folder or one above it is deleted |
| CatalogRuns.StartFolders | src/gui/browser.cpp:1104-1125 | in a run that deletes folders known at its start, none at or below one deleted earlier, every rowid names its first folder until that one is taken out, so deletions by rowids read beforehand hit the right folders |
| CatalogRuns.StartFrame | src/gui/browser.cpp:1104-1125 | in such a run a path keeps its record when the commands spare it, judged by the rowids of the start alone |
| CatalogRuns.StepClean | src/engine/massage.cpp:81-94 | upserts, rewrites of special or canonical paths, the root included where there is one, and deletions by such paths keep the catalog clean |
| CatalogRuns.RunClean | src/db/store.cpp:436-474 | so does any run of them |
| CatalogRuns.NoIssueAfter | src/db/store.cpp:436-474 | from any clean store on, over any run of such commands the catalog is clean at every step, and the check, which counts the broken links of the tables, counts zero at the end |
| CatalogRuns.NeverAnIssue | src/db/store.cpp:436-474 | so it is from an empty database on, or one with just a root |
| VerifyQueue.JobIff | src/gui/browser.cpp:902-912 | a row gets a job exactly when its file is on disk and in the database, is no folder and was not verified recently |
| VerifyQueue.FillRows | src/gui/browser.cpp:876-914 | the row loop gives every row its fresh status and makes the jobs in row order |
| VerifyQueue.Browser.BeginShowFolder | src/gui/browser.cpp:927-928 | the rows go while the epoch and the list on screen stay |
| VerifyQueue.Browser.Denied | src/gui/browser.cpp:982-988 | an unreadable folder empties the list and keeps the epoch |
| VerifyQueue.Browser.FillList | src/gui/browser.cpp:861-919 | a new epoch, and jobs of that epoch for the rows now shown |
| VerifyQueue.Browser.EnqueueVerifies | src/gui/browser.cpp:1022-1042 | the queue is replaced by a cancel message and the new jobs |
| VerifyQueue.Browser.Pop | src/gui/browser.cpp:1049-1061 | takes the next message and drops cancel messages |
| VerifyQueue.Browser.CheckEpoch | src/gui/browser.cpp:1062-1063 | drops a job of another epoch |
| VerifyQueue.Browser.FinishHash | src/gui/browser.cpp:1064-1085 | posts one result for the hashed job |
| VerifyQueue.Browser.RunPosted | src/gui/browser.cpp:1085-1101 | a result paints exactly when its epoch is current and its row is shown, and then it hits the row of the hashed file |
| VerifyQueue.Take | src/gui/browser.cpp:861-1102 | one step of either thread changes the state as the reference step function says |
| VerifyQueue.Interleave | src/gui/browser.cpp:861-1102 | every schedule runs through the states of the reference steps, and in every one of them every paint was of the epoch it happened in and hit the hashed file's row, and every mark in the list comes from the database or from such a paint |
| VerifyQueue.ServingStep | src/gui/browser.cpp:1022-1102 | from the moment a list is shown, any step but navigation keeps its jobs on their way in row order, none lost and none doubled, and every row showing what was painted on it |
| VerifyQueue.Delivered | src/gui/browser.cpp:861-1102 | in every run, once nothing is on its way after a list was shown and before the user turns elsewhere, exactly the rows that want a hash were painted in that epoch, once each and in row order; every row shows the result of its hash, or how it fared not long ago, or that it waits, or where its file is missing, each exactly when it should |
| VerifyQueue.Settles | src/gui/browser.cpp:1049-1101 | while something is on its way a step of the worker or a paint can be taken, and each leaves less to do |
| VerifyQueue.OneFileDelivered | src/gui/browser.cpp:861-1102 | such runs exist: a folder with one file is opened, the file is hashed, and its row shows the result |

## Left out

- SQLite itself: statements succeed, row order (`ORDER BY`), journaling, integrity pragmas, migration and import of older databases are not modelled; a text is compared as it is, without the cut at a NUL character.
- Several volumes: the tables hold the rows of the one current volume, so volume ids are not columns.
- Mounting, FUSE, device probing, privilege handling, shell commands and the SHA-1 pass after the rewrite.
- Rates, remaining time and clocks: timestamps are parameters; log messages other than error entries.
- Waiting for flushes inside a chunk (src/io/block_io.cpp:181-182) and the probes' system calls: a probe answers what its script says.
- Widgets, icons, sorting criteria and the count of pending hashes in the browser; a rearrangement is any permutation of the rows. The catalog writes of the verify worker and its shutdown.
- Partitioned devices: each partition is one `Engine.RunOne`; the grid of such runs is sized from the sum of lengths but marked at device offsets, so it is not an image of the ledger.
- Engine.RecursiveRun: does not say that the stored bad extents are all failures of the run, because each extent of a file replaces the stored rows of the previous one for its path (src/engine/massage.cpp:282-286), nor that the grid is the image of the ledgers, because cells are sized from the sum of lengths and marked at device offsets.
- Engine.LinearRun: requires a device and block size below 2^62 bytes, so that no 64-bit sum wraps; offsets are stored as they are, without the cast to signed 64 bits.
- BlockIo.RewriteRange: requires that offset + length and the rounded block size fit in 64 bits.
- Grid.Progress.Reset: requires totals and block sizes below 2^62, so that `total + cell - 1` cannot wrap.
- Fat.ScanObjects: takes the directory entries as given; of the decoding of directory records only short names are modelled, and long names, the FAT12/16 root directory and cyclic directory trees are not.
- Fat.ChainExtents: requires a layout whose addresses stay below 2^63 and whose `clusters + 2` does not wrap in 32 bits.
- ExFat.ChainByTable: requires a layout whose cluster addresses fit in 64 bits, and so do the other members on exFAT chains; on the layouts that fail `ExFat.GeometryValid` nothing is promised of the walk.
- exFAT directories, which the source reads with `whole_chain`, and the parsing of exFAT directory entries.
- Ntfs.ReadSigned: requires at most eight bytes, since for more the shifts of the source have no meaning; the bytes are added where the source combines them with OR, which is the same for bytes in different positions.
- Ntfs.DecodeRunsAllocated: requires runs whose addresses fit in 64 bits and whose cluster numbers fit in signed 64 bits.
- NTFS attribute lists and the MFT scan.
- ExtTree.ParseExtents: requires that index nodes do not lead into each other without end and that a node's entries lie in its block, since the source recurses without a bound and reads entries without a check; on trees of more than one node with uninitialised or zero-length entries, or with inconsistent depths, the result is stated child by child and not as one flat scan, because there a child is parsed for the bytes its parent still misses and unwritten runs do not count for the parent. An extent that ends at exactly 2^64 is not merged with one at address 0, where the source would.
- ExtWalk.Scan: takes inodes and directory records as given; the byte layout of superblocks, inodes and directory records is not modelled, and an inode's extents are an opaque success or failure.
- Devices.Device.ReadExact: the source has one routine with a direction flag; the model has one method per direction. The bad-descriptor check is left out.
