# A verified model of the single-file Linux filesystem

The library keeps a Linux filesystem inside one host file. This project models five parts of it in
Dafny and proves what they promise each other:

* **File data** (`src/inner.rs`). A file's bytes may be inline in its inode, in raw extents, in LZ4
  records stored copy-on-write, or in the single write-back record cache that all files share.
  `FileData.Inner` has the methods; `Ownership`, `FileView`, `FileWrites` and `FileCuts` hold the reasoning
  on values; `FileLeftovers` calls the methods to show what uncompressed files can be left with. Whatever the
  form, a reader sees one byte sequence, no write disturbs another file, and no block is lost or owned twice.
* **Space** (`src/alloc.rs`, `src/store.rs`, `src/cache.rs`). The best-fit allocator with coalescing, growth
  and shrinking, its snapshot in blocks, the growable image, and the LRU block cache over it.
* **Namespace** (`src/inner.rs`, `src/path.rs`). `Tree` is a state machine over entries, link counts, open
  handles and `..` entries; `TreeInvariant`, `TreeSteps` and `TreeResults` prove its invariant over every
  run, and `TreeLaws` says of each call when it is refused and what it does to names, in terms of entries alone;
  `Namespace.Inner` is the code over entry lists, proved to take exactly those steps. `Path` and `Walk`
  cover path walks, `WalkLaws` says where a walk arrives, and `WalkEnds` when it ends.
* **Log and checksums** (`src/journal.rs`, `src/crc.rs`). Serialisation and replay of the metadata log, what replay
  accepts on any bytes and after damage (`JournalLaws`), whole sessions from the first commit to the replay
  (`Recovery`), and the table-driven CRC-32 (the one of section 8 of RFC 1952 and of the frame check sequence of
  section 3.2.9 of IEEE 802.3).
* **Layouts** (`src/format.rs`, `src/inner.rs`). Superblock, inode, directory and extent-tree encodings, and in
  `FormatLaws` what any bytes are read as, by offsets.

## How the model stands to the code

Objects that the code updates in place are classes with the same fields, and every method that changes state
says what the new state is, as a function of the old one; the functions are then the subject of the lemmas. The
`TreeLaws`, `WalkLaws`, `JournalLaws` and `FormatLaws` modules state what those functions must give without using them:
through entries, types, counts of calls, byte offsets and literal constants.
`Inner` appears twice, in `FileData` for the bytes of files and in `Namespace` for names: the two halves of
one struct. `DirCodec` writes a directory's entries to a file of `FileData` and parses them back, and `DirFiles`
shows that the lists and the files agree over any run.
Ghost state is limited to `FileData.Inner.owner` (which file holds each block), `Journal.Transaction.ops`, and
`txs` and `unwrapped` of `Journal.Log`. LZ4 is a pair of functions assumed to be inverse with non-empty output (`Compress.Lossless`).

A file of `FileData` is *clean* when nothing but zeros is kept past its end. That is the invariant behind
every statement on gaps and extensions: a file whose compression is on stays clean under writes, cuts and
flushes, so over any run such files behave like plain byte sequences, from their creation on, whatever happens to
other files meanwhile (`FileData.Inner.Run`).

Five statements one would expect turn out not to hold of the code; each has its exact condition:

* The repository's README says that reads in a hole return zeros. An uncompressed write does not clear a recycled
  block: the file reads as a plain overwrite, whatever the block held, if and only if no unwritten byte of the new
  blocks lies inside the file (`FileWrites.PlainForAnyLeftoversIff`). In `FileLeftovers.RecycledBlockShows` a block
  filled by one file and given back shows in the first bytes of the next.
* An uncompressed cut does not clear the tail of the last kept block. The file stays clean if and only if it
  goes back into its inode or that tail was zero (the `Truncated` clause of `FileData.Inner.TruncateData`).
  `FileCuts.CutThenExtended` gives what a file cut and then extended reads as, and `FileLeftovers.CutShowsOldBytes`
  does it: the old bytes are back.
* `rename` looks for the moved directory among at most 4096 ancestors of the new parent. Directories stay a
  tree if and only if none slips below itself past that search (`TreeSteps.StepInv`; `TreeResults.DeepRename`
  is a case with 4099 levels).
* `walk` counts symlink hops anew in every call, so `ELOOP` is never answered (`Walk.WalkNeverLoops`) and a
  symlink to itself is followed without end (`Walk.SelfLinkNeverEnds`). A walk ends if and only if it never meets a
  symlink, from the same directory, inside that symlink's own expansion, which the links alone decide
  (`WalkEnds.EndsIff`).
* When the log wraps, old records stay behind the head. Replay finds exactly the transactions logged since the
  wrap if and only if what follows them does not parse (`Journal.LogRecoveredIff`); otherwise an older transaction is
  applied after a newer one (`Journal.StaleAfterWrap`; three commits and a replay in `Recovery.WrapThenReplay`).

An inode comes back from its encoding exactly when it is in use and its data is where its kind says and fits there
(`Layout.PersistsIff`).

## Model

| member | source | states |
|---|---|---|
| `Store.Image.GrowTo` | src/store.rs:42-52 | growing rounds up to 1 MiB of zeros and changes no block |
| `Store.Image.ShrinkTo` | src/store.rs:54-61 | shrinking keeps the prefix; it never grows the file |
| `Store.Image.WriteBlock` | src/store.rs:70-90 | after a block write, at any block number, that block reads as written and every other block as before |
| `Store.ShrunkBlock` | src/store.rs:54-61 | after a cut, kept blocks read the same and cut blocks read zero |
| `Cache.BlockCache.Touch` | src/cache.rs:29-34 | the block moves to the end of the recency list |
| `Cache.BlockCache.EvictOne` | src/cache.rs:36-46 | the oldest cached block goes, written back if dirty; no block reads differently |
| `Cache.BlockCache.Get` | src/cache.rs:48-64 | returns what an uncached disk would hold, and changes no block's view |
| `Cache.BlockCache.GetMut` | src/cache.rs:66-74 | as `Get`, and the block is marked dirty |
| `Cache.BlockCache.InsertDirty` | src/cache.rs:76-84 | the view changes at that block only |
| `Cache.BlockCache.Flush` | src/cache.rs:93-101 | the image becomes equal to the view and every entry is clean, for any order of the entries |
| `Cache.BlockCache.DropFrom` | src/cache.rs:114-117 | exactly the blocks from the bound on are forgotten, in the table and in the recency list |
| `Cache.RunKeepsLastUses` | src/cache.rs:29-83 | after any trace the recency list is the last `capacity` distinct blocks in order of last access |
| `Alloc.Allocator.FindBest` | src/alloc.rs:58-67 | finds a smallest run that fits, the lowest start on ties, or that none fits |
| `Alloc.Allocator.Allocate` | src/alloc.rs:54-86 | hands out the best fit, grows the image only when nothing fits, and takes no other block |
| `Alloc.ChosenTook` | src/alloc.rs:54-86 | wherever an allocation lands its blocks were free or new, they alone leave the free map, and the map stays coalesced |
| `Alloc.Allocator.Free` | src/alloc.rs:88-107 | the run joined with what touches it; where its blocks had been handed out, exactly they become free and the map stays coalesced |
| `Alloc.FreedCovers` | src/alloc.rs:88-107 | joining the neighbours of a freed run frees exactly that run and leaves no two runs adjacent |
| `Alloc.Allocator.MaybeShrink` | src/alloc.rs:110-134 | shrinks exactly when the last run reaches the end and is longer than 64 blocks; only free blocks are cut, and the image is cut where the blocks now end |
| `Alloc.LongTailIff` | src/alloc.rs:110-134 | that is exactly when the last 65 blocks are free; of the free blocks that end the image 64 are kept |
| `Alloc.ShrinkCovers` | src/alloc.rs:110-134 | shortening the last run loses exactly the cut blocks from the free map |
| `AllocSnapshot.Encode` | src/alloc.rs:136-147 | the loop over the free map writes the runs in ascending order |
| `AllocSnapshot.Decode` | src/alloc.rs:149-174 | decoding any bytes: the errors, and the runs read, empty ones dropped |
| `AllocSnapshot.EncodeDecode` | src/alloc.rs:136-174 | decoding undoes encoding |
| `AllocSnapshot.OneMoreRun` | src/alloc.rs:222-227 | an allocation adds at most one run, so the size estimated before it suffices |
| `AllocSnapshot.WriteAllocBlocks` | src/alloc.rs:204-246 | the old snapshot's blocks, as many as its header tells, are freed, the new ones taken and marked used in the snapshot itself, no other block is written, reading gives exactly the allocator in memory, and the next call will free exactly these blocks |
| `AllocSnapshot.ReadAllocBlocks` | src/alloc.rs:248-273 | reading any blocks: header checks, reassembly in pieces of 4080 bytes, then decoding |
| `AllocSnapshot.SnapshotReadBack` | src/alloc.rs:204-273 | the pieces of 4080 bytes reassemble and decode to what was written |
| `AllocSnapshot.OldRunBack` | src/alloc.rs:210-221 | the header of a written snapshot tells the next writer how many blocks to free |
| `FormatLaws.SnapshotIff` | src/alloc.rs:149-174 | any bytes: a snapshot is refused exactly when it is short, of another magic or missing records; otherwise a start is free exactly as its last non-empty record says |
| `FormatLaws.SnapshotRead` | src/alloc.rs:248-273 | any image: which block numbers and headers cannot be read, and which byte of which block each byte of the snapshot is |
| `Crc.CrcTable` | src/crc.rs:5-23 | every table entry is eight steps of the shift register |
| `Crc.UpdateCrc` | src/crc.rs:29-35 | the loop computes the bit-at-a-time CRC of the data |
| `Crc.Crc32UpdateIsBitCrc` | src/crc.rs:5-35 | the table-driven update equals the bit-at-a-time CRC on every input |
| `Crc.Crc32UpdateComposes` | src/crc.rs:29-35 | updating by `a` and then `b` is updating by `a + b` |
| `Crc.BitStepsInjective` | src/crc.rs:8-18 | any number of register steps is a bijection on 32-bit states |
| `Crc.BurstDetected` | src/crc.rs:25-35 | strings that differ only inside a window of at most 4 bytes have different checksums |
| `Crc.CheckValue` | src/crc.rs:5-27 | the checksum of the bytes FF FF FF 7F is 12477CDF: polynomial, initial value and final complement |
| `Compress.HeaderRoundTrip` | src/compress.rs:74-128 | a plausible record header parses back from any buffer that starts with it |
| `Compress.PackRoundTrip` | src/compress.rs:133-164 | a record worth compressing reads back exactly and takes fewer blocks than its data |
| `Compress.PackedIff` | src/compress.rs:133-148 | a record is packed exactly when asked for, at least two blocks long, and a block shorter with its header of 20 bytes |
| `Compress.HeaderIff` | src/compress.rs:92-128 | any bytes: which are taken for a record header, by their offsets and the plausibility tests, and what it says |
| `Compress.PayloadBurst` | src/inner.rs:798-816 | a payload changed inside a window of at most 4 bytes is answered with the I/O error |
| `Extents.AddedSpot` | src/inner.rs:542-586 | adding an extent, merged or inserted, changes the logical map at its own blocks only |
| `Extents.AddedOwns` | src/inner.rs:542-586 | the file then owns what it owned and the new blocks |
| `Extents.AddedSound` | src/inner.rs:542-586 | extents stay sorted, disjoint and well formed |
| `Extents.AddedCount` | src/inner.rs:542-586 | a plain extent that continues the last one, in the file and in the image, does not add another extent; any other does |
| `Extents.PunchedSpot` | src/inner.rs:681-739 | punching removes exactly the given range from the logical map |
| `Extents.PunchedOwns` | src/inner.rs:681-739 | the file keeps exactly the blocks that the punch did not free |
| `Extents.PunchedSound` | src/inner.rs:681-739 | extents stay sorted, disjoint and well formed |
| `Records.ReplacedSpot` | src/inner.rs:755-796 | replacing a record updates the logical map at that record alone |
| `Records.ReplacedStored` | src/inner.rs:755-796 | storing a record changes the bytes of that record alone, to the data padded with zeros |
| `Records.PunchedStored` | src/inner.rs:755-761 | punching a record makes its bytes zero and leaves the others |
| `Records.StoredSame` | src/inner.rs:818-843 | a file's stored bytes depend only on the blocks it owns |
| `Ownership.PunchKeeps` | src/inner.rs:681-739 | a punch keeps every ownership invariant and loses no block |
| `Ownership.AddKeeps` | src/inner.rs:542-586 | adopting allocated blocks keeps every ownership invariant |
| `Ownership.PlaceConserves` | src/inner.rs:777-788 | moving a record to new blocks frees the old ones and loses none |
| `FileView.ReadKeeps` | src/inner.rs:818-861 | moving blocks between the cache and the image changes no file |
| `FileView.FlushKeeps` | src/inner.rs:651-659 | storing the dirty record changes where its bytes live and nothing else, for any file |
| `FileView.CachedByte` | src/inner.rs:845-861 | the cached record gives the file's bytes, all of them if dirty, those inside the file if clean |
| `FileWrites.WriteDone` | src/inner.rs:917-937 | a finished chunked write, with the size raised, is an overwrite of the plain bytes |
| `FileWrites.OwnBlocksOnly` | src/inner.rs:895-915 | changes to one file's own blocks leave every other file and the record cache as they were |
| `FileWrites.RawOverwriteIff` | src/inner.rs:895-915 | an uncompressed write is a plain overwrite exactly when every visible exposed byte of its new blocks was zero |
| `FileWrites.PlainForAnyLeftoversIff` | src/inner.rs:895-915 | it is one whatever those blocks held before, if and only if none of their unwritten bytes lies inside the file |
| `FileWrites.StaleByteShows` | src/inner.rs:895-915 | an exposed byte reads as whatever the recycled block held there |
| `FileWrites.PlainIfNothingShows` | src/inner.rs:977-1046 | for a write that exposes nothing the new contents are the plain overwrite |
| `FileCuts.CutBytes` | src/inner.rs:1082-1093 | cutting a compressed file keeps its prefix and leaves nothing but zeros past the cut |
| `FileCuts.CutThenExtended` | src/inner.rs:1094-1150 | an uncompressed file cut and then extended reads as its kept blocks, old bytes included, and zeros behind them |
| `FileCuts.CutRawContent` | src/inner.rs:1094-1127 | an uncompressed cut keeps the prefix, and leaves a clean file clean exactly when the tail of the last kept block was zero |
| `FileData.Inner.constructor` | src/inner.rs:60-124 | a new image of zeros: its least sizes, the inode table's two blocks taken, the rest one free run, no files |
| `FileData.Inner.WritePhysicalBytes` | src/inner.rs:741-753 | exactly the record's blocks are written, the last one padded with zeros |
| `FileData.Inner.FreeExtentPhysical` | src/inner.rs:677-679 | the extent's physical run is given back; where its blocks were in use, exactly they become free |
| `FileData.Inner.PunchLogicalRange` | src/inner.rs:681-739 | the extents, the owner table and the free map after a punch, with no block lost |
| `FileData.Inner.AddExtent` | src/inner.rs:542-586 | the extents and the owner table after an extent is added |
| `FileData.Inner.StoreRecord` | src/inner.rs:755-796 | the record holds the data padded with zeros and no other byte of any file changes; its blocks are a hole when it is all zero, packed when that was asked for and saves a block, and raw otherwise |
| `FileData.Inner.FlushRecordCache` | src/inner.rs:651-659 | the record cache is empty and no file reads any differently |
| `FileData.Inner.ReadCompressedExtent` | src/inner.rs:798-816 | what a compressed extent's blocks decode to, or the error |
| `FileData.Inner.LoadRecord` | src/inner.rs:818-843 | the record's bytes as stored, as far as the file goes |
| `FileData.Inner.CachedRecord` | src/inner.rs:845-861 | the record is in the cache, the one that was there is stored, and no file reads differently |
| `FileData.Inner.ReadDataRaw` | src/inner.rs:863-893 | an uncompressed read returns the mapped bytes and zeros for holes |
| `FileData.Inner.ReadData` | src/inner.rs:939-975 | returns the slice of the file's plain bytes and changes no file, whatever it evicts |
| `FileData.Inner.WriteDataCompressed` | src/inner.rs:917-937 | every byte of the file after a write through the record cache |
| `FileData.Inner.PromoteInline` | src/inner.rs:588-620 | an inline file's bytes are the same once they live in blocks |
| `FileData.Inner.AllocateLogical` | src/inner.rs:622-635 | a mapped block is reused, and a hole gets the one block that the allocator chooses |
| `FileData.Inner.WriteDataRaw` | src/inner.rs:895-915 | every byte of the file after an in-place write, including what a fresh block exposes, and which block an empty file gets |
| `FileData.Inner.WriteData` | src/inner.rs:977-1046 | errors in order; what was written reads back; where nothing is exposed the file is the overwrite of its old bytes with zeros in the gap; when it leaves its inode, and which block a first write takes; no other file changes; no block is lost |
| `FileData.Inner.TruncateData` | src/inner.rs:1048-1150 | errors in order; the prefix is kept, extension reads zeros on clean files, exactly which cuts keep a file clean, and that a cut to nothing gives back exactly the file's blocks uncleared; no other file changes; no block is lost |
| `FileData.Inner.NewFile` | src/inner.rs:332-337 | a new inode is an empty clean file with the default compression |
| `FileData.Inner.SetInodeCompression` | src/inner.rs:1152-1162 | the setting is the one asked for and the packed mark is never taken away; none of the file's bytes changes |
| `FileData.Inner.DropFile` | src/inner.rs:340-365 | errors in order; the file is gone, its blocks and no others become free, and no other file changes |
| `FileData.Inner.ShrinkTail` | src/inner.rs:1750-1752 | shrinks exactly when the last free run reaches the end and is longer than 64 blocks, and changes no file |
| `FileData.Inner.Run` | src/inner.rs:755-1150 | over any run of operations on any files, those that use compression give the answers and final contents of plain byte sequences, from their creation on, and blocks are conserved |
| `FileLeftovers.CutShowsOldBytes` | src/inner.rs:1094-1150 | a filled file cut to 150 bytes and extended by one reads an old byte |
| `FileLeftovers.RecycledBlockShows` | src/inner.rs:622-635 | after a filled file is cut to nothing, a write at offset 1 of a new file leaves an old byte at offset 0 |
| `DirCodec.EncodeDir` | src/inner.rs:1785-1799 | the encoding loop writes the header and the padded entries in order |
| `DirCodec.DecodeDir` | src/inner.rs:1801-1829 | decoding any bytes: an empty directory, the errors, or the entries |
| `DirCodec.DirRoundTrip` | src/inner.rs:1785-1853 | decoding undoes encoding for any entries whose names fit a u16 length |
| `FormatLaws.DirIff` | src/inner.rs:1801-1830 | any bytes: a directory file is read as exactly the entries that lie in it, names rounded up to four bytes, unknown type codes as files, and refused otherwise |
| `FormatLaws.DirLies` | src/inner.rs:1785-1799 | a written directory is its magic, its count, the entries one behind the other, and nothing more |
| `DirCodec.WriteDirEntries` | src/inner.rs:1178-1193 | errors told apart; the directory file then holds exactly the encoded entries, or none when they are too long for a file; no other file changes |
| `DirCodec.WriteThenParse` | src/inner.rs:1166-1193 | parsing a directory that was written gives the entries that were written |
| `DirFiles.RunActs` | src/inner.rs:1166-1193 | over any run of directory rewrites and reads among any other file operations, the files decode to the lists last written, and each read returns its list |
| `DirFiles.WriteBoth` | src/inner.rs:1178-1193 | rewriting a directory keeps the namespace's lists and the directory files the same |
| `ExtentTree.LoadExtentTree` | src/inner.rs:388-439 | what loading makes of any tree blocks, in both layouts, and the block count it records |
| `ExtentTree.StoreExtentTree` | src/inner.rs:441-493 | the old tree is freed; more than six extents go, 204 to a block, to freshly taken blocks and nowhere else; what the inode records of it |
| `ExtentTree.TreeRoundTrip` | src/inner.rs:388-493 | loading a stored tree gives every extent's logical start, physical start and length |
| `FormatLaws.TreeRead` | src/inner.rs:388-439 | any blocks: how many extents and blocks a tree of either layout is read as, and where each extent lies |
| `Layout.InodeRoundTrip` | src/format.rs:348-474 | decoding an encoded inode gives what persists of it; an inode without a mode counts as unused |
| `Layout.PersistsIff` | src/format.rs:348-474 | decoding gives back the inode itself exactly when its mode is not zero and its data is where its kind says and fits |
| `Layout.InodeRejectsBurst` | src/format.rs:403-411 | no change of at most 4 consecutive checksummed bytes of an accepted inode is accepted |
| `Layout.SuperRoundTrip` | src/format.rs:69-171 | decoding an encoded superblock gives it back, with at most 16 inode-table extents |
| `Layout.SuperRejectsBurst` | src/format.rs:109-117 | no change of at most 4 consecutive checksummed bytes of an accepted superblock is accepted |
| `FormatLaws.InodeIff` | src/format.rs:403-474 | any bytes: an inode is read exactly when it is long enough, sealed and in use, and as the fields at their offsets |
| `FormatLaws.SuperIff` | src/format.rs:109-171 | any bytes: a superblock is read exactly when it is sealed, of this magic, version and block size, and as the fields at their offsets |
| `Tree.ValidateName` | src/path.rs:294-305 | which names are accepted, and which error the others get |
| `Tree.ReachesIff` | src/inner.rs:1579-1592 | the bounded search finds an ancestor exactly when it is at most that many steps up |
| `TreeInvariant.BindKeeps` | src/inner.rs:1204-1222 | naming a file, or a nameless directory where its `..` points, keeps the structure of the tree |
| `TreeInvariant.TallyBind` | src/inner.rs:1402-1424 | a file's new name counts for the file, a directory's for it and for its parent |
| `TreeInvariant.TallyUnbind` | src/inner.rs:1466-1476 | a removed name counts once less for a file, and for a directory and its parent |
| `TreeSteps.RerouteIff` | src/inner.rs:1559-1575 | moving a directory under a new parent keeps every `..` chain leading to the root exactly when the new parent is not below it |
| `TreeSteps.RenameStep` | src/inner.rs:1513-1577 | an admitted rename, replacing a destination or not, keeps names, counts and handles, and the tree exactly when no directory goes below itself |
| `TreeSteps.OpenIff` | src/inner.rs:1696-1698 | a new handle keeps the invariant exactly when its inode exists |
| `TreeSteps.CloseStep` | src/inner.rs:1700-1714 | closing, with or without dropping the inode, keeps the invariant |
| `TreeSteps.StepInv` | src/inner.rs:1381-1577 | every create, link, unlink, rename, open and close keeps the whole invariant, exactly when it is safe |
| `TreeSteps.ShallowIsSafe` | src/inner.rs:1579-1592 | a rename into a directory at most 4096 levels deep is always safe |
| `TreeSteps.RunInv` | src/inner.rs:1381-1714 | the invariant holds after every safe run |
| `TreeSteps.FreshInv` | src/inner.rs:126-132 | a new image satisfies it |
| `TreeResults.HandlesRun` | src/inner.rs:1696-1714 | over any safe run the handle count of an inode is its opens less its closes, never below zero |
| `TreeResults.DroppedExactly` | src/inner.rs:1428-1486 | a file is dropped by the very step that leaves it with neither name nor handle, the handles counted on the calls; until then its link count is the number of its names |
| `TreeResults.OpenSurvives` | src/inner.rs:319-365 | while an inode has been opened more often than closed, counted on the calls, it exists with the same type and its number is handed to nobody else, over any safe run |
| `TreeResults.RemovedDirStays` | src/inner.rs:1466-1484 | over any safe run a directory stays, removed or not, and its number is handed to nobody else; without a name it keeps one link of its own |
| `TreeResults.RenameMoves` | src/inner.rs:1513-1577 | a rename that moves something binds the new name to the source, removes the old one, repoints a moved directory's `..`, and changes no other entry |
| `TreeResults.DeepRename` | src/inner.rs:1534-1536 | renaming directory 2 under directory 4099 of a chain is admitted and cuts both off from the root |
| `TreeLaws.CreateRefused` | src/inner.rs:1381-1396 | a create is refused exactly where the directory is missing, is none, or has the name |
| `TreeLaws.LinkRefused` | src/inner.rs:1488-1505 | a link is refused there too, and exactly when its target is missing or a directory |
| `TreeLaws.UnlinkRefused` | src/inner.rs:1428-1465 | a removal is refused exactly when the name is missing, of the other kind, or of a directory with an entry besides `.` and `..` |
| `TreeLaws.RenameRefused` | src/inner.rs:1513-1557 | a rename is refused exactly when a directory would go below itself within 4096 levels, or would replace another inode that is of the other kind or a directory with entries |
| `TreeLaws.CreateMakes` | src/inner.rs:1398-1425 | a create binds the name to a new inode of that type, whose only name it is, with its own `.` and `..`, and changes no other entry |
| `TreeLaws.LinkMakes` | src/inner.rs:1506-1510 | a link binds the free name to its target, which gains exactly that name, and changes no other entry |
| `TreeLaws.UnlinkTakes` | src/inner.rs:1466-1486 | a removal takes exactly that entry; no other inode goes, and no directory |
| `TreeLaws.RenameStays` | src/inner.rs:1538-1540 | a rename onto another name of the same inode changes nothing |
| `TreeLaws.EmptyWhenRemoved` | src/inner.rs:1456-1462 | whatever the call, a directory that loses its name has no entries left |
| `TreeLaws.DroppedReused` | src/inner.rs:319-365 | the number of a dropped inode is the next one to be handed out |
| `Namespace.Inner.constructor` | src/inner.rs:126-132 | the root directory lists itself under `.` and `..` |
| `Namespace.Inner.DirLookup` | src/inner.rs:1195-1202 | the scan finds the entry the directory maps the name to |
| `Namespace.Inner.DirInsert` | src/inner.rs:1204-1222 | the errors in order, or the directory with the new entry |
| `Namespace.Inner.DirRemove` | src/inner.rs:1224-1236 | the errors in order, or the directory without the entry |
| `Namespace.Inner.AllocInode` | src/inner.rs:319-338 | the last freed number is reused first, else the next unused one |
| `Namespace.Inner.DropInode` | src/inner.rs:340-365 | in the namespace the inode is gone and its number is free to reuse |
| `Namespace.Inner.CreateChild` | src/inner.rs:1381-1426 | takes exactly the create step, with its errors in the code's order, and keeps the invariant |
| `Namespace.Inner.LinkInto` | src/inner.rs:1488-1511 | takes exactly the link step, whose effect and refusals `TreeLaws` gives, and keeps the invariant |
| `Namespace.Inner.UnlinkName` | src/inner.rs:1428-1486 | takes exactly the unlink step, file or directory, whose effect and refusals `TreeLaws` gives, and keeps the invariant |
| `Namespace.Inner.IsAncestor` | src/inner.rs:1579-1592 | the loop answers whether the directory is within 4096 steps above |
| `Namespace.Inner.Rename` | src/inner.rs:1513-1577 | takes exactly the rename step, so an error changes nothing; the invariant holds afterwards exactly when the rename was safe |
| `Namespace.Inner.IncOpen` | src/inner.rs:1696-1698 | one more handle and nothing else; `TreeResults.HandlesRun` counts them |
| `Namespace.Inner.DecOpen` | src/inner.rs:1700-1714 | takes exactly the close step and keeps the invariant |
| `Path.Components.Next` | src/path.rs:251-282 | the iterator yields the components one by one |
| `Path.Collect` | src/path.rs:84-90 | collecting it gives all components of the path |
| `Path.PushComponents` | src/path.rs:179-189 | pushing a relative path appends its components |
| `Path.ParentAndName` | src/path.rs:56-82 | a path that has a parent has the parent's components followed by its file name |
| `Path.ParentIff` | src/path.rs:56-82 | a path has a file name unless it is all slashes, and a parent exactly when a slash stands before that name; without one the name is its only component |
| `Path.Rebuild` | src/inner.rs:1323-1338 | the path rebuilt at a symlink has the target's components and then the rest, with `.` dropped |
| `Walk.WalkFrom` | src/inner.rs:1244-1360 | the loop computes the resolution of the path's components, errors included |
| `WalkLaws.FromRoot` | src/inner.rs:1255-1274 | a path with a leading slash is walked from the root, wherever the caller is |
| `WalkLaws.ThroughDot` | src/inner.rs:1275-1278 | a leading `.` does not move the walk |
| `WalkLaws.ThroughUp` | src/inner.rs:1279-1296 | a leading `..` goes on from the parent directory, and at the root from the root |
| `WalkLaws.LastUp` | src/inner.rs:1279-1292 | a path of `..` alone answers the parent directory |
| `WalkLaws.DownAndUp` | src/inner.rs:1279-1360 | a name of a subdirectory and then `..` is back at the start |
| `WalkLaws.ThroughName` | src/inner.rs:1297-1360 | a leading name that is no symlink goes on from the inode of its entry |
| `WalkLaws.ThroughLink` | src/inner.rs:1313-1340 | a leading symlink goes on with its target and then the rest, from the root or from where it stands |
| `WalkLaws.ThroughNothing` | src/inner.rs:1304-1312 | a missing name that is not the last is answered with ENOENT |
| `WalkLaws.LastName` | src/inner.rs:1297-1350 | a last name answers its entry and the directory, a missing one no inode, and a symlink itself unless it is to be followed |
| `WalkLaws.LastLink` | src/inner.rs:1313-1340 | a last symlink that is to be followed answers what its target walks to |
| `WalkLaws.NotThere` | src/inner.rs:1297-1302 | a name is looked up in directories only |
| `WalkLaws.NamesLead` | src/inner.rs:1244-1360 | a path of names without symlinks answers exactly the inode that the chain of entries leads to |
| `WalkLaws.NamesBreak` | src/inner.rs:1297-1312 | and where the chain breaks before the last name the walk fails with the error of that place |
| `Walk.RebuiltWalk` | src/inner.rs:1320-1339 | walking the rebuilt path is walking the target's components and then the rest |
| `Walk.WalkInside` | src/inner.rs:1244-1360 | a walk from the root or a directory below it stands only on inodes at or below the root, and so does its answer |
| `Walk.WalkNeverLoops` | src/inner.rs:1316-1319 | no walk is refused for following too many symlinks |
| `Walk.SelfLinkNeverEnds` | src/inner.rs:1313-1340 | a symlink to its own name is followed for ever |
| `WalkEnds.EndsIff` | src/inner.rs:1244-1360 | a walk has an answer if and only if it meets no symlink inside that symlink's own expansion |
| `WalkEnds.WalkTo` | src/inner.rs:1244-1360 | the recursive walk returns the answer of every walk that ends |
| `Walk.MoreFuel` | src/inner.rs:1244-1360 | an answer does not depend on how deep the recursion was allowed to go |
| `Journal.Transaction.WriteInode` | src/journal.rs:86-91 | the buffer gains exactly this inode record |
| `Journal.Transaction.WriteBlock` | src/journal.rs:94-99 | the buffer gains exactly this block record |
| `Journal.Log.Begin` | src/journal.rs:40-50 | a transaction under the next sequence number |
| `Journal.Log.Commit` | src/journal.rs:52-82 | too large, wrapped or appended: the new image, head and marks; the area holds the records since the last wrap, their numbers are not ahead of the log, and behind a head that never went back it is zero |
| `Journal.Replay` | src/journal.rs:104-208 | on any bytes the image becomes the fold of the complete transactions, each whole or not at all |
| `JournalLaws.ParsesIffWritten` | src/journal.rs:115-195 | any bytes: a transaction is found at a place exactly if one was written there whole, numbered up to the committed mark, and it is that one |
| `JournalLaws.FoundWasWritten` | src/journal.rs:113-207 | any bytes: what replay finds is the longest log of written transactions that stands there |
| `JournalLaws.ParsedIsSealed` | src/journal.rs:115-179 | whatever replay accepts has the magic, the same number from 1 to the committed mark at both ends, and ends in the CRC-32 of all its earlier bytes |
| `JournalLaws.TxIsSealed` | src/journal.rs:40-66 | and so does whatever is committed |
| `JournalLaws.DamageStopsReplay` | src/journal.rs:170-206 | a record damaged in at most 4 consecutive bytes of one block: replay finds exactly the transactions in front of it |
| `JournalLaws.DamagedReplay` | src/journal.rs:104-208 | and the image becomes the fold of those alone |
| `Journal.ReplayAgain` | src/journal.rs:104-208 | replaying after any prefix of a replay's block writes gives the image of one replay, when no write targets the journal area |
| `Journal.LogReadBack` | src/journal.rs:40-208 | committed transactions are found again in order, wherever they stand |
| `Journal.RecoversExactlyIff` | src/journal.rs:61-83 | replay finds exactly the transactions since the last wrap if and only if the bytes behind the head do not parse as another |
| `Journal.FreshLogRecovered` | src/journal.rs:40-208 | a log written into zeros without wrapping is recovered exactly |
| `Journal.LogRecoveredIff` | src/journal.rs:40-208 | of a log at any time, wrapped or not, replay finds exactly what was committed since the last wrap if and only if the bytes behind the head do not parse, and always if it never wrapped |
| `Recovery.Session` | src/journal.rs:40-208 | for any lists of operations begun, written and committed into a new log that holds them, replay counts them all and the image is the fold of their block writes |
| `Recovery.WrapThenReplay` | src/journal.rs:52-208 | three commits into the smallest log: replay puts back what the second wrote although the third was committed after it |
| `Journal.StaleAfterWrap` | src/journal.rs:68-70 | a record that ends where an old one starts makes replay apply the old transaction after it |

## Left out

- Host file calls, I/O errors, syncing and platform branches of src/store.rs: the image is a byte sequence.
- Integer widths: block numbers, counts and link counts are unbounded, except where an encoding depends on the width.
- The LZ4 codec: foreign code, taken as a pair of inverse functions.
- Timestamps, `st_blocks`, owners, permission checks, the sticky bit, xattrs and device numbers: easy facts beside the ones proved.
- Caller buffers: reads return a sequence instead of filling a slice.
- The inode table in blocks (`map_inode_slot`, `grow_inode_table`, `persist_inode`) and reopening an image: only the codecs are modelled.
- `flush_all` then `open`, and `resolve_all_extents`: they need raw data not to look like a record header.
- The xattr and tree blocks freed by `drop_inode`; its two halves are `Namespace.Inner.DropInode` and `FileData.Inner.DropFile`.
- Two-step opening in src/fs.rs, where the lock is given up between the walk and `inc_open`: a handle is opened in one step on an inode that exists.
- `normalize_record_blocks`, `remove_range`, `flush_block` and `invalidate`: single-function facts.
- FileData.Inner.Run: says nothing of the bytes of uncompressed files, which have exact statements for each call instead.
- FileData.Inner.DropFile: asks that a file of size zero hold no blocks, as cuts to nothing leave it; the code would lose such blocks.
- FileData.Inner.AddExtent: asks that the new extent overlap no other, as each of its callers sees to.
- FileData.Inner.AllocateLogical: leaves out the inline branch, since its one caller has moved the file to blocks.
- FileData.Inner.WriteDataRaw: takes a file that is in blocks already, since its one caller promotes it first.
- FileData.Inner.PunchLogicalRange: leaves out the error for an inode that does not exist, which no caller meets.
- Walk.WalkFrom: is about walks that end; the code recurses without bound on the others.
- DirFiles.RunActs: takes entries that a u16 name length and a u32 count hold, and no write or cut of a directory as a file.
- Namespace.Inner.DropInode: models the namespace half; `FileData.Inner.DropFile` frees the blocks.
- Journal.ReplayAgain: keeps the superblock's committed number fixed across the two replays.
- Layout.InodeRoundTrip: gives the writes into a zeroed buffer as one concatenation in the order of their offsets.
- Namespace.Inner.CreateChild: takes the file type instead of the mode bits, and does not model a directory file outgrowing the size limit.
- AllocSnapshot.WriteAllocBlocks: asks that an existing snapshot's blocks be in use, as they are in every image it wrote itself.
