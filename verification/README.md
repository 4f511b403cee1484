# NTREG hives: a verified model

NTREG keeps a registry hive in memory and on disk. This project models the parts of it that everything else
rests on, in Dafny, and proves what they are for:

- **Bitmap** (`Words`, `Bitmap`, `DirtyCells`): the word-at-a-time bitmap code, proved against the bits it
  stands for. It drives the flush.
- **Flush and recovery** (`Files`, `Header`, `Flush`, `Recovery`, `HiveSync`): the dirty-block log, the two sequence
  numbers and the replay, one write to the device at a time. The device completes some number of writes and then
  fails for good, so that every point of failure is covered. `HiveSync.Hive.CrashAndLoad` is the main result: a
  flush stopped anywhere, followed by any number of loads stopped anywhere, leaves the whole old image or the
  whole new one. `HiveSync.RunFromNew` carries it over whole runs, from the creation of a hive on. A load that has to
  recover the header as well is not safe in the same way, and `HiveSync.Hive.LoseHeaderAndLoad` says exactly what
  it leaves. `HiveSync.Hive.LoadFiles` gives the outcome of a load for files of every kind, and
  `HiveSync.Hive.SyncHive` says exactly when a flush succeeds, with and without a log.
- **Loading** (`HiveLoad`): bins read back block by block. `HiveLoad.SaveAndLoad` is the round trip: a save that
  succeeds loads into the same storage, on which the allocator can go on.
- **Cell allocator** (`Cells`, `FreeLists`, `Storage`, `Payload`, `BinChecks`, `AllocatorSteps`,
  `Allocator`, `AllocatorRuns`): bins tiled by cells of signed size, with 24 lists of free cells threaded through the cells
  themselves; splitting, merging in both directions, relocation, rebuilding of the lists.
  `AllocatorRuns.Run` says that after any requests the bins are tiled, the lists hold exactly the free cells by
  class, no two adjacent cells are free, and every cell handed out contains what its owner put there, as if the
  cells were buffers kept apart; and that a request fails exactly when there is no room for it.
- **Subkey index** (`Names`, `SortedNames`, `Indexes`, `IndexSearch`, `IndexStore`, `SubKeys`): fast leaves, plain
  leaves, hash leaves and roots of leaves, in cells. What a key's index stands for is one sequence of subkeys,
  strictly ascending by upcased name; adding, removing, finding by name and by number are proved against it, and
  an index changes its form on the way without changing what it stands for.
- **Checker and self-healing** (`KeyGraph`, `CheckStack`, `Healing`, `Checker`): the walk of the keys with an explicit stack,
  the repairs, and the restarts. It ends for every registry, cyclic ones included, with and without healing.
  Its verdict is exact (`Checker.Registry.ValidateRegistryInternal`), and `Checker.Registry.VerdictByPaths` says it in
  terms of the ways down from the root: without healing for every registry, with healing for every registry from which
  nothing has to be taken out, and for those whose keys, as far as they can be mended, are in order. What healing takes
  out are then the keys that cannot be mended, and no other; and a registry that passes without healing is left alone by
  it. In a registry found `Good` the graph has no cycle, every key is sound and every count is right; each key has one
  parent without healing, and with healing exactly if no key is listed by two.
- **Security references** (`Security`): reference counts and the ring of security cells under creation and
  deletion of keys, in hives with any number of security cells.

The code that works in place is modelled by classes and methods with its loops, and each method is proved
against functions and predicates on values; the lemmas about those carry the results that span methods. A
`ghost` parameter or field (`image`, `L`, `Lists`, `stack'` and the like) is there for the proof only.

Where the code does not do what one would expect of it, the model follows the code:

- A dirty vector of more than 508 bits does not fit the one sector the replay reads
  (`core/hivewrt.cpp:87`, `core/hiveinit.cpp:1045`). `Flush.LayoutsAgree` is the exact bound, and the flush is
  atomic up to it (`Flush.StoppedFlushReplays`). As the vector grows by 32 bits at a time, hives of up to 480 blocks are
  safe, and `HiveSync.LargeHiveLoses` has for every size from 481 to 508 blocks a run that loses both images. Beyond
  508 blocks the replay reads past its one sector, which is not modelled.
- A load that recovers the header writes it before the blocks, with equal sequence numbers
  (`core/hiveinit.cpp:1232-1253`). Cut short in between, it leaves a mixture that the next load takes for a sound
  hive: `HiveSync.Hive.LoseHeaderAndLoad` has the exact condition and `HiveSync.HeaderRecoveryLoses` a case. A header
  that is built anew is sealed before its type is set (`core/hiveinit.cpp:981-993`), so that it seldom passes the
  next check: `Header.ResuscitatedPasses`.
- Marking a cell dirty marks at most its first block, and none at all if the cell starts on a block boundary
  (`core/hivecell.cpp:127-131`): `DirtyCells.MarkedCovers`. The flush results therefore ask that every block
  that differs from the file is dirty.
- With healing, a registry that passes may have a key listed by two others (`core/cmcheck.cpp:914-926`):
  `Checker.SharedKeyStays` is one. Where nothing is taken out it has such a key exactly if it had one before, and
  then, and only then, some Parent is not the one key that lists the key.
- Two names that are both compressed are taken to be in order without a look (`core/cmcheck.cpp:159-164`), so a
  verdict says nothing about the order of siblings; the order check is a parameter of the model.
- A changed header word may escape the checksum, and `Header.OneWordDamage` says exactly when.
- `RtlSetAllBits` also sets the bits between the size and the next word; only bits below the size are observed.

## Model

| member | source | states |
|---|---|---|
| Words.BitScanForward | core/rtl.cpp:297-306 | The position returned is a set bit with no set bit below it; nothing is found exactly for the word 0. |
| Bitmaps.Bitmap.GetLengthOfRunClear | core/bitmap.cpp:42-92 | All bits of the run are clear; a run reported shorter than the limit really ends there, at a set bit or at the end of the bitmap. |
| Bitmaps.Bitmap.GetLengthOfRunSet | core/bitmap.cpp:96-146 | The same for set bits, read through the complement of each word. |
| Bitmaps.Bitmap.SetBits | core/bitmap.cpp:308-364 | Exactly the bits of the range become set, whatever the alignment of its ends. |
| Bitmaps.Bitmap.ClearBits | core/bitmap.cpp:249-305 | Exactly the bits of the range become clear. |
| Bitmaps.Bitmap.FillAll | core/bitmap.cpp:211-228 | Every bit of the bitmap gets the value. |
| Bitmaps.Bitmap.FillBytes | include/reg.hpp:234 | A fill of a number of bytes changes the bits of those bytes and no other, also when it ends inside a word. |
| Bitmaps.Bitmap.NumberOfSetBits | core/bitmap.cpp:404-426 | The sum over bytes, with the excess bits of the last byte shifted out, is the number of set bits of the bitmap. |
| Bitmaps.TableEntry | core/bitmap.cpp:14-34 | The table holds for each byte the number of its set bits. |
| Bitmaps.Bitmap.FindSetBits | core/bitmap.cpp:505-569 | The answer is the first run at or after the hint, else the first run of all, and MAXINDEX exactly when the bitmap has no such run. |
| Bitmaps.Bitmap.FindNextForwardRunClear | core/bitmap.cpp:619-639 | The run found is the next one: every bit before it is set, and it cannot be made longer. |
| Bitmaps.Bitmap.FindNextForwardRunSet | core/bitmap.cpp:643-663 | The same for set bits. |
| Bitmaps.Bitmap.FindLongestRunClear | core/bitmap.cpp:821-850 | The result is the first of the longest runs of clear bits, although each step advances by the run's length only and so may scan part of a run again. |
| Bitmaps.Bitmap.FindLongestRunSet | core/bitmap.cpp:854-883 | The same for set bits. |
| DirtyCells.MarkCellDirty | core/hivecell.cpp:111-157 | A stable cell has the blocks between the two rounded offsets marked; a volatile cell has none. |
| DirtyCells.MarkedCovers | core/hivecell.cpp:127-131 | After marking, every block of the cell is dirty exactly when all its blocks but the first were dirty before, and the first too if the cell starts on a block boundary: marking sees to at most the first block. The bits of all other blocks, in the cell or not, are kept. |
| Header.HiveHeaderChecksum | core/hivesum.cpp:18-34 | The loop computes the XOR of the first 127 words, moved away from 0 and from all ones. |
| Header.SumIsParity | core/hivesum.cpp:18-26 | A bit of the sum is set exactly when it is set in an odd number of the words. |
| Header.OneWordDamage | core/hivesum.cpp:18-34 | A changed word goes unnoticed exactly when the two sums are 0 and 1, or the two highest words, in either order. |
| Header.FirstSectorDecides | core/hiveinit.cpp:632-742 | A header passes exactly when its first sector does. |
| Flush.LayoutsAgree | core/hivewrt.cpp:87-88 | The flush and the replay agree on where logged blocks start exactly when the dirty vector has at most 508 bits. |
| Flush.LoadIsDetermined | core/hiveinit.cpp:1036-1126 | Given the files, a load can end with one image of the blocks only. |
| Flush.StoppedFlushReplays | core/hivewrt.cpp:212-315 | Whatever blocks a flush stopped after, the hive file and the log together replay to the memory image, if the dirty vector has at most 508 bits. |
| HiveSync.LargeHiveLoses | core/hiveinit.cpp:1045-1097 | For every size from 481 to 508 blocks a new hive, saved, with one block changed and a flush cut short, leaves files that load neither as what was saved nor as what is in memory: the bound of 480 blocks is exact. |
| Flush.FinishedFlushHolds | core/hivewrt.cpp:212-315 | A finished flush of the dirty blocks leaves the whole memory image in the hive file. |
| Header.RelabelledPasses | core/hiveinit.cpp:993-1001 | A log's header that passes the check passes as a hive's once its type is changed and its checksum taken again. |
| Header.ResuscitatedPasses | core/hiveinit.cpp:976-993 | A header built anew passes a later check exactly when the fields that are not built were right already, its type among them, since the checksum is taken before the type is set; the only exceptions are the sums of the checksum's blind spot. |
| Recovery.CopiedBlock | core/hiveinit.cpp:1086-1117 | After a replay of n blocks each one that is flagged, and in the log, is the log's, and every other block of the file is as it was. |
| Recovery.ReplayIs | core/hiveinit.cpp:1086-1126 | The replay of files that replay to an image ends exactly when the device takes a write for each flagged block, and has then put the image's blocks in place; wherever it stops, the files replay to the image still. |
| Recovery.FourKinds | core/hiveinit.cpp:632-742 | Every file passes, or is stale, or has a damaged header, or is no hive, and is one of these only. |
| Recovery.DataVerdict | core/hiveinit.cpp:1036-1126 | Data is recovered exactly when the log has a readable vector and every flagged block, with a write left for each; without a readable vector the outcome is that of healing, or a failure. |
| Recovery.StaleRefused | core/hiveinit.cpp:1173-1219 | A file whose sequence numbers differ is refused exactly when its data is not to be had from the log and no header is to be had either, from the log or built anew. |
| Recovery.DamagedRefused | core/hiveinit.cpp:1221-1267 | A file with a damaged header is refused exactly when there is no write for a header, or none to write, or then a flagged block is not in the log or comes after the last write. |
| Recovery.StoppedFlushLosesHeader | core/hiveinit.cpp:1221-1267 | A flush stopped anywhere once its log is complete, whose header is then damaged but for the time stamp, can be recovered: the log's header can stand in for it, and the blocks replay to the memory image. |
| Recovery.HeaderThenData | core/hiveinit.cpp:1232-1259 | After the header and k of the logged blocks the file passes for one that needs no recovery, and loads as the image exactly if the other logged blocks were in place before. |
| HiveSync.Hive.Create | core/hiveinit.cpp:211-259 | A new hive is empty, with every word of its header given: the constants of the format, both sequence numbers 1, no root cell, the rest 0; nothing is dirty, nothing is in its files, and it meets the hive's invariant. |
| HiveSync.Hive.NextDirty | core/hivewrt.cpp:115-127 | The search and its wrap test give the next dirty block at or after an index, or tell that there is none. |
| HiveSync.Hive.BuildVector | core/hivewrt.cpp:87-127 | The logged vector has 0xFF for each dirty block and 0 for each clean one. |
| HiveSync.Hive.LogDirtyBlocks | core/hivewrt.cpp:140-164 | It succeeds exactly when the device has a write for each dirty block, and has then logged each of them once, in order. |
| HiveSync.Hive.WriteLog | core/hivewrt.cpp:57-196 | It succeeds exactly with equal sequence numbers and enough writes, and leaves a complete transaction in the log, under a header that passes the check; the hive file is not touched. |
| HiveSync.Hive.WriteBlocks | core/hivewrt.cpp:256-283 | Wherever it stops, the blocks written so far have their memory contents, and all others are as they were; it succeeds exactly when the device has a write for each chosen block. |
| HiveSync.Hive.WriteHeader | core/hivewrt.cpp:241-254 | One sequence number goes up by one, the checksum is right, and the whole header is on disk or nothing is. |
| HiveSync.Hive.WriteHive | core/hivewrt.cpp:212-315 | Wherever it stops the file is as before, or has a sound header that tells by its sequence numbers whether blocks may be missing; it succeeds exactly with enough writes. |
| HiveSync.Hive.WriteFiles | core/hivewrt.cpp:364-400 | The log, the hive file and the alternate file, in that order; it succeeds exactly with the writes for all three. |
| HiveSync.Hive.WriteAlternate | core/hivewrt.cpp:392-400 | The alternate file takes the dirty blocks, exactly with the writes for them; log and hive file are left alone. |
| HiveSync.Hive.SyncHive | core/hivewrt.cpp:330-411 | It succeeds exactly when nothing is dirty, or the sequence numbers agree and the device has the writes for the log, if there is one, the hive file and the alternate file, if there is one, and one more: then the hive file has every block of memory, the alternate file every dirty one, no block is dirty and the count of dirty blocks is 0. Wherever the device fails, the next load of a hive with a log gives all of the memory image or none of the changes, and the dirty vector is as it was. Of the header only sequence numbers, type, checksum and time stamp differ. |
| HiveSync.Hive.SyncLoses | core/hivewrt.cpp:330-411 | In any hive of 481 to 508 blocks, a flush that the device cuts short once the log is complete loses both images, if the first dirty block starts with a word other than zero before and after. |
| HiveSync.Hive.CrashAndLoad | core/hiveinit.cpp:1147-1267 | A flush stopped anywhere, and any number of loads stopped anywhere: a load that gets through finds the whole old image or the whole new one, and earlier loads have not changed which. |
| HiveSync.Hive.WriteWholeHive | core/hivewrt.cpp:442-462 | It succeeds exactly with enough writes, and leaves a file that passes the header check and loads as the memory image, whatever it held before: from then on dirty blocks account for every difference. |
| HiveSync.Hive.AddBin | core/hivebin.cpp:20-120 | In any hive, saved or not, the new blocks are dirty, the old bits are kept in a vector that is replaced exactly when it has no room for the new blocks, and the length in the header follows. |
| HiveSync.Hive.Run | core/hivewrt.cpp:330-411 | The run of changes and flushes, of a hive with or without a log, goes on up to the first flush the device has not got the writes for, and no other is cut short; memory is what the operations up to there make of it. With a log a load finds then the image of one of the flushes, and no flush completed after that one is lost; without a log it does when no flush was cut short. |
| HiveSync.RunFromNew | core/hivewrt.cpp:330-462 | The same from a new hive with a log on: bins added, saved whole exactly with enough writes, then changes and flushes, up to the first that cannot be afforded. |
| HiveSync.Hive.GetHiveHeader | core/hiveinit.cpp:632-742 | Each of the four verdicts on the file is given exactly in its case, with the time stamp that a header in the log has to match. |
| HiveSync.Hive.RecoverDataFromLog | core/hiveinit.cpp:1036-1126 | The outcome, the hive file and the writes left are given for all files: the flagged blocks are copied up to the first that the log does not have or the device does not take, and it succeeds if there is no such block. |
| HiveSync.Hive.ReplayBlocks | core/hiveinit.cpp:1086-1123 | The loop copies each flagged block from its place in the log, in order, and stops at the first it cannot copy, in any files. |
| HiveSync.Hive.RecoverHeaderFromLog | core/hiveinit.cpp:908-1018 | The log's header becomes the hive file's exactly when it passes the check, has the time stamp and can be written; otherwise one is built anew if healing is on and the size is known; a failure leaves the file alone. |
| HiveSync.Hive.LoadFiles | core/hiveinit.cpp:1147-1267 | One load of any files, with every branch exact: no hive, exactly without a header and a first bin; a file that passes is accepted and left alone; without a log nothing else is accepted, and nothing written; with one, a stale or a damaged file ends with the result, the hive file and the writes left that the recovery of data, then of the header, or of the header, then of data, gives. |
| HiveSync.Hive.LoadData | core/hiveinit.cpp:1173-1219 | A stale file: the data is recovered, and only when that fails the header. |
| HiveSync.Hive.LoadHeaderAndData | core/hiveinit.cpp:1221-1267 | A damaged file: the header is recovered and then the data; a header built anew asks for healing. |
| HiveSync.Hive.Load | core/hiveinit.cpp:1147-1267 | One load of files that load, which succeeds exactly when no replay is needed or the device has the writes for it, and leaves them loading the same; or of a file whose header is lost, which succeeds exactly when the device has a write for the header and each logged block. |
| HiveSync.Hive.LoseHeaderAndLoad | core/hiveinit.cpp:1221-1267 | A flush stopped with its log complete, a header lost, a load cut short: the file then passes for sound, with the memory image exactly if the blocks not reached were in place, and with the old image exactly if those reached had not changed. |
| HiveSync.HeaderRecoveryLoses | core/hiveinit.cpp:1221-1267 | It may be neither: a new hive of two blocks that such a load leaves with one block of each image and a header that asks for no recovery. |
| HiveLoad.ReadBin | core/hiveinit.cpp:452-536 | One turn of the loop reads a bin exactly when the word at the start of the block is the signature, the offset leads back to the block, the size is a positive multiple of 4096 and all blocks are there; with repairs on, a block that is there and fails this becomes a bin of one block. Its words and its entries in the block map are the file's. |
| HiveLoad.InitializeFileHive | core/hiveinit.cpp:424-537 | It succeeds exactly when starts of bins, each leading to the next by its own header or, with repairs on, by being made a bin of one block, divide the length; then every block of the map leads to its start, and memory holds the words of the file, but for the three words of each header that was repaired. |
| HiveLoad.ReadAreDivided | core/hiveinit.cpp:450-537 | Whatever is read from a file divides it into bins, each read as its header says. |
| HiveLoad.DividedAreRead | core/hiveinit.cpp:450-537 | Whatever divides a file into bins is what is read from it: there is one division only. |
| HiveLoad.SavedBins | core/hiveinit.cpp:450-537 | A file that holds a storage gives its block map and its words back, with nothing repaired. |
| HiveLoad.ReloadedSound | core/hiveinit.cpp:424-566 | A storage read again as signed 32-bit words has the same layout and the same cells, free or in use. |
| HiveLoad.BuildStorage | core/hiveinit.cpp:539-543 | With the free lists rebuilt the storage meets the allocator's invariant, and each cell in use has the same size and bytes. |
| HiveLoad.SaveAndLoad | core/hiveinit.cpp:1147-1289 | A save that succeeds loads: the same bins, cells and bytes, and lists on which the allocator can go on. |
| Cells.Layout.SplitTiled | core/hivecell.cpp:443-470 | Splitting a cell leaves bins tiled by cells. |
| Cells.Layout.MergeTiled | core/hivecell.cpp:566-614 | Merging two adjacent cells leaves bins tiled by cells. |
| Cells.Layout.ExtendTiled | core/hivebin.cpp:35-83 | A new bin, all one cell, leaves bins tiled by cells. |
| FreeLists.FreeListIndex | core/hivecell.cpp:181-206 | Every size has one of 24 classes. |
| FreeLists.SizesOfClasses | core/hivecell.cpp:181-206 | The sizes of each class: eight bytes wide below 136, then those up to 263, 519 and 1031, and all larger ones; four classes are empty. |
| FreeLists.ClassesAreOrdered | core/hivecell.cpp:181-206 | A larger size never has a lower class. |
| FreeLists.Pushed | core/hivecell.cpp:209-231 | A free cell put in front of its list: the 24 lists hold exactly the free cells, each once and by class, without cycles. |
| FreeLists.Unlinked | core/hivecell.cpp:234-279 | A cell whose predecessor's link, or whose list's head, takes over its own link is on no list; all others are where they were. |
| Storage.BinOfCell | core/hivecell.cpp:21-52 | The block map leads from every cell to its bin. |
| Allocator.Dual.constructor | core/hiveinit.cpp:211-259 | An empty storage meets the invariant: bins tiled, lists exact, no two adjacent free cells. |
| Allocator.Dual.FromBins | core/hiveinit.cpp:450-537 | A storage of bins that are there already, with every list empty. |
| Allocator.Dual.AddFree | core/hivecell.cpp:209-231 | The cell is in front of the list of its class, the other lists are as they were, and only links of free cells have changed. |
| Allocator.Dual.RemoveFree | core/hivecell.cpp:234-279 | The walk meets the cell, which is then on no list, all others keeping their order; it never falls off the end. |
| Allocator.Dual.WithinBin | core/hivecell.cpp:312-327 | The check of a free cell against the end of its bin never fails. |
| Allocator.Dual.FindInList | core/hivecell.cpp:294-344 | The cell found is the first of the list that is large enough, and off its list; nothing found means every cell of the list is too small. |
| Allocator.Dual.FindFree | core/hivecell.cpp:282-348 | The cell found is the first fit: the first that is large enough in the first list, from the class of the size upwards, that has one. It is found exactly when some free cell of the storage is large enough; the branches for corrupt lists are not taken. |
| Allocator.Dual.AddBin | core/hivebin.cpp:20-120 | A new bin behind the last with one free cell large enough, refused exactly when the host has no memory for it; cells in use are untouched. |
| Allocator.Dual.SplitCell | core/hivecell.cpp:436-470 | Of a free cell larger than asked for by more than 16 bytes the rest becomes a free cell of its own; otherwise the cell stays whole. |
| Allocator.Dual.AllocateCell | core/hivecell.cpp:402-482 | A zeroed cell that overlaps no cell in use: the first fit, or the one cell of a new bin, split when more than 16 bytes would be left; the storage grows exactly when no free cell is large enough, and nil comes back exactly when it cannot. |
| AllocatorSteps.RoundedCell | core/hivecell.cpp:419 | The size of a cell is the next multiple of 16 with room for the header. |
| AllocatorSteps.BinBlocksFit | core/hivebin.cpp:34-36 | A new bin has as many blocks as its header and the cell take, and no more. |
| Allocator.Dual.TakeFree | core/hivecell.cpp:421-432 | The free cell comes from the lists if one is large enough, else from a new bin. |
| Allocator.Dual.Claim | core/hivecell.cpp:475-476 | The cell is in use and its first bytes are zero; every other cell in use is untouched. |
| Allocator.Dual.FreeCell | core/hivecell.cpp:539-628 | The cell is not in use any more, no two adjacent cells are free, and every other cell in use is untouched. |
| Allocator.Dual.MergeForward | core/hivecell.cpp:566-582 | After it the cell behind the freed one is in use, or there is none. |
| Allocator.Dual.PrecedingFree | core/hivecell.cpp:584-621 | The walk of the bin finds the free cell that ends where the freed one starts, exactly if there is one. |
| Allocator.Dual.MergeBackward | core/hivecell.cpp:592-614 | The free cell before takes the freed one over, and is on the list of its new class; if that is the old one, no list changes. |
| Allocator.Dual.CopyMemory | core/hivecell.cpp:512-527 | The bytes at the target are those of the source; no other byte changes. |
| Payload.FourBytes | core/hivecell.cpp:512-527 | What is said of bytes is said of words: a 32-bit word is its four bytes, the lowest first. |
| Allocator.Dual.ReallocateCell | core/hivecell.cpp:485-536 | The cell stays exactly as it is for sizes between half its room and all of it; otherwise its first bytes, as many as fit, are in the new cell; all other cells in use are untouched; nil exactly when it has to grow and there is no room, and then nothing has changed. |
| Allocator.Dual.Relocate | core/hivecell.cpp:506-533 | A new cell with the first bytes of the old one, which is freed; nil exactly when there is no room, and then nothing has changed. |
| Allocator.Dual.Store | core/hivecell.cpp:78-84 | What the owner of a cell writes into it leaves the layout, the lists and the other cells as they were. |
| Allocator.Dual.CreateFreeCellList | core/hivecell.cpp:351-399 | The walk of all bins builds lists that hold exactly the free cells, whatever was there before. |
| Allocator.Dual.ListBin | core/hivecell.cpp:370-394 | The walk of one bin puts exactly its free cells on their lists. |
| Allocator.Dual.ValidateBin | core/cmcheck.cpp:1264-1326 | For any memory, and whatever the cells in it: the verdict is that of the walk from cell to cell, a wrong signature first, then the first cell that is empty or larger than the bin, free or allocated. |
| Allocator.Dual.ValidateHive | core/cmcheck.cpp:1344-1406 | For any memory: the verdict is that of the walk from bin to bin, each placed where it says, no larger than the storage, and good. |
| BinChecks.OneBinVerdict | core/cmcheck.cpp:1264-1326 | A bin has one verdict only, so that the verdict given is exact. |
| BinChecks.OneStorageVerdict | core/cmcheck.cpp:1344-1406 | So has a storage. |
| AllocatorSteps.SoundStoragePasses | core/cmcheck.cpp:1344-1406 | The verdict on every storage the allocator works on is that it is good. |
| AllocatorSteps.SoundReadable | core/cmcheck.cpp:1264-1406 | All that the checks read of such a storage is there. |
| AllocatorRuns.Serve | core/hivecell.cpp:402-628 | One request on the storage does to the contents of the held cells what it does to buffers kept apart from each other; it is served exactly if a free cell is large enough or the limit allows a new bin, and the storage grows by that bin only. |
| AllocatorRuns.Run | core/hivecell.cpp:402-628 | Before and after each of any requests on a fresh storage the bins are tiled, the cells in use are those handed out and not given back, and each contains what the requests put there; each request is served exactly if there is room, and a failure means that the requests so far, with a bin each, exceed the limit. |
| Names.OrderSwapped | core/cmname.cpp:160-196 | Swapping two names reverses their order. |
| Names.OrderTransitive | core/cmname.cpp:160-196 | The order of names is transitive, strictly so if one of its steps is strict. |
| Names.OrderEqual | core/cmname.cpp:160-196 | Names compare equal exactly when they are the same up to case. |
| Names.OrderIs | core/cmname.cpp:160-196 | A name is before another exactly when, up to case, it is a proper beginning of it, or has the lower unit where they first differ. |
| Names.UpcaseIs | core/rtl.cpp:123-145 | The small letters become their capitals, and every other unit stays. |
| Names.CompareCompressedName | core/cmname.cpp:160-196 | The sign of the result is the order of the two names: negative exactly when the first precedes the second, as a proper beginning or with the lower unit, up to case, where they first differ. |
| Names.ComputeHashKey | core/cmindex.cpp:460-510 | The loop, with its own way to upcase letters, computes the hash of the upcased name. |
| Names.HashOfUpcased | core/cmindex.cpp:460-510 | Names that are the same up to case have the same hash. |
| Names.HashIs | core/cmindex.cpp:460-510 | The hash is the number with the upcased units as its digits to the base 37, modulo 2^32. |
| Names.MakeHint | core/cmindex.cpp:1060-1089 | The hint has those of the first four units that follow the last one that does not fit into a byte, each in its place, and zeros elsewhere; up to its first zero it is a beginning of the name. |
| Names.CompareHint | core/cmindex.cpp:91-122 | A verdict from the hint alone is that of the full comparison, for every name the hint may stand for. |
| IndexSearch.DoCompareKeyName | core/cmindex.cpp:31-63 | The result is the order of the search name and the key's name. |
| IndexSearch.CompareInIndex | core/cmindex.cpp:67-139 | With or without a hint the result is the order of the search name and the entry's name. |
| IndexSearch.FindSubKeyInLeaf | core/cmindex.cpp:358-456 | The entry with the name, or one next to the place where the name would go. |
| IndexSearch.LastTwo | core/cmindex.cpp:246-353 | The last one or two leaves of the search lead to the leaf that reaches the name, or tell that the name is before or after all. |
| IndexSearch.FindSubKeyInRoot | core/cmindex.cpp:143-354 | The first leaf whose last name is not before the search name; no leaf exactly when the name is before all or after all. |
| IndexSearch.FoundPlace | core/cmindex.cpp:1293-1431 | Wherever the search of the root leads, a name not listed yet may go into that leaf. |
| IndexSearch.SecondSearch | core/cmindex.cpp:1433-1457 | After a split, the search of the new root leads to one of the two halves. |
| IndexSearch.FindSubKeyByHash | core/cmindex.cpp:646-679 | The entry with the name, or nil exactly when no entry has it. |
| IndexSearch.FindInIndex | core/cmindex.cpp:683-767 | A lookup in a leaf, a hash leaf or a root is exact, also when the root's search ends in a leaf the name is only before. |
| IndexSearch.DoFindSubKeyByNumber | core/cmindex.cpp:514-596 | The entry at a position of all that an index lists, leaf after leaf. |
| IndexStore.SlotReplaced | core/cmindex.cpp:1465-1690 | Replacing one key's index leaves the lists of all other keys as they are, and no index cell without an owner. |
| IndexStore.SplitListsTheSame | core/cmindex.cpp:1104-1260 | Splitting a leaf of a root leaves the sequence of what is listed as it is. |
| IndexStore.SplitDone | core/cmindex.cpp:1104-1260 | The cells after a split make a sound root whose leaves are the old ones with one in two halves. |
| IndexStore.LeafReplaced | core/cmindex.cpp:1640-1680 | A root whose leaf has moved or changed is sound, and lists the new leaf in the old one's place. |
| IndexStore.LeafRemoved | core/cmindex.cpp:1810-1832 | A root without one of its leaves is sound, and lists the others. |
| SubKeys.Hive.constructor | core/cmindex.cpp:1465-1690 | A hive without keys meets the invariant of the indexes. |
| SubKeys.Hive.CreateNode | core/cmi.cpp:308-406 | A new key has no subkeys, and every list of subkeys is as it was. |
| SubKeys.Hive.AllocateCell | core/hivecell.cpp:402-482 | A cell not in use, at least as large as asked for. |
| SubKeys.Hive.ReallocateCell | core/hivecell.cpp:485-536 | The same cell exactly when the size is the same, else another that was not in use, with the same contents. |
| SubKeys.Hive.AddToLeaf | core/cmindex.cpp:921-1100 | One more entry in its place, with the hash, the hint or neither, as the leaf's kind asks; the leaf moves exactly when it is full, to one and a half times its size or to its size and an entry, whichever is larger. |
| SubKeys.Hive.NewEntry | core/cmindex.cpp:1048-1095 | The entry of a key has its hash in a hash leaf, its hint in a fast leaf and neither in an old-style one. |
| SubKeys.Hive.GrowRoot | core/cmindex.cpp:1186-1210 | A root with room for one more leaf and the same contents, in the same cell exactly if there was room. |
| SubKeys.Hive.SplitLeaf | core/cmindex.cpp:1104-1260 | The second half of a leaf moves to a new leaf behind it: the root is sound, and lists the two halves in the leaf's place. |
| SubKeys.Hive.ChooseLeaf | core/cmindex.cpp:1301-1431 | The leaf chosen has room and the name may go into it; none is chosen only if the leaf found is full; the branches for neighbouring leaves are not taken. |
| SubKeys.Hive.SelectLeaf | core/cmindex.cpp:1264-1461 | It ends after at most one split, with a leaf that has room and into which the name may go; what the root lists has not changed. |
| SubKeys.Hive.Prepare | core/cmindex.cpp:1534-1638 | The first leaf, of the kind the version asks for; the change of a fast leaf of 507 entries into a plain one; the root above a leaf of 1013; otherwise the index stays what it is. The list has room for one more, and lists what it did. |
| SubKeys.Hive.AddSubKey | core/cmindex.cpp:1465-1690 | The child is inserted in its place in the sequence of subkeys, the count is its new length, every leaf is non-empty and in order, and the lists of all other keys are as they were. |
| SubKeys.Hive.AddToSlot | core/cmindex.cpp:1465-1690 | The same for one of the two lists of a key. |
| SubKeys.Hive.AddToSingle | core/cmindex.cpp:1640-1680 | A leaf that is an index of its own lists one more subkey, and no cell of another index changes. |
| SubKeys.Hive.AddBelowRoot | core/cmindex.cpp:1640-1680 | The selected leaf of a root takes the subkey, and the root names the cell the leaf is now in. |
| SubKeys.Hive.SubkeysAscend | core/cmindex.cpp:143-456 | Of two subkeys of a key the earlier has a name that precedes the later's, and all are keys of the right storage. |
| SubKeys.Hive.NumbersInOrder | core/cmindex.cpp:600-642 | Of the subkeys enumerated before a subkey, those of the same storage have names that precede its name. |
| SubKeys.Hive.FindSubKeyByName | core/cmindex.cpp:683-767 | The subkey with the name up to case, stable ones first; nil exactly when there is none. |
| SubKeys.Hive.FindSubKeyByNumber | core/cmindex.cpp:600-642 | Enumeration lists the stable subkeys in the order of their names and then the volatile ones in theirs; nil past the end. |
| SubKeys.Hive.RemoveSubKey | core/cmindex.cpp:1694-1876 | Exactly the target is gone from the sequence of subkeys; empty leaves and roots are freed and no other cell is; the lists of all other keys are as they were. |
| SubKeys.Hive.RemoveFromSingle | core/cmindex.cpp:1798-1857 | A leaf that is an index of its own loses the entry, or is freed with its last one. |
| SubKeys.Hive.RemoveBelowRoot | core/cmindex.cpp:1777-1857 | A leaf below a root loses the entry, or is freed and taken out of the root, or freed with the root. |
| SubKeys.Hive.FindEntry | core/cmindex.cpp:1777-1806 | The search of the root and of the leaf lead to the entry of a key that is listed. |
| SubKeys.Hive.AddAndRemove | core/cmindex.cpp:1465-1876 | Adding a subkey and removing it again leaves every count and every list of subkeys as it was. |
| KeyGraph.PathIsWalked | core/cmcheck.cpp:1036-1239 | When a walk finds nothing wrong, every path down the graph is as short as its depth limit, its keys are settled, and parents are right where they are checked. |
| KeyGraph.WalkedWhen | core/cmcheck.cpp:1078-1239 | A walk finds nothing wrong if no path down the graph is too long or comes to a key that is not settled, not listed by its Parent where that counts, or lists its subkeys out of order or nil among them. |
| KeyGraph.WalkedThen | core/cmcheck.cpp:1078-1239 | And only if so. |
| KeyGraph.NoCycle | core/cmcheck.cpp:1036-1239 | A graph that is walked without complaint has no cycle that can be reached. |
| KeyGraph.OneParent | core/cmcheck.cpp:914-926 | Where parents are checked, a key is listed by one key only, the one its Parent names. |
| KeyGraph.RootIsNotListed | core/cmcheck.cpp:1036-1239 | The root is nobody's subkey. |
| KeyGraph.ReachedIsSettled | core/cmcheck.cpp:1036-1239 | In a graph that is walked without complaint every key that can be reached is settled. |
| CheckStack.TopValidated | core/cmcheck.cpp:1100-1170 | Validating the key on top keeps all that the stack says about what was walked already. |
| CheckStack.ChildPushed | core/cmcheck.cpp:1185-1226 | Going down to the next child keeps it too, and uses up one unit of a work measure that exists for cyclic graphs as well. |
| CheckStack.TopPopped | core/cmcheck.cpp:1228-1234 | When all children of a key are done, the key counts as walked for the frame below, and for the root the whole walk is done. |
| CheckStack.StackReaches | core/cmcheck.cpp:1078-1239 | Every key on the stack can be reached from the root, each listed by the one below it. |
| Checker.Registry.ValidateValueListByCount | core/cmcheck.cpp:268-466 | With healing exactly the unsound values are taken out and the others stay in order; without, it passes exactly when all are sound, and nothing changes. The hive is marked as healed exactly when a value went. |
| Checker.Registry.RepairValueListCount | core/cmheal.cpp:696-741 | One value less, and the others in order. |
| Checker.Registry.ValidateValueList | core/cmcheck.cpp:482-550 | A list that passes is there, is no larger than its cell and has only sound values, and the sound beginnings of all other lists are as they were; without healing it passes exactly when it is sound. |
| Checker.Registry.ValidateSubKeyList | core/cmcheck.cpp:591-752 | It passes with a sound list whose total is the count, or with the count put right; without healing exactly when list and count are right. The hive is marked as healed exactly when the count changed. |
| Checker.Registry.CountLeaves | core/cmcheck.cpp:683-719 | The leaves of a root are all leaves in allocated cells, and the total is that of their entries; otherwise the complaint is about the first that is not, unallocated or no leaf. |
| Checker.Registry.ValidateLinks | core/cmcheck.cpp:913-957 | Parent, signature and class are mended with healing, each as the source mends it; without, it passes exactly when they are right. The hive is marked as healed exactly when one of them was not right. |
| Checker.Registry.ValidateValues | core/cmcheck.cpp:959-972 | A value list that cannot be mended otherwise is given up, with healing; what the key is afterwards is given. |
| Checker.Registry.ValidateSubKeys | core/cmcheck.cpp:974-998 | A subkey list is given up where that mends the key, with healing; what the key is afterwards is given, and the graph of keys stays what it is. |
| Checker.Registry.ValidateKey | core/cmcheck.cpp:849-1003 | Without healing a key passes exactly when it is sound and its Parent is the key that lists it; with healing, exactly when its shape is sane and it is not a volatile key with stable subkeys. What a key that passes has become is given field by field: links, class, values and subkeys as they were or mended, volatile subkeys purged as the flags ask. It is sound, keys that were sound stay so, the graph of keys stays what it is, and the hive is marked as healed exactly when a link was mended. |
| Checker.Registry.SoundKeyStays | core/cmcheck.cpp:849-1003 | A sound key keeps its values, its class, its subkeys and its signature; only its Parent is set, a class length without a class cleared, and its volatile subkeys purged if asked for. |
| Checker.Registry.CheckShape | core/cmcheck.cpp:860-911 | Each of the four complaints about a node is made exactly in its case, in the order allocation, size, name, name beyond the cell. |
| Checker.Registry.PurgeVolatileKeys | core/cmcheck.cpp:774-810 | The volatile subkeys are forgotten where that is asked for, and nothing else; the list is then empty or, for the boot loader and newer hives, marked as not set up. |
| Checker.Registry.RemoveSubKeyInLeaf | core/cmheal.cpp:281-348 | Exactly the first entry that names the key is gone, if there is one. |
| Checker.Registry.RemoveSubkeyInRoot | core/cmheal.cpp:164-254 | The same over the leaves of a root. |
| Checker.Registry.RepairParentKey | core/cmheal.cpp:409-501 | With healing a listed key loses one entry of its parent's list, the parent counts one less and the hive is marked; otherwise nothing changes. |
| Checker.Registry.Advance | core/cmcheck.cpp:1172-1234 | The next child of the key on top, or back to the frame below; the work that is left goes down. |
| Checker.Registry.VisitTop | core/cmcheck.cpp:1100-1170 | The key on top is validated and compared with the one before it; a key at fault is taken out or ends the check. |
| Checker.Registry.Judge | core/cmcheck.cpp:1103-1165 | A key is good only if it is settled, its Parent is right and it comes after the one before; with healing exactly if it can be mended and does; with healing the fault is fatal exactly if it is that the root cannot be mended. |
| Checker.Registry.GiveUp | core/cmcheck.cpp:1115-1164 | A fault that is not fatal starts the walk anew exactly with healing, with one entry of the key at fault gone; if that key cannot be mended, every list keeps all entries of keys that can. |
| Checker.Registry.Walk | core/cmcheck.cpp:1078-1239 | One walk ends, for cyclic graphs too; it asks for another only after an entry has been taken out; it ends well, with and without healing, exactly when what it will find can be told to be right beforehand, and then the whole graph has been walked. With keys that can be mended in order, it takes out only keys that cannot. |
| Checker.Registry.ValidateRegistryInternal | core/cmcheck.cpp:1036-1239 | The check ends for every registry, and says Good exactly when the registry it leaves has a root and a walk finds, without healing, only sound keys with the right Parents, and, with healing, only keys that can be mended; with no entry taken out exactly when the registry as it was is like that. With healing, where the keys that can be mended are in order, only entries of keys that cannot are lost, it says Good only if below the root every key that can be mended lists no nil and lies within 511 levels, and it does say so if the others do too. A registry that passes without healing is left alone with it: links, lists and the mark of healing; and whatever is mended, the mark is set. |
| Checker.Registry.VerdictByPaths | core/cmcheck.cpp:1036-1239 | The verdict depends on the ways down from the root: none may be too long, come to a key that is not sound or not listed by its Parent, or with healing cannot be mended, or to a list out of order or with a nil entry. |
| Healing.RoomEnough | core/cmcheck.cpp:1198-1211 | In a graph of no more than 511 levels the two conditions on what healing leaves are the same, so that there the verdict is exact. |
| Healing.BearsThinned | core/cmheal.cpp:409-501 | Taking out keys that cannot be mended neither makes nor breaks what healing needs of the others. |
| Checker.GraphTaken | core/cmheal.cpp:409-501 | Taking a key out of a leaf and lowering its parent's count shortens the lists that have this leaf, by entries of that key only, and no other list. |
| Checker.Registry.OnlyMendedLeft | core/cmcheck.cpp:1115-1164 | In a registry that healing leaves Good each key that can be reached lists what it listed before, in order, without the keys that cannot be mended. |
| Checker.FewerEntries | core/cmcheck.cpp:1120-1164 | Taking a key out leaves one entry less in all index cells together: the measure of the restarts. |
| Checker.Registry.AcceptedPath | core/cmcheck.cpp:1036-1239 | In a registry found Good, healed or not, every way down from the root has at most 511 keys, none twice, each of a sane shape, with its signature, class, values and subkey list sound and the count of the subkeys it lists, and purged of volatile subkeys if a flag asks for that; without healing, with the Parent that lists it. |
| Checker.Registry.AcceptedParent | core/cmcheck.cpp:914-926 | In a registry found Good without healing each key is listed by one key only, the one its Parent names, and the root by none. |
| Checker.Registry.OneParentEach | core/cmcheck.cpp:914-926 | In a registry found Good, healed or not, every Parent is the one key that lists the key if and only if no key is listed by two keys that can be reached. |
| Checker.SharedKeyStays | core/cmheal.cpp:532-558 | With healing a key may be listed by two: a registry that the check, healing, finds Good, in which two keys list the same key before and after. |
| Security.Registry.constructor | core/cmi.cpp:254-292 | One key, one security cell with one reference, in a ring of its own. |
| Security.Registry.CreateSubKey | core/cmi.cpp:374-399 | The new key names its parent's security cell, which counts one more. |
| Security.Registry.RemoveSecurityCellList | core/cmse.cpp:27-70 | The neighbours of the cell name each other. |
| Security.RingWithout | core/cmse.cpp:27-70 | Without the cell the others form rings in the same order, with the counts they had. |
| Security.Registry.FreeSecurityDescriptor | core/cmse.cpp:82-131 | The key names no security cell any more, and its cell is freed exactly when no other key names it. |
| Security.Registry.FreeKeyByCell | core/cmkeydel.cpp:164-242 | The key is gone, and its security cell is freed exactly when it was the last to name it; the body's own release never happens. |
| Security.Serve | core/cmkeydel.cpp:129-242 | Over any run of creations and deletions in any hive, each key has the security cell it was given, each security cell counts exactly the keys that name it and keeps its place in the ring, and it is there exactly as long as some key names it. |
| Security.Run | core/cmi.cpp:254-399 | In a hive that started with one key all keys share its security cell, which counts them and is freed with the last. |

## Left out

- Allocator.Dual.AllocateCell: does not model sizes near 2^32, where the rounding in `core/hivecell.cpp:419` wraps; a storage has at most 0x7FFFF blocks, so that offsets stay below the type bit.
- Allocator.Dual.AddBin: the host's memory is a limit on the number of blocks; other failures of allocation are not modelled.
- Allocator.Dual.FreeCell: the dirty marks made by allocating and freeing are not modelled there; `DirtyCells` treats marking on its own.
- Allocator.Dual.ValidateBin: asks that what the walk reads is there, at whole words: after a cell whose size is not a multiple of four the source reads headers across two of them.
- Allocator.Dual.ValidateHive: asks that a bin that passes the test of its place covers a block: over a smaller one the source's loop does not end (`core/cmcheck.cpp:1401`). The signature of the hive's descriptor is left out; one storage at a time.
- HiveSync.Hive.SyncHive: a write is complete or does not happen, and writes reach the files in order; the clock reads 0, as in the source (`core/rtl.cpp:149-153`). Of a hive without a log that a flush leaves half written nothing is claimed.
- HiveSync.Hive.Run: with a log, asks for at most 480 blocks; `HiveSync.LargeHiveLoses` shows that the bound is exact.
- HiveSync.Hive.LoadFiles: asks that no header it may use names more than 508 blocks, since the replay then reads past the sector of the vector; the size of the file, which a header built anew takes for the length, is a parameter. What happens to a hive after its replay is not modelled; its sequence numbers still differ, so that `HiveSync.Hive.WriteLog` refuses to flush it.
- HiveLoad.InitializeFileHive: a bin that reaches past the length in the header makes the source write behind its block map; here the block map is a sequence that gets longer. The dirty vector it sets up, file names and boot flags are left out, and so is the same walk over an image in memory (`core/hiveinit.cpp:280-408`).
- HiveLoad.SaveAndLoad: stable storage only; volatile storage is not saved.
- Addresses: the bins of a storage lie one after another in one flat memory, so block addresses are offsets; words are mathematical integers, reduced to 32 bits where they are stored in a file.
- SubKeys.Hive.AllocateCell: which free cell is used, and how much larger it is than asked for, is left open, within the allocator's contract; allocation succeeds, since adding a subkey does not handle a failure (`core/cmindex.cpp:1540-1544`, `core/cmindex.cpp:1661-1665`).
- SubKeys.Hive.ReallocateCell: succeeds, for the same reason.
- SubKeys.Hive.Prepare: index cells are records in a map, without a layout in bytes; the change of a fast leaf into a plain one is modelled on the sequence of entries. Counts are not limited to 16 bits.
- IndexSearch.CompareInIndex: names of keys are compressed (one byte a character) and not empty, and cells can always be mapped, so the result 2 does not occur; `RtlCompareUnicodeString` for other names reads one unit too many (`core/rtl.cpp:86`) and is no order.
- SubKeys.Hive.RemoveSubKey: the source asserts that the target is listed; the model asks for it. The marks of index cells as dirty are left out.
- Checker.Registry.ValidateKey: a cell is seen as a key, an index, a value and a value list without one changing when another does; an index without a valid signature is a cell without an index record; only stable lists are checked, as in the source.
- Checker.Registry.ValidateValueListByCount: the data of a value is allocated or not; the number of removed values it reports (`core/cmcheck.cpp:312`) is left out.
- Checker.Registry.ValidateRegistryInternal: where healing meets keys that could be mended but are out of order, it takes out the first entry that names the later one; what it takes out is not foretold then, and the verdict is given for the registry it leaves. Nor is it foretold whether a key that cannot be mended, 511 levels down, is taken out before the walk gets there.
- Checker.Registry.AcceptedParent: does not exclude that one list names the same key twice.
- Security.Serve: making a security cell for a key that has one already, which loses a reference, does not occur. Keys with the predefined-handle flag, whose body frees the security cell whoever else names it (`core/cmkeydel.cpp:129-160`), do not occur either.
- Value lists and value data outside the checker (`core/cmvalue.cpp`): adding, removing and copying.
- `RtlFindClearBits` (its bound misses a run at the very end, `core/bitmap.cpp:468`), `RtlFindClearRuns` and `RtlFindLastBackwardRunClear`.
- File handles, paths, the registry and key wrappers, INF import, tools and tests: plumbing.
