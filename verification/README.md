# baSic_ kernel: verified model

A Dafny model of the parts of the baSic_ kernel that keep state in arrays, tables and linked headers, with proofs of
what they promise. `dafny verify dfyconfig.toml` checks it.

The source changes its state in place, and so does the model: the FAT12 driver, the sector cache, the heap, the frame
bitmap, the page tables, the expression parser's cursor, the process table, the editor's array, the file buffers, the
pipe ring, the descriptor table and the packet buffers are classes or arrays whose methods follow the C functions,
loop for loop. The methods are proved against functions on plain values, which give their results and their new state,
and the theorems are about those functions, over all inputs and all runs.

| files | models |
|---|---|
| FatEntries, FatNames, FatChains, FatVolume, FatTheorems, FatRuns, FatListing, FatExamples, FatLayout, Fat12, FatRecovery | the FAT12 driver over the sector cache (`kernel/fat12.c`) |
| Disk | the sector cache over a drive that may fail (`kernel/disk.c`) |
| HeapBlocks, Heap | the kernel heap with headers at real addresses (`mm/heap.c`) |
| Bits, Pmm, PageTables, Vmm | the frame bitmap and two-level paging (`mm/pmm.c`, `mm/vmm.c`) |
| CalcGrammar, CalcParser, CalcTheorems, Calc, Kprintf, CalcPrinted | the expression evaluator and number printing (`kernel/calc.c`, `lib/kprintf.c`) |
| ProcTable, ProcSafety, ProcFairness, Processes | process table and round-robin scheduler (`kernel/process.c`, `kernel/sched.c`, `kernel/syscall.c`) |
| EditorText, EditorRuns, EditorPlain, Editor, SavedText, EditorFiles | the text editor's buffer, and saving and loading (`kernel/editor.c`) |
| RamFs, Streams, Pipes, Descriptors, Paths | in-memory files, pipes, descriptors, path lookup and find (`fs/`, `kernel/pipe.c`, `kernel/shell.c`) |
| Checksum, NetFrames | the Internet checksum and the frames built around it (`kernel/net.c`) |

The drive is an array of sectors with an oracle that decides which operations fail and what a failed one leaves behind.
The register frame of an interrupt is a record. Time, keyboard and network input are parameters. Machine words are
written out where they matter: u8, u16 and u32 are ranges, the heap's rounding wraps, the evaluator tracks the first
signed overflow in a ghost flag because C leaves its result undefined, and the page-table words are proved equal to
the disjunctions and masks that the source writes, bit by bit.

What the proofs found in the code, each with a lemma:

- A write that fails for want of space has already deleted the file it was to replace (`FatRuns.FailedWriteLosesOldFile`,
  `FatExamples.FailedOverwriteLosesA`). The entry is gone from the drive, the table on it is not flushed: a mount then
  finds the file's clusters owned by nobody (`FatRecovery.FailedWriteRemount`, exactly when). Nothing else is lost by a
  reboot between two calls (`FatRecovery.RunThenReboot`). A zero-length file is created while 0, the failure value, is
  returned (`Fat12.Driver.Write`).
- A written file is found under its own name exactly if the name fits 8.3 and does not begin with the byte 0xE5
  (`FatTheorems.WrittenNameFoundIff`, where names are unique); a name that does begin with it leaks its clusters
  (`FatTheorems.WriteConserves`, `FatExamples.DeletedNameLeaks`).
- A name that does not fit 8.3 is stored under another name, and a file that has that name already is not replaced. The
  directory then holds the name twice, and whichever entry comes first is read: writing `A.` beside `A` can turn `A`
  into the new file. Names stay unique exactly as `FatTheorems.WriteKeepsUniqueIff` says, `FatTheorems.WriteContents` says
  what each name reads as, and `FatExamples.DottedNameDuplicates` is a volume on which it happens.
- `Documentation/DOCS.md:288` says that the cache evicts the oldest dirty slot; the code evicts slot 0
  (`kernel/disk.c:51-58`), and the model follows the code (`Disk.Cache.Evict`).
- A heap request above 0xFFFFFFF8 bytes wraps and is granted a block too small for it (`HeapBlocks.AllocGrants`).
- After an exit the shell is current but not RUNNING, and ticks bring it back exactly if another process is READY
  (`ProcFairness.ShellResumesIff`); one exec and ten ticks after boot an exit strands it (`ProcFairness.StrandingReached`).
- Freeing a frame twice makes the allocator's counter wrong (`Pmm.FrameAllocator.Free`).
- A flush clears the dirty flag of a slot whose write-back failed, so the sector is lost (`Disk.Cache.Flush`).
- The editor saves a text of 128 lines to a file that it loads as 129, one more than its array has
  (`SavedText.OwnFileOverruns`, `EditorFiles.Load`).
- Reading back the least 32-bit integer overflows (`Kprintf.PrintedEvaluates`).
- The editor's find never reports an occurrence that covers the cursor (`Editor.Editor.Find`), and a Backspace
  refused for want of room still sets the modified flag (`Editor.Editor.DeleteChar`).
- A slot of the descriptor table that once held a pipe still counts as a pipe when a file is opened in it
  (`Descriptors.FdTable.Open`), and a descriptor duplicated onto itself is closed (`Descriptors.FdTable.Dup2`).
- find cuts paths off at 255 characters, and below a directory whose path has 254 it prints a line that is no start of
  the path and may be the path of another directory (`Paths.PrintedIff`, `Paths.PrintsWrongPath`).

## Model

| member | source | states |
|---|---|---|
| Bytes.LowByteFirst | kernel/fat12.c:30-40 | two- and four-byte fields keep their low byte first |
| FatEntries.PackUnpack | kernel/fat12.c:79-101 | a 12-bit value packed into two shared bytes unpacks to itself, and the half-byte of the neighbouring entry is untouched |
| FatEntries.SetThenGet | kernel/fat12.c:79-101 | after writing entry c, reading c gives the value and reading any other entry gives what it gave before |
| FatEntries.EntriesAfterSet | kernel/fat12.c:79-101 | on the table as a whole a write is an update at one index |
| FatEntries.EntriesFromPrefix | kernel/fat12.c:57-76 | the entries of a volume with one FAT sector depend only on the first sector of the cached table |
| FatEntries.EntryLayout | kernel/fat12.c:79-101 | entries lie in the table as consecutive 12-bit numbers, low bits first: two of them are three bytes read as one number |
| FatEntries.LinksOfThreeBytes | kernel/fat12.c:79-88 | the bytes 03 40 00 at offset 3 are the links 3 and 4 of clusters 2 and 3 |
| FatNames.StoredMatchesIff | kernel/fat12.c:125-177 | a name looked up as it was given finds its own stored 8.3 form exactly when it fits the 8.3 field |
| FatNames.StoredIsUpper | kernel/fat12.c:125-164 | what is stored of a fitting name and printed back is that name in upper case |
| FatNames.FitsUpToCase | kernel/fat12.c:139-177 | whether a name fits 8.3 does not depend on letter case |
| FatNames.StoredShape | kernel/fat12.c:125-164 | how long the printed form of a stored name can be, given where the dot stands |
| FatNames.FieldBytes | kernel/fat12.c:139-164 | each of the eleven bytes stored for a name: what precedes the first dot, what follows it, upper-case ASCII, spaces behind |
| FatNames.FieldPrints | kernel/fat12.c:125-136 | a name field is printed as it stands without the spaces behind its parts, with a dot before a second one |
| FatNames.NamesMatch | kernel/fat12.c:166-177 | the comparison loop answers yes exactly for names equal up to ASCII case |
| FatChains.ChainUnique | kernel/fat12.c:248-284 | a start cluster has at most one end-marked chain |
| FatChains.ChainAcyclic | kernel/fat12.c:248-284 | a chain visits no cluster twice |
| FatChains.ChainMembers | kernel/fat12.c:248-284 | every cluster of a chain is in the data range and has a non-zero entry |
| FatChains.FreeChainClearsReachable | kernel/fat12.c:277-284 | free_chain ends on every table whose links stay in range, cyclic or cross-linked ones too, and zeroes exactly the clusters reachable from its argument |
| FatChains.FreeChainOfChain | kernel/fat12.c:277-284 | on an end-marked chain it zeroes exactly the chain |
| FatChains.NonZerosAfterClear | kernel/fat12.c:277-284 | the measure that makes free_chain end: each step lowers the number of non-zero entries |
| FatChains.FirstFree | kernel/fat12.c:118-123 | the allocator's answer is the lowest zero entry, and 0 exactly when there is none |
| FatChains.AllocChainLays | kernel/fat12.c:333-348 | the allocation loop either lays a chain of the wanted length over free clusters, leaving every other entry alone, or restores the table |
| FatChains.LaidOverUndone | kernel/fat12.c:277-284 | freeing a chain that was laid over free clusters gives the old table back |
| FatChains.AllocTakesLowest | kernel/fat12.c:333-348 | a new chain takes the lowest free clusters in ascending order |
| FatChains.EndMarks | kernel/fat12.c:261-284 | a chain ends at link values below 2 and from 0xFF0 on, and at no others |
| FatVolume.FindFromFirst | kernel/fat12.c:210-238 | the directory search returns the first live entry of the name before the end mark, if there is one |
| FatVolume.FreeSlotFirst | kernel/fat12.c:287-310 | the slot taken for a new file is the first deleted or end slot |
| FatVolume.NewEntry | kernel/fat12.c:363-378 | a new directory entry reads back with the stored name, archive attribute, first cluster and size |
| FatVolume.NewEntryBytes | kernel/fat12.c:372-379 | byte by byte: the name field, 0x20, zeros, the first cluster at 26 and the size at 28, low bytes first |
| FatVolume.EntryFields | kernel/fat12.c:256-257 | the same places are read in every entry |
| FatVolume.ComparedKinds | kernel/fat12.c:223-225 | end marks, deleted entries, labels and long-name entries are never compared with a name; files and sub-directories are |
| FatVolume.ClustersNeededLeast | kernel/fat12.c:330-331 | a file takes the least number of 512-byte clusters that holds it, and one at least |
| FatVolume.BlockBytes | kernel/fat12.c:353-359 | a written sector holds the file's next bytes and zeros behind them |
| FatVolume.DenotesIff | kernel/fat12.c:243-251 | one slash in front of a name is dropped, a second one is part of the name |
| FatVolume.FreeExactlyOutside | kernel/fat12.c:118-123 | on a well-formed volume the zero entries are exactly the clusters that no chain and no orphan uses |
| FatTheorems.WriteKeepsWellFormed | kernel/fat12.c:312-385 | writing or overwriting keeps every live chain end-marked and pairwise disjoint, also when the disk or the root directory is full |
| FatTheorems.WriteConserves | kernel/fat12.c:312-385 | a write leaks no cluster exactly if it fails or the stored name does not begin with the deleted mark 0xE5 |
| FatTheorems.WriteOutcome | kernel/fat12.c:312-361 | a write fails exactly when the free clusters and those of the file it replaces are too few, or when it replaces none and no directory slot is free |
| FatTheorems.WriteIsolated | kernel/fat12.c:312-385 | a write, failed or not, changes the contents of no file but those of the name written and of the name it is stored under |
| FatTheorems.WriteContents | kernel/fat12.c:312-385 | what every name holds afterwards: the new bytes under the stored name unless a file of that name stands further in front, else what deleting the older file leaves, which is nothing under the written name exactly if that stood in the directory once at most |
| FatTheorems.WriteReadsBack | kernel/fat12.c:248-274 | a written file of a fitting name reads back, in any letter case, as the first bytes of what was written, up to the buffer |
| FatTheorems.SlashIgnored | kernel/fat12.c:240-393 | writing, reading and deleting a name with a slash in front is writing, reading and deleting the name |
| FatTheorems.PathReadsBack | kernel/fat12.c:248-385 | a written file reads back with or without a slash on either side, in any letter case |
| FatTheorems.StoreReadsBack | kernel/fat12.c:350-361 | storing bytes sector by sector along a chain and concatenating its sectors gives the bytes back |
| FatTheorems.WriteKeepsUniqueIff | kernel/fat12.c:312-385 | names that were unique up to case stay so exactly if the write fails, or the name begins with 0xE5, or fits 8.3, or no file has its stored form as name |
| FatTheorems.WrittenNameFoundIff | kernel/fat12.c:312-385 | after a write reported as done something is found under the written name exactly if it fits 8.3 and does not begin with 0xE5, or stood in the directory twice before |
| FatExamples.DottedNameDuplicates | kernel/fat12.c:312-385 | writing A. on a volume that holds A succeeds and gives the directory two entries of one name, and A then reads as the new bytes |
| FatExamples.FailedOverwriteLosesA | kernel/fat12.c:312-385 | overwriting A with more than the volume holds fails and leaves no file A |
| FatExamples.DeletedNameLeaks | kernel/fat12.c:312-385 | a file written under a name that begins with 0xE5 is reported as done, is not found, and its clusters are lost |
| FatTheorems.FailedWriteOnDisk | kernel/fat12.c:312-385 | a volume with the directory after a failed write and the table from before it is well formed; it has leaked exactly the clusters of the file that was to be replaced |
| FatTheorems.EraseConserves | kernel/fat12.c:387-406 | deleting an entry frees exactly its own chain and keeps all other chains |
| FatRuns.DeleteRemoves | kernel/fat12.c:387-406 | after a delete the name, in any letter case, is gone exactly if it stood in the directory once at most; no other name changes and no cluster leaks |
| FatRuns.DeleteMarks | kernel/fat12.c:387-406 | a delete writes 0xE5 over one byte of the directory, the first of the entry found, and touches no data |
| FatRuns.FailedWriteLosesOldFile | kernel/fat12.c:312-361 | after a failed overwrite nothing is found under the name exactly if it stood in the directory once at most: the old file is already deleted |
| FatRuns.StepKeepsWellFormed | kernel/fat12.c:312-406 | an operation on any name, failed or not, keeps chains end-marked and disjoint, and leaks no cluster unless it writes a name that begins with 0xE5 |
| FatRuns.RunKeepsWellFormed | kernel/fat12.c:312-406 | so does every run of writes and deletes of any names |
| FatRuns.StepUniqueIff | kernel/fat12.c:312-406 | on unique names, an operation keeps them unique exactly if it deletes or fails, or the written name begins with 0xE5, fits 8.3 or is stored under a free name |
| FatRuns.StepRefines | kernel/fat12.c:312-406 | an operation that keeps names unique acts on a map from names to contents: a write sets its stored name and clears the name given, delete and a failed write clear theirs |
| FatRuns.RunRefines | kernel/fat12.c:312-406 | every name reads as that map says after every run that keeps names unique throughout |
| FatRuns.FittingRunIsProper | kernel/fat12.c:312-406 | a run on names that fit 8.3 is such a run |
| FatListing.ReadRefines | kernel/fat12.c:210-274 | what a name holds is the first file of that name in the list of directory slots |
| FatListing.ClearRefines | kernel/fat12.c:387-406 | a delete frees the first slot of the name and that file's clusters, and changes no other slot |
| FatListing.PutRefines | kernel/fat12.c:312-385 | a write first does the same; it fails if the clusters or else the slots do not suffice, and otherwise fills the first free slot under the stored name; on any well-formed volume |
| FatListing.RunRefinesList | kernel/fat12.c:210-406 | over every run of writes and deletes of any names, failures included, the volume is the list of slots that the run makes, and every name reads as that list says |
| FatLayout.ParseKeepsAreasApart | kernel/fat12.c:42-56 | the areas computed from a supported boot sector do not overlap and lie on the disk |
| FatLayout.ParsesFloppy | kernel/fat12.c:54-66 | the geometry read from the boot sector bytes of a 360-sector volume |
| FatLayout.ParsesLongCount | kernel/fat12.c:59-60 | where the short sector count is zero the one at offset 32 counts |
| FatLayout.TableBytes | kernel/fat12.c:103-116 | byte b of the cached table is byte b of each copy on the disk |
| FatLayout.DirBytes | kernel/fat12.c:210-224 | the directory is one string of 32-byte entries over consecutive sectors |
| FatLayout.DirSlotWritten | kernel/fat12.c:372-378 | rewriting 32 bytes of a root sector changes one directory entry and no data cluster |
| FatLayout.DataSectorWritten | kernel/fat12.c:350-361 | writing a data sector changes one cluster and no directory entry |
| FatLayout.TableSectorWritten | kernel/fat12.c:103-116 | writing a FAT sector changes neither directory nor data |
| FatLayout.RemountAgrees | kernel/fat12.c:42-77 | two drivers whose cached tables both agree with one FAT copy on the disk see the same volume |
| FatLayout.RemountWithOldTable | kernel/fat12.c:42-77 | mounting where only sectors behind the tables were written gives the old table over the new directory and data |
| Fat12.Fat83ToStr | kernel/fat12.c:125-136 | the in-place loop prints the name the specification of stored names gives |
| Fat12.StrToFat83 | kernel/fat12.c:139-164 | the in-place loop stores the upper-case, space-padded 11 bytes of the specification |
| Fat12.Driver.Init | kernel/fat12.c:42-77 | mounting succeeds exactly on the boot signature and leaves the cached table equal to the first FAT copy; nothing seen on the disk changes |
| Fat12.Driver.Get | kernel/fat12.c:79-88 | reads the entry of the table the volume is seen through |
| Fat12.Driver.Set | kernel/fat12.c:90-101 | updates that one entry in place and marks the table dirty |
| Fat12.Driver.AllocCluster | kernel/fat12.c:118-123 | returns the lowest free cluster or 0 |
| Fat12.Driver.FreeFrom | kernel/fat12.c:277-284 | the loop computes free_chain of the old table |
| Fat12.Driver.FlushTable | kernel/fat12.c:103-116 | afterwards both FAT copies on the disk hold the table; the volume seen does not change |
| Fat12.Driver.FindEntry | kernel/fat12.c:210-238 | returns the entry and disk position of the first match, or nothing if there is none, and changes nothing seen |
| Fat12.Driver.AllocRootEntry | kernel/fat12.c:287-310 | returns the disk position of the first free slot, or nothing if there is none |
| Fat12.Driver.Exists | kernel/fat12.c:240-246 | says whether a live entry of the name exists |
| Fat12.Driver.Read | kernel/fat12.c:248-274 | fills the buffer with the file's first bytes, leaves the rest of the buffer alone and the volume unchanged |
| Fat12.Driver.Write | kernel/fat12.c:312-385 | takes the volume to the one the specification of a write gives; a success leaves the cache clean and both FAT copies equal to the table, a failure leaves every sector of both copies as it was |
| Fat12.Driver.Delete | kernel/fat12.c:387-406 | takes the volume to the one the specification of a delete gives, flushed, and says whether the file was there; both FAT copies then hold the table if it was dirty before or the file had clusters |
| Fat12.Driver.Boot | kernel/fat12.c:42-77 | a fresh cache and driver over the same drive mount exactly on the boot signature and write nothing |
| Fat12.Driver.Reboot | kernel/fat12.c:42-77 | remount: a driver booted afresh after a flushed operation sees the same volume |
| Fat12.WriteRebootRead | kernel/fat12.c:248-385 | end to end through the driver's own code: what a write reports as written is read after a reboot, in any letter case, with or without a slash on either side |
| FatRecovery.FailureLags | kernel/fat12.c:312-385 | where the table on the drive is older than the cached one but has every file's chain, it still has after a failed write |
| FatRecovery.Apply | kernel/fat12.c:312-406 | so every write and delete of the driver, failed or not, leaves such a table on the drive |
| FatRecovery.RunThenReboot | kernel/fat12.c:42-406 | end to end through the driver's own code: any run of writes and deletes of any names, then a reboot; the mounted volume is well formed and holds in every directory slot what the list of slots says, so no file is lost or changed by rebooting |
| FatRecovery.FailedWriteRemount | kernel/fat12.c:42-385 | a write that fails, then a mount: the volume is well formed, the file to be replaced has no entry, and clusters have leaked exactly if that file had any |
| Disk.Ata.Read | kernel/disk.c:61-76 | one sector read of the modelled drive: it may fail and then delivers an arbitrary sector |
| Disk.Ata.Write | kernel/disk.c:78-88 | one sector write of the modelled drive: it may fail and then leaves an arbitrary sector |
| Disk.ReplaceInvisible | kernel/disk.c:40-59 | replacing a slot that holds nothing unsaved by a clean copy of its sector changes no sector of the view |
| Disk.WriteVisible | kernel/disk.c:78-88 | caching a written sector changes the view at that address and nowhere else |
| Disk.WrittenBack | kernel/disk.c:40-59 | writing slot 0 back and clearing it keeps the view of all other sectors, and the whole view if the write succeeded |
| Disk.LostIsOwed | kernel/disk.c:90-99 | what a flush loses is a sector some dirty slot held and whose write command failed |
| Disk.FlushShows | kernel/disk.c:90-99 | cleared slots show the same sectors, whatever the drive holds under them |
| Disk.Cache.Find | kernel/disk.c:32-38 | returns a slot that holds the address, or -1 exactly when no slot does |
| Disk.Cache.Evict | kernel/disk.c:40-59 | claims a slot; the view is kept unless slot 0 is dirty and its write-back fails, and then only that sector is lost |
| Disk.Cache.ReadSector | kernel/disk.c:61-76 | delivers the sector as seen through the cache and changes no sector of the view, failed reads included, unless the write-back of an evicted slot is lost |
| Disk.Cache.WriteSector | kernel/disk.c:78-88 | the view changes at the written address only, also when the direct write to the drive fails, unless the write-back of an evicted slot is lost |
| Disk.Cache.Flush | kernel/disk.c:90-99 | nothing seen changes; the sectors lost to the drive are exactly those whose write command it refuses, numbered in slot order; it holds all others as seen, and the cache is sound again exactly if it holds those too |
| HeapBlocks.AllocKeepsCoalesced | mm/heap.c:51-79 | after kmalloc the blocks still tile the megabyte with no gap or overlap and no two neighbours are both free |
| HeapBlocks.FreeKeepsCoalesced | mm/heap.c:38-93 | so they do after kfree of a live pointer |
| HeapBlocks.AllocFailsIff | mm/heap.c:51-79 | kmalloc fails exactly for size 0 or when no free block has the rounded size, and then changes nothing |
| HeapBlocks.AllocGrants | mm/heap.c:51-79 | a grant is aligned, was not live before, and is as big as asked exactly for sizes up to 0xFFFFFFF8: beyond that the rounding wraps |
| HeapBlocks.AllocSplits | mm/heap.c:51-75 | the first free block that is large enough is taken; the grant is at most 16 bytes larger than the rounded size, and what it leaves becomes one free block behind it |
| HeapBlocks.TwoGrants | mm/heap.c:51-75 | two requests for 64 bytes on the fresh heap are granted eighty bytes apart |
| HeapBlocks.FreeUndoesAlloc | mm/heap.c:38-93 | freeing what was just granted restores the block list exactly |
| HeapBlocks.EmptyHeapIsInitial | mm/heap.c:27-49 | with nothing live the list is the single initial block |
| HeapBlocks.AllocAddsOne | mm/heap.c:51-79 | kmalloc adds one live block and keeps all others in place |
| HeapBlocks.FreeDropsOne | mm/heap.c:81-93 | kfree removes that one live block and keeps all others |
| HeapBlocks.MergeTiles | mm/heap.c:38-49 | merging keeps the tiling |
| HeapBlocks.MergeSeparates | mm/heap.c:38-49 | merging leaves no two free neighbours |
| HeapBlocks.MergeKeepsUsed | mm/heap.c:38-49 | merging changes no live block |
| HeapBlocks.RunKeepsCoalesced | mm/heap.c:27-93 | over every run of kmalloc and kfree of live pointers the heap stays tiled and coalesced, and is the initial block again once everything is freed |
| Heap.SpliceStored | mm/heap.c:38-79 | rewriting the headers of a stretch of memory leaves all headers outside it as they were |
| Heap.PayloadWriteHarmless | mm/heap.c:51-79 | writing anywhere in a payload disturbs no header |
| Heap.KernelHeap.Poke | mm/heap.c:51-79 | so the owner of a live block may write any word of it and the heap stays valid |
| Heap.KernelHeap.constructor | mm/heap.c:27-36 | heap_init stores the initial block |
| Heap.KernelHeap.Kmalloc | mm/heap.c:51-79 | the header writes yield the specified block list, the pointer is the specified one, and no live payload byte changes |
| Heap.KernelHeap.Kfree | mm/heap.c:81-93 | a live pointer is freed as specified, a null pointer or a missing magic changes nothing, and no live payload byte changes |
| Heap.KernelHeap.MergeFree | mm/heap.c:38-49 | the in-place merge loop computes the merged block list |
| Bits.SetThenBit | mm/pmm.c:22-35 | setting a bit of a bitmap word sets that bit only |
| Bits.ClearThenBit | mm/pmm.c:27-35 | clearing a bit clears that bit only |
| Pmm.LowestFreeIs | mm/pmm.c:57-74 | a clear bit with only set bits below it is the result of the bit-by-bit scan |
| Pmm.CountZeroIff | mm/pmm.c:57-74 | the count of clear bits is zero exactly when the scan finds none |
| Pmm.CountAfterUpdate | mm/pmm.c:57-83 | changing one bit changes the count of clear bits by one |
| Pmm.FrameAllocator.Init | mm/pmm.c:37-55 | the kernel's frames are taken, all others below the end are free, the bits past the end stay set, and the counter is right |
| Pmm.FrameAllocator.FourKilobytes | mm/pmm.c:39 | a frame for every four kilobytes; at 4 GB the byte count wraps to no frame at all |
| Pmm.FrameAllocator.Alloc | mm/pmm.c:57-74 | the scan that skips full words returns exactly the lowest free frame, or 0 exactly when the counter is 0; the counter equals the clear bits |
| Pmm.FrameAllocator.Free | mm/pmm.c:76-83 | an address past the end is ignored, any other frame is free and counted afterwards; the allocator is sound again exactly if that frame was in use and is not the kernel's |
| PageTables.EntryIsOr | mm/vmm.c:18-46 | the word the driver stores, address or flags or the present bit, computed bit by bit, is the entry of the model |
| PageTables.MasksAre | mm/vmm.c:18-55 | so are the present bit and the frame it masks out of a word |
| PageTables.EntryWritten | mm/vmm.c:36-55 | writing one table entry changes the translation of one page |
| PageTables.TableAdded | mm/vmm.c:18-34 | hanging in a zeroed frame that is no table yet changes no translation |
| Vmm.AddressSpace.GetTable | mm/vmm.c:18-34 | returns the page's table, taking a fresh frame if there is none and 0 exactly if no frame is left; no translation changes |
| Vmm.AddressSpace.Map | mm/vmm.c:36-46 | changes the translation of exactly one page, or of none when frames run out; table frames stay allocated and distinct; memory outside tables is untouched |
| Vmm.AddressSpace.Unmap | mm/vmm.c:49-56 | removes exactly one page, even when it takes a frame for a table |
| Vmm.AddressSpace.Init | mm/vmm.c:57-75 | the first 8 MB map to themselves and nothing else is mapped, as far as the frames for two tables go |
| Vmm.KernelEntryIs | mm/vmm.c:62-63 | a word of the identity map is the page's own address, present and writable |
| CalcGrammar.TruncModBounded | kernel/calc.c:52-71 | C's quotient and remainder: they recompose the dividend, and the remainder has its sign and is smaller than the divisor |
| CalcTheorems.EvalIff | kernel/calc.c:87-96 | without overflow, evaluation succeeds with v exactly when the text spells, up to blanks, a tree of the grammar whose value is v |
| CalcTheorems.ValueUnique | kernel/calc.c:16-96 | a text has at most one value |
| CalcTheorems.RejectedHasNoValue | kernel/calc.c:87-96 | a text that is rejected without overflow spells no tree that has a value |
| CalcTheorems.ExprSound | kernel/calc.c:73-85 | what the parser accepts is spelled by a tree with the value it computed |
| CalcTheorems.ExprComplete | kernel/calc.c:73-85 | what a tree with a value spells is accepted with that value |
| CalcTheorems.FactorSound | kernel/calc.c:26-50 | the same for factors: parentheses, a sign, a number |
| CalcTheorems.TermSound | kernel/calc.c:52-71 | the same for terms |
| Calc.Evaluator.Skip | kernel/calc.c:19-22 | moves the cursor over exactly the blanks |
| Calc.Evaluator.Factor | kernel/calc.c:26-50 | the cursor, value and flags end as the recursive specification says |
| Calc.Evaluator.Term | kernel/calc.c:52-71 | the loop ends as the specification says, at once on a zero divisor |
| Calc.Evaluator.Expression | kernel/calc.c:73-85 | the loop ends as the specification says |
| Calc.Evaluator.CalcEval | kernel/calc.c:87-96 | ends on every string, accepts exactly what the specification accepts, and leaves the result alone on failure |
| Kprintf.KbufUint | lib/kprintf.c:44-53 | stores the numeral of the number without overrunning the buffer |
| Kprintf.KbufInt | lib/kprintf.c:55-59 | prints every 32-bit integer, the least one included |
| Kprintf.NumeralValue | lib/kprintf.c:44-53 | a decimal numeral is digits only and denotes its number |
| Kprintf.PrintedEvaluates | lib/kprintf.c:44-59 | evaluating what is printed gives the number back exactly for every 32-bit integer but the least |
| Kprintf.HexDigits | lib/kprintf.c:44-53 | hexadecimal numerals in lower case |
| CalcPrinted.SumEvaluates | kernel/calc.c:73-85 | the text of a printed number, plus or minus, and another evaluates to their sum or difference, and overflows exactly if that is no 32-bit number |
| CalcPrinted.ProductEvaluates | kernel/calc.c:52-71 | the same for product, quotient and remainder; it is rejected exactly for a zero divisor |
| CalcPrinted.LeftToRight | kernel/calc.c:73-85 | a - b - c is (a - b) - c |
| CalcPrinted.ProductsFirst | kernel/calc.c:52-85 | a - b * c is a - (b * c) |
| CalcPrinted.ParenthesesFirst | kernel/calc.c:19-50 | (a - b) * c is the product of the difference, and blanks and tabs do not matter |
| EditorText.InsertFlat | kernel/editor.c:100-114 | on the newline-joined text a printable key inserts one character at the cursor and moves behind it, or is refused on a full line |
| EditorText.NewlineFlat | kernel/editor.c:148-171 | Enter inserts one newline, or is refused at 128 lines |
| EditorText.BackspaceFlat | kernel/editor.c:116-146 | Backspace removes exactly the character before the cursor, a newline included, or is refused and changes no text |
| EditorText.DeleteLineFlat | kernel/editor.c:173-190 | Ctrl-K removes exactly one line with one newline, or empties the only line, and leaves the cursor in its column of the line that follows or is last, or at that line's end |
| EditorText.ArrowsFlat | kernel/editor.c:516-528 | left and right move the cursor by one in the text and stop at its ends |
| EditorText.BackspaceUndoesInsert | kernel/editor.c:100-146 | Backspace after an accepted character restores lines and cursor |
| EditorText.BackspaceUndoesNewline | kernel/editor.c:116-171 | Backspace after an accepted Enter restores lines and cursor |
| EditorText.FlatAround | kernel/editor.c:90-98 | where a line lies in the joined text |
| EditorText.FindUnique | kernel/editor.c:192-220 | the specification of find leaves one answer |
| EditorText.FindMisses | kernel/editor.c:192-220 | searching for the text's only word from its first letter reports nothing |
| EditorPlain.LineInText | kernel/editor.c:90-98 | the lines of the buffer lie between the newlines of the joined text, first and last line at its ends |
| EditorPlain.PressRefines | kernel/editor.c:499-551 | every key, the ones that move between lines and Ctrl-K included, acts on one string with a cursor, or is refused for want of room and changes neither |
| EditorPlain.RunRefinesPlain | kernel/editor.c:499-551 | a whole run of any keys is the run of the accepted ones on the string |
| EditorRuns.RunKeepsClean | kernel/editor.c:499-551 | no run of keys puts a newline inside a line |
| EditorRuns.FlagIff | kernel/editor.c:100-190 | a key sets the modified flag exactly if it changes the lines, or is Ctrl-K, or Backspace at the start of a line but the first; none clears it |
| EditorRuns.UnmodifiedKeepsLines | kernel/editor.c:499-579 | a buffer that is unmodified after any run of keys has the lines it had before it |
| EditorRuns.TypeLine | kernel/editor.c:100-114 | printable keys typed at the end of a line stand there as typed, up to eighty characters |
| EditorRuns.LinesBounded | kernel/editor.c:148-151 | Enter adds a line, up to 128 |
| EditorRuns.OthersIgnored | kernel/editor.c:537-573 | control characters without a meaning and bytes from 127 on do nothing |
| Editor.Editor.constructor | kernel/editor.c:90-98 | starts as one empty line |
| Editor.Editor.InsertChar | kernel/editor.c:100-114 | the shifting loop on the fixed array performs the specified insertion |
| Editor.Editor.DeleteChar | kernel/editor.c:116-146 | the shifting and copying loops perform the specified removal or joining; a refused joining still sets the modified flag |
| Editor.Editor.BreakLine | kernel/editor.c:148-171 | the rows move down and the line is cut as specified |
| Editor.Editor.RemoveLine | kernel/editor.c:173-190 | the rows move up and the cursor is clamped as specified |
| Editor.Editor.Find | kernel/editor.c:192-220 | the two scans return the next occurrence that does not cover the cursor, going round the end of the text, and report nothing exactly if every occurrence covers the cursor |
| Editor.Editor.FindNext | kernel/editor.c:558-570 | Ctrl-N moves the cursor there and keeps it on the screen |
| Editor.Editor.AdjustScroll | kernel/editor.c:476-482 | the cursor's line is shown, by the least movement of the first line |
| Editor.Editor.HandleKey | kernel/editor.c:499-577 | every key keeps the cursor and length invariant, keeps the cursor visible and does what the specification of the key says |
| SavedText.SaveThenLoadIff | kernel/editor.c:284-366 | what was saved loads as the same lines exactly if they are fewer than 128 and fit the file; of 128 lines or more the loaded buffer claims one line more than it has |
| SavedText.RunSaveLoadIff | kernel/editor.c:284-371 | so it is after any run of keys |
| SavedText.OwnFileOverruns | kernel/editor.c:293-316 | 127 times Enter and a save make a file that loads as 129 lines |
| SavedText.LongLineCut | kernel/editor.c:293-316 | of a line of more than eighty bytes the first eighty are loaded |
| SavedText.LoadThenSaveIff | kernel/editor.c:284-371 | saving what was loaded gives the file back exactly if it ends in a newline, has no line of more than 80 bytes and fewer than 128 newlines |
| EditorFiles.Save | kernel/editor.c:357-366 | the write loop leaves each line and a newline in the file, cut off at its capacity, and clears the flag |
| EditorFiles.Load | kernel/editor.c:284-316 | reading in chunks of 128 bytes yields the lines of the file, however the chunks fall; the buffer is sound afterwards exactly if the file has fewer than 128 newlines, and else counts 129 lines |
| EditorFiles.SaveAndReopen | kernel/editor.c:284-371 | saving to a file and opening it in a fresh buffer gives the same lines exactly if they are fewer than 128 and fit the file |
| RamFs.File.Read | fs/ramfs.c:27-37 | delivers the file's bytes from the offset on, at most to its end, and touches nothing else of the buffer |
| RamFs.File.Write | fs/ramfs.c:39-49 | overwrites from the offset on, cut off at the capacity, and extends the length |
| Streams.ChunkedWrites | fs/fd.c:97-106 | however bytes are cut into writes on a new file, it holds the first of them up to its capacity |
| Streams.ChunkedReads | fs/fd.c:86-95 | however reads are sized, they deliver the file in order with no gap or repeat |
| Streams.WriteThenRead | fs/fd.c:86-106 | chunked writing and chunked reading of a new file are inverse up to the capacity |
| Streams.PipeKeepsOrder | kernel/pipe.c:17-38 | over every run, what was read followed by what is queued is what was accepted |
| Streams.PipeStepGreedy | kernel/pipe.c:17-38 | a writer gets rid of all its data or leaves the pipe full, a reader gets what it asked for or leaves it empty |
| Pipes.Pipe.Write | kernel/pipe.c:17-27 | the ring takes as much as fits, at the end of the queue |
| Pipes.Pipe.Read | kernel/pipe.c:29-38 | the ring delivers the oldest bytes and keeps the rest in order |
| Descriptors.FdTable.FreeSlot | fs/fd.c:64-76 | finds the lowest closed slot, or none exactly when all are open |
| Descriptors.FdTable.Open | fs/fd.c:64-76 | opens a file at offset 0 in the lowest closed slot; the slot keeps its pipe mark |
| Descriptors.FdTable.OpenPipe | fs/fd.c:21-35 | opens a pipe end in the lowest closed slot |
| Descriptors.FdTable.Close | fs/fd.c:78-84 | closes the slot, ignores a number out of range |
| Descriptors.FdTable.Dup2 | fs/fd.c:49-56 | copies the descriptor with its own offset; one copied onto itself ends up closed |
| Descriptors.FdTable.Read | fs/fd.c:86-95 | one step of the file stream or the pipe queue; other descriptors and the rest of the buffer are untouched |
| Descriptors.FdTable.Write | fs/fd.c:97-106 | one step of the file stream or the pipe queue; other descriptors are untouched |
| Checksum.FoldKeeps | kernel/net.c:55-63 | folding the carries keeps the sum modulo 65535 and whether it is zero |
| Checksum.StoredVerifies | kernel/net.c:154-160 | storing the checksum in its zeroed, aligned field makes the checksum of the whole buffer zero, for even and odd lengths |
| Checksum.VerifiesIff | kernel/net.c:55-63 | which field values make a buffer verify: the computed one and its other form of zero |
| Checksum.ChangeNoticed | kernel/net.c:55-63 | changing one word of a verifying buffer is noticed, unless it exchanges the two zeros |
| Checksum.ByteOrderIndependent | kernel/net.c:36-63 | the little-endian checksum is the byte swap of the one in network order (RFC 1071, section 2(B)) |
| Checksum.KnownSums | kernel/net.c:55-63 | the example of section 3 of RFC 1071, and a buffer of odd length |
| Checksum.IpChecksum | kernel/net.c:55-63 | the loop computes it, and the 32-bit sum does not wrap up to 131074 bytes |
| Checksum.FillChecksum | kernel/net.c:154-160 | afterwards the range verifies and only the field has changed |
| NetFrames.HandleIcmp | kernel/net.c:130-164 | an echo request gets a reply with addresses turned round, payload kept and both checksums verifying; anything else gets none |
| NetFrames.UdpSend | kernel/net.c:207-256 | refuses a long payload or an unresolved address, else sends a frame with the given ports, lengths and payload, unfragmented, whose header verifies |
| NetFrames.PingFrame | kernel/net.c:298-334 | both checksums of the ping verify, and its header says one unfragmented datagram |
| NetFrames.PingPong | kernel/net.c:130-334 | a ping answered by the other end comes back with its identifier, turned round and verifying |
| Paths.ResolveIff | fs/vfs.c:53-76 | looking up the path of a node finds that very node exactly if no earlier sibling on the way has the same name |
| Paths.UniqueIsFirst | fs/ramfs.c:51-60 | with unique sibling names no node is hidden |
| Paths.LongComponent | fs/vfs.c:53-76 | a component of more than 63 characters is looked up as if a slash stood behind its first 63 |
| Paths.HitsAre | kernel/shell.c:875-888 | the nodes find visits for a name are exactly the nodes of that name |
| Paths.HitsDistinct | kernel/shell.c:875-888 | it visits each once |
| Paths.ReportsAreHits | kernel/shell.c:875-888 | it prints one line for each, in that order: the path buffer built up from the root's |
| Paths.PrintedIff | kernel/shell.c:875-888 | that buffer holds the first 255 characters of the path exactly if no directory on the way has a path of 254 characters, and the whole path exactly if that has fewer than 256; below such a directory it holds that path and one character, without a slash |
| Paths.PrintsSibling | kernel/shell.c:875-888 | such a line can be the path of the directory's sibling, and looking it up then leads there |
| Paths.PrintsWrongPath | kernel/shell.c:875-888 | a tree on which the line printed for a file leads to another directory |
| Paths.FindResolves | kernel/shell.c:875-888 | both for every line find prints; with unique names a path that fits is resolved to the node it was printed for |
| Paths.FindChild | fs/ramfs.c:51-60 | the first child of the name |
| Paths.VfsResolve | fs/vfs.c:53-76 | the component loop computes the lookup |
| Paths.FindRecurse | kernel/shell.c:875-888 | prints the specified lines in order and counts them |
| ProcSafety.BootedSafe | kernel/process.c:16-46 | the table after boot is safe |
| ProcSafety.StepSafe | kernel/sched.c:44-86 | every create, fork, exec, exit, wait and tick keeps pids unique and at most the current process RUNNING |
| ProcSafety.RunSafe | kernel/sched.c:44-86 | so does every run |
| ProcSafety.ReadyStep | kernel/sched.c:44-86 | a READY process's entry, saved context included, changes only by the tick that resumes it or by the shell's own exit |
| ProcSafety.ResumesWherePreempted | kernel/sched.c:44-86 | the frame resumed equals the frame preempted, whatever happens between |
| ProcSafety.ForkChild | kernel/process.c:56-93 | fork fails exactly without a current process or a free slot; else the child has a new pid, the current process as parent, its registers but for eax 0, the bytes of its stack buffer, and the stack pointer at the same place in its own |
| ProcSafety.ChildReturnsZero | kernel/syscall.c:57-64 | whatever happens between, the tick that first resumes a forked child returns 0 on a stack that still equals its parent's at the fork |
| ProcSafety.ExecChild | kernel/process.c:22-46 | exec fails exactly if all sixteen slots are taken; else there is one more process, with a new pid, the caller as parent and its name cut to 31 characters |
| ProcSafety.ExecStarts | kernel/syscall.c:147-169 | whatever happens between, the tick that first resumes it enters the program, interrupts on, at the top of its own stack |
| ProcSafety.StacksApart | kernel/process.c:56-93 | the stack buffers of two slots never overlap |
| ProcSafety.ZombieStep | kernel/process.c:95-117 | a zombie other than pid 1 keeps its entry until a wait returns its pid and exit code |
| ProcSafety.ReapedOnce | kernel/process.c:95-117 | in any run a pid is reaped at most once |
| ProcSafety.ZombieKeptOrReaped | kernel/process.c:95-117 | a zombie is either kept unchanged and never reaped, or reaped once and gone for good |
| ProcSafety.WaitReturns | kernel/process.c:95-117 | a wait for one pid finds exactly the zombie of that pid, a wait for any child exactly a zombie child of the current process; it returns that pid and code and empties that slot only |
| ProcSafety.WaitReturnsExitCode | kernel/syscall.c:43-55 | whatever happens between, the wait that returns a process returns the code it exited with |
| ProcSafety.ParentFinds | kernel/syscall.c:43-55 | until it is reaped, a wait by its pid finds it with that code, and its parent, once current, finds a child to reap |
| ProcFairness.ExitStrandsShell | kernel/syscall.c:43-55 | after an exit with only the shell READY, no tick ever resumes the shell |
| ProcFairness.ShellResumes | kernel/syscall.c:43-55 | after an exit with another process READY, the shell has the processor within 160 ticks of any run without a further exit, less those counted |
| ProcFairness.ShellResumesIff | kernel/syscall.c:43-55 | so ticks bring the shell back after an exit exactly if another process is READY |
| ProcFairness.StrandingReached | kernel/sched.c:44-86 | one exec and ten ticks after boot an exit strands the shell |
| ProcFairness.PickNotPast | kernel/sched.c:23-42 | the round-robin choice never passes over a READY slot |
| ProcFairness.TickProgress | kernel/sched.c:44-86 | each tick resumes a waiting process or lowers its count of ticks left |
| ProcFairness.BoundedWait | kernel/sched.c:23-86 | in any run without an exit a READY process is running after at most 150 ticks |
| ProcFairness.BoundedWaitWithExits | kernel/sched.c:23-86 | in any run with any number of exits a READY process other than the shell is running within 160 ticks and 160 more for each exit |
| Processes.ProcessManager.Boot | kernel/process.c:16-46 | the shell's entry as the first process |
| Processes.ProcessManager.ProcCurrent | kernel/process.c:125-131 | the first slot with the current pid |
| Processes.ProcessManager.ProcCreate | kernel/process.c:22-46 | performs the create transition in the first unused slot, or nothing when the table is full |
| Processes.ProcessManager.ProcFork | kernel/process.c:56-93 | performs the fork transition |
| Processes.ProcessManager.SysFork | kernel/syscall.c:57-64 | returns the child's pid or -1 |
| Processes.ProcessManager.SysExec | kernel/syscall.c:147-169 | performs the exec transition |
| Processes.ProcessManager.SysExit | kernel/syscall.c:43-55 | performs the exit transition |
| Processes.ProcessManager.WaitPass | kernel/process.c:95-117 | performs one polling pass of wait |
| Processes.ProcessManager.PickNextSlot | kernel/sched.c:23-42 | the modular scan finds the first READY slot behind the current one |
| Processes.ProcessManager.SchedTick | kernel/sched.c:44-86 | performs the tick transition and leaves the resumed context in the register frame |

## Left out

- FAT12 volumes with more than one sector per cluster: the source rounds the number of clusters down there (`kernel/fat12.c:330`), so its own write does not store the whole file.
- FAT12 volumes whose table exceeds the 1024 bytes the driver caches: `FatLayout.Supported` asks for at most that many entries.
- Fat12.Driver.Init: mounts no other signed boot sector than those two lines describe; with a cluster size of 0 the source divides by it.
- Fat12.Driver.Boot: the same.
- FAT12 directories with entries behind an end mark, which other systems leave behind: `FatVolume.Sane` excludes them, because a write into the end mark's slot brings such an entry back (`FatExamples.StaleSlotRevived`). The driver itself never makes one.
- Crashes of FAT12 in the middle of a call: directory sectors are written before the table, and the driver's theorems take a drive that answers and reboots between calls; the cache's theorems take any drive.
- Fat12.Driver.Write: the size plus 511 must fit 32 bits, because the source's rounding wraps there.
- The listing function fat12_list, which reads the directory that FindEntry reads.
- Ports, interrupts and the ATA protocol: the drive is an array of sectors of fewer than 2^28 addresses.
- Heap.KernelHeap.Kfree: double frees and pointers into the middle of a payload are outside its precondition; the source trusts its callers there.
- Null results of the heap inside the in-memory file system: a file is modelled with its buffer in place.
- Vmm.AddressSpace.Map: flag bits above the low twelve and page permissions, which come from the first mapping of a table only (`mm/vmm.c:32`).
- Loading the control registers in vmm_init, page tables above the identity-mapped 8 MB reached through paging itself, and that the heap's memory is also handed to the frame allocator.
- Signals, and what the kernel itself pushes on a stack: a saved context is a record, and a stack buffer holds the bytes its process wrote.
- Processes.ProcessManager.WaitPass: one pass of the spin loop of proc_wait; that a wait ends at all depends on the child.
- Pids that wrap around after 2^32 processes.
- CalcTheorems.EvalIff: says nothing about texts whose evaluation overflows a 32-bit integer, which C leaves undefined.
- The depth of recursion of the evaluator and of find, which the kernel's stack bounds.
- EditorFiles.Save: texts whose last line begins behind the file's capacity, where the offset has run past it and the remaining size wraps; SavedText.Savable is that condition, and the lemmas on saving take it too.
- The editor's search prompt, drawing, messages, and how save_file finds or creates the file.
- RamFs.File.Read: a size that wraps 32 bits with an offset inside the file, where the source copies past its buffer.
- RamFs.File.Write: offsets beyond the capacity, where the remaining size wraps in the source.
- Paths.FindResolves: names are strings of 1 to 63 characters without slashes, as make_node stores them; strncpy's bytes behind the name, and mv, which can break the tree, are not modelled.
- NetFrames.HandleIcmp: frames shorter than 38 bytes, whose ICMP checksum field would lie behind their end.
- ARP, UDP reception, the network card, and the wait for an answer in net_ping: whether an address resolves is a parameter.
- VGA output, shell commands other than find, environment, alias, log and profiler tables.
