# Seraph verification

A Dafny model of the hardest parts of Seraph, a Rust microkernel operating system, and proofs about it. The project covers
five areas, from the bootloader up to the user-space services.

1. **Reading files and loading programs.** `Fat`, `FatDriver`, `FatNames`, `FatDir`, `FatDirTheorems` and `FatPath` model the
   FAT driver: cached cluster chains, file reads, long and short names, directory search, enumeration and path resolution.
   `FatVolume` describes formatted volumes byte by byte and shows that the driver reads what they hold.
   `IpcWords` and `PageLoader` model the packing of bytes into messages and the three loaders that build ELF pages, one of
   them by streaming a file through the driver in short reads.
2. **The device tree walker.** `DeviceTree` is the bootloader's token loop with its bounded stack of node states;
   `DeviceTreeTheorems` relates it to trees of bytes and `DeviceTreeDevices` to trees of devices.
3. **Concurrent protocols**, as machines of atomic steps: the kernel's ticket spinlock (`Spinlock`, `SpinlockTheorems`), the
   lock-free frame pool of the kernel tests (`BitmapPool`) and vfsd's hand-over of bootstrap plans between two threads
   (`PlanHandoff`).
4. **Boot resources and allocators**: sorting, filtering and overlap removal of platform resources (`Platform`), the
   coverage check by summed overlaps (`BootMemory`), the bootloader's ELF loaders (`BootElf`), what the bytes of an ELF file
   say (`ElfFormat`), and procmgr's page pool (`Frames`, `FramePool`).
5. **Service protocols**: death and restart of services (`ServiceTable`, `ServiceManager`), the multi-round hand-over of hardware
   capabilities from init to devmgr (`Handover`) and chunked log messages, of one sender (`LogChannel`) and of several at
   once (`LogInterleaving`).

`Arith` and `Bytes` hold shared arithmetic and sequence facts.

Code that updates state is modelled as methods, classes and arrays proved against functions; what the system promises is then
proved of those functions. Loops of several CPUs or threads are modelled as steps, and the theorems hold for every run. System
calls, disk reads and IPC may fail at any call where the source handles a failure. `u32` and `u64` arithmetic wraps where the
source's arithmetic can leave the range, as in a release build; a debug build, which is what `xtask` builds unless told
otherwise (`xtask/src/cli.rs:53`), panics at those places instead. So what is said about wrapped values (the sums of
`SliceInBootMemory`, the lengths in `CrossedPrints` and `IntactIff`, sector numbers, device tree offsets) is about release
builds. The ticket counters of the spinlock wrap in every build. Capabilities are named by what they stand for: a frame by
its pages, a thread or an event queue by its number.

Some properties one would expect do not hold of the code as it is. For each the project shows a failing family of inputs and
says when the code does meet the property:

- A directory search goes on in the next sector behind an end mark and finds files there (`HiddenFileFound`). It answers
  every name as if it had stopped exactly when no file behind the mark has a long name or a searchable short name
  (`EndRespectedIff`).
- A printed short name with a lower-case letter, or a dot in its base part, does not find its own entry (`FormatFindsItself`).
- Mutual exclusion of the ticket lock needs fewer than 2^32 CPUs (`ExclusionIff`).
- A plan can be mixed with the next one if a child whose START failed runs after all, or if vfsd's `signal_wait` fails
  while the child runs (`FailedStartMixes`, `FailedWaitMixes`); it is safe in all runs exactly without these two faults
  (`SafeIff`).
- Overlapping memory regions are counted twice by the coverage check (`OverlapMiscounts`). It is right about every slice
  exactly when it counts every covered address once (`DecidesIffOnce`), which without wrapping regions means that no two
  boot regions share an address (`DecidesIffDisjoint`).
- Registering the thread of an active service takes that service's death notification away, and no other's
  (`Manager.HandleRegister`). All services stay watched if no registration names the thread of an active service or of an
  earlier registration, and in runs without deaths and failures only then (`Manager.EventLoop`).
- The pages requested for an init segment do not hold it if its size plus its offset in the page reaches 2^64
  (`SpanAllocatedIff`); otherwise init is loaded intact (`LoadInit`).
- A refused split of a larger frame makes procmgr hand out several pages as one, and only that unbalances its counters
  (`Pool.AllocPage`, `Pool.HandleRequestFrames`).
- Log lengths from 65536 on collide with the continuation bit (`LabelFaithfulIff`), and chunks of two senders can mix
  (`CrossedPrints`). Two senders' texts arrive intact in every order exactly when both fit one chunk (`IntactIff`).
- A reply of a whole sector does not fit a message of 64 words (`ReplyFits`): the client is told the full length, but only
  504 bytes arrive (`VfsRead`).

Where code and comments disagree the model follows the code: log chunks are 512 bytes, not 48 (`init/src/logging.rs:103`);
word 0 of an interrupt round is a kind tag, not a count (`devmgr/src/caps.rs:88-90`); a directory search does not stop at the
first end mark (`fs/fat/src/dir.rs:338-344`).

## Model

| member | source | states |
|---|---|---|
| `Fat.ReadsAreFileSlices` | fs/fat/src/fat.rs:171-217 | On a well-formed file every read returns exactly bytes [offset, offset+n) of its concatenated clusters cut to the file size, n being the least of the request, the rest of the file and the rest of the sector; past the end it returns nothing |
| `Fat.ChainSector` | fs/fat/src/bpb.rs:66-75 | The sector the cluster arithmetic selects holds the bytes of the concatenated chain at that place, without 32-bit overflow |
| `FatVolume.MountsAsFormatted` | fs/fat/src/bpb.rs:86-183 | Mounting the boot sector of a volume of any format, its numbers in their 16-bit or 32-bit fields, gives the layout in which reserved sectors, FATs, root directory and clusters follow each other; fewer than 65525 clusters make it FAT16 |
| `FatVolume.NextIsEntry` | fs/fat/src/fat.rs:72-154 | With a table of entries stored as 2 or 4 little-endian bytes each behind the reserved sectors, the successor of a cluster is its entry, 28 bits of it on FAT32, and none exactly for entries from 0xFFF7 or 0x0FFFFFF7 on |
| `FatVolume.ClusterIs` | fs/fat/src/bpb.rs:66-75 | The clusters of the data area, numbered from 2, are where the driver reads them |
| `FatVolume.VolumeHoldsFile` | fs/fat/src/fat.rs:171-217 | On a formatted volume every file is the concatenation of the clusters its table entries link, cut to its size |
| `FatVolume.VolumeReads` | fs/fat/src/fat.rs:171-217 | Every read of such a file returns the bytes of that concatenation from its offset on, up to the end of request, file and sector |
| `FatVolume.RootIs` | fs/fat/src/dir.rs:349-381 | The root directory is the area between FATs and clusters on FAT16 and the chain of its cluster on FAT32 |
| `FatVolume.DirectoryBytes` | fs/fat/src/dir.rs:306-346 | The sectors a directory search goes through hold the bytes of the directory's clusters |
| `FatDriver.FatState.NextCluster` | fs/fat/src/fat.rs:72-154 | Cached lookup equals decoding the FAT entry from the disk for FAT16 and FAT32; the cache stays empty or equal to its disk sector after hits, misses and failed reads |
| `FatDriver.FatState.WalkChain` | fs/fat/src/fat.rs:192-201 | Without a failed read the cluster reached is the one the disk's FAT gives; a failed read gives none |
| `FatDriver.FatState.ReadFileData` | fs/fat/src/fat.rs:171-217 | Delivers what the disk image gives for the request, or nothing when any block read fails; the rest of the buffer is untouched |
| `FatDriver.FatState.ParseBpb` | fs/fat/src/bpb.rs:86-183 | Accepts a boot sector exactly when signature and divisors are right and then holds the layout the specification gives; a rejected sector leaves the volume unmounted |
| `FatDriver.FatState.Mount` | fs/fat/src/main.rs:123-181 | A mounted volume stays as it is; otherwise success exactly when sector 0 could be read and parsed; the FAT cache stays coherent |
| `FatDriver.CopyFromSector` | fs/fat/src/fat.rs:203-217 | Copies exactly the requested bytes of a sector, or nothing on a failed read |
| `FatDriver.BlockDevice.ReadSector` | fs/fat/src/fat.rs:21-54 | A read delivers the whole sector, or fails and leaves the buffer alone |
| `FatNames.LfnAccum.AddLfnEntry` | fs/fat/src/dir.rs:61-99 | The in-place accumulator follows its value-level description slot by slot, truncation at 255 included |
| `FatNames.LfnAccum.Matches` | fs/fat/src/dir.rs:103-117 | True exactly when the accumulated name equals the component up to ASCII case |
| `FatNames.LfnAccum.Reset` | fs/fat/src/dir.rs:53-58 | Deactivates the accumulator and empties the name but keeps the old bytes |
| `FatNames.LongNameRecovered` | fs/fat/src/dir.rs:61-117 | Splitting any name of 1 to 255 bytes into reverse-ordered 13-character slots and accumulating them from a reset state recovers the name, whatever the buffer held before |
| `FatNames.SlotReadBack` | fs/fat/src/dir.rs:61-99 | All 13 characters of a long-name slot, written in three groups of five, six and two, are read from where they were written |
| `FatNames.LongNameReadBack` | fs/fat/src/dir.rs:61-117 | Any name of 1 to 255 bytes written into slots byte by byte, the last piece first and marked, comes back |
| `FatNames.NameMatches` | fs/fat/src/dir.rs:164-194 | True exactly when the component, padded and upper-cased, is the entry's 11 bytes |
| `FatNames.FormatName` | fs/fat/src/dir.rs:539-573 | Writes the trimmed base and, if there is one, a dot and the trimmed extension |
| `FatNames.FormatFindsItself` | fs/fat/src/dir.rs:164-194 | Printing a short name and matching the print finds the name if and only if it has no lower case and no dot in its base |
| `FatNames.PrintsNames` | fs/fat/src/dir.rs:539-573 | A base and an extension padded with spaces print as the base, or as base, dot and extension |
| `FatNames.PadsNames` | fs/fat/src/dir.rs:164-194 | A component is compared by the first 8 bytes before its first dot and the first 3 behind it, in upper case and padded |
| `FatNames.UpperCase` | fs/fat/src/dir.rs:164-194 | The 26 letters and nothing else change |
| `FatNames.FoldIs` | fs/fat/src/dir.rs:103-117 | Names match up to case if and only if they are equal in upper case |
| `FatDir.ParseInvertsStore` | fs/fat/src/dir.rs:127-160 | An entry is read from a slot if and only if the slot is no end mark, not deleted, not part of a long name, and stores exactly that name, attribute, two-part cluster number and size as little-endian bytes |
| `FatDir.ScanSectorForName` | fs/fat/src/dir.rs:385-422 | The slot loop of one sector equals the plain slot-by-slot search and leaves the accumulator as that search does |
| `FatDir.SearchRun` | fs/fat/src/dir.rs:330-344 | The same over consecutive sectors, the accumulator carried across them; a failed read ends the search |
| `FatDir.FindInFat16Root` | fs/fat/src/dir.rs:349-381 | Searches exactly the fixed root area |
| `FatDir.FindInDirectory` | fs/fat/src/dir.rs:306-346 | Searches the sectors of every cluster of the directory's chain in order, and of nothing else, on every chain that ends or on which the name is found, cyclic ones included |
| `FatDir.PickInSector` | fs/fat/src/dir.rs:469-487 | Counting entries in the slots of one sector, stopping at an end mark |
| `FatDir.PickRun` | fs/fat/src/dir.rs:462-530 | Counting entries over consecutive sectors equals counting over the concatenation of their slots |
| `FatDir.ReadDirEntryAtIndex` | fs/fat/src/dir.rs:439-533 | Returns the entry at that position of the whole directory, for the fixed root and for every chain that ends, holds that position or has an end mark |
| `FatDirTheorems.SearchVisits` | fs/fat/src/dir.rs:306-346 | On every directory the search is the plain slot search over the slots each sector has before its own end mark |
| `FatDirTheorems.VisitsToEndIff` | fs/fat/src/dir.rs:338-344 | The search looks at no slot behind the first end mark if and only if every later sector starts with an end mark |
| `FatDirTheorems.EndsCanBeOverrun` | fs/fat/src/dir.rs:338-344 | Every directory that ends with an end mark gets a file behind the mark by one more sector |
| `FatDirTheorems.OverrunExists` | fs/fat/src/dir.rs:338-344 | For every live 8.3 slot there is a directory with that file behind its end mark |
| `FatDirTheorems.HiddenFileFound` | fs/fat/src/dir.rs:338-344 | A file in any sector behind the end mark is found by every name that denotes it, although the directory before the mark has none of that name |
| `FatDirTheorems.EndRespectedIff` | fs/fat/src/dir.rs:338-344 | With files hidden in sectors behind the end mark, the search gives for every name what the directory before the mark gives if and only if no hidden file has a long name or a searchable short name |
| `FatDirTheorems.SearchFindsFirst` | fs/fat/src/dir.rs:306-346 | In a directory of files the search returns the first file the name denotes by its long or its short name, wherever long-name runs cross sectors or clusters, and none if there is none |
| `FatDirTheorems.PickIsNthFile` | fs/fat/src/dir.rs:439-533 | Enumeration by index yields the files in directory order and ends behind the last |
| `FatDirTheorems.ReaddirAgreesWithLookup` | fs/fat/src/dir.rs:439-573 | In one collision-free namespace, printing the short name of any enumerated entry and searching for the print returns that entry |
| `FatPath.StripSlashes` | fs/fat/src/dir.rs:210-223 | The result has no slash at either end and the same components |
| `FatPath.SplitComponent` | fs/fat/src/dir.rs:225-240 | First component and a rest with the remaining components |
| `FatPath.ResolvePath` | fs/fat/src/dir.rs:243-303 | Following the path equals looking up its components one by one from the root, whenever each of these lookups ends; a missing component or a file in the middle gives none, and so does any failed read |
| `FatPath.JoinReadBack` | fs/fat/src/dir.rs:210-240 | A path written from any list of names means that list |
| `FatPath.FollowFurther` | fs/fat/src/dir.rs:243-303 | A path with one name more is that name in the directory the shorter path leads to, and nothing if that is no directory |
| `FatPath.RootPath` | fs/fat/src/dir.rs:243-268 | An empty path or slashes alone give the root directory under the name "/" |
| `FatPath.DirectoryBit` | fs/fat/src/dir.rs:290-294 | An entry is a directory exactly if bit 4 of its attribute is set |
| `IpcWords.WriteWords` | fs/fat/src/main.rs:310-327 | The word-by-word, byte-by-byte packing loop writes exactly the packed bytes and leaves the rest of the buffer alone |
| `IpcWords.PackWord` | fs/fat/src/main.rs:310-327 | Eight bytes, or as many as are left, as one little-endian word |
| `IpcWords.PackRoundTrip` | fs/fat/src/main.rs:310-327 | Unpacking packed bytes gives the bytes back, followed by less than a word of zeros |
| `IpcWords.PrefixRoundTrip` | procmgr/src/process.rs:386-403 | Bytes packed into the front of a buffer with old words behind them are read back unchanged |
| `PageLoader.FillPageProcmgr` | procmgr/src/loader.rs:101-129 | Byte i of the page is the segment's file byte at page address + i, or zero outside the file data |
| `PageLoader.FillPageInit` | init/src/bootstrap.rs:86-108 | The same page, by init's differently computed offsets |
| `PageLoader.LoadSegment` | procmgr/src/process.rs:271-298 | The page loop maps the right number of consecutive pages, each with its image |
| `PageLoader.SegmentCovered` | procmgr/src/process.rs:620-646 | Every address of [vaddr, vaddr+memsz) lies in one of these pages and finds its file byte or zero there |
| `PageLoader.HandleRead` | fs/fat/src/main.rs:275-328 | An unknown token is refused and changes nothing; otherwise word 0 is the length and the data words are the packed bytes of the read; a failed block read replies length 0 |
| `PageLoader.FirstWithToken` | fs/fat/src/file.rs:37-41 | The file read from is the first with the token |
| `PageLoader.ReplyFits` | fs/fat/src/main.rs:310-327 | A reply reaches the client whole if and only if it carries at most 504 bytes |
| `PageLoader.VfsRead` | procmgr/src/process.rs:386-403 | None exactly when the call failed or the token is unknown; otherwise the announced length is the whole answer's, its first 504 bytes can be read from the data words, and the words behind the message stay what they were |
| `PageLoader.StreamChunk` | procmgr/src/process.rs:500-520 | One read places the bytes of its answer at their place in the page, or nothing when it failed |
| `PageLoader.StreamBytes` | procmgr/src/process.rs:497-521 | On any volume the chunk loop ends and leaves in place all bytes that reads in chunks deliver up to the first empty one, or the first of them when a read failed |
| `PageLoader.FetchedIsSlice` | fs/fat/src/fat.rs:171-217 | On a well-formed file those bytes are the requested slice of the file, as far as the file goes |
| `PageLoader.StreamSegmentToFrame` | procmgr/src/process.rs:477-522 | On any volume, without a disk or IPC failure the page is zero but for what those reads deliver at the segment's place; otherwise it is that page up to some byte and zero behind it, and nothing is reported |
| `PageLoader.StreamPageIsImage` | procmgr/src/process.rs:477-522 | For a segment inside a well-formed file that page is the same page image as the other two loaders' |
| `DeviceTree.PropContains` | boot/src/dtb.rs:547-557 | Whether some zero-separated entry is the target |
| `DeviceTree.EntryFound` | boot/src/dtb.rs:547-557 | A stretch without zeros delimited by zeros or the ends is found |
| `DeviceTree.FoundIsEntry` | boot/src/dtb.rs:547-557 | Whatever is found is such a stretch |
| `DeviceTree.ReadString` | boot/src/dtb.rs:209-224 | The text up to the first zero in the strings block, empty when out of range |
| `DeviceTree.SkipNodeName` | boot/src/dtb.rs:526-543 | The aligned offset behind the zero-terminated name |
| `DeviceTree.CollectProperty` | boot/src/dtb.rs:309-365 | Adds at most up to 8 reg, 4 interrupt and 4 ranges entries to the node's state, in order |
| `DeviceTree.CollectRegs` | boot/src/dtb.rs:318-331 | Appends the property's 16-byte entries in order until 8 are held |
| `DeviceTree.CollectIrqs` | boot/src/dtb.rs:333-343 | Appends the property's 4-byte entries in order until 4 are held |
| `DeviceTree.CollectRanges` | boot/src/dtb.rs:345-365 | Appends the flags, address and size of the property's 28-byte entries in order until 4 are held |
| `DeviceTree.WalkCompatible` | boot/src/dtb.rs:235-373 | The loop over tokens with its array of eight states hands the callback exactly the nodes of the step-by-step walk, on every block on which that walk ends, offsets that wrap included |
| `DeviceTree.RunEnds` | boot/src/dtb.rs:235-373 | Every walk on which no offset goes backwards ends |
| `DeviceTree.RunForUnique` | boot/src/dtb.rs:235-373 | A walk that ends hands over the same nodes whatever number of turns it is allowed |
| `DeviceTreeTheorems.CollectsOwn` | boot/src/dtb.rs:309-365 | A node's state after its properties is the first 8 reg, 4 interrupt and 4 ranges entries of its own properties together, and whether any of its compatible lists has the target |
| `DeviceTreeTheorems.RunForest` | boot/src/dtb.rs:235-373 | Walking over any encoded forest leaves the states of all open nodes unchanged but for the innermost node's own properties, however deep the forest is |
| `DeviceTreeTheorems.WalkFindsMatches` | boot/src/dtb.rs:235-373 | For every encoded tree the walk ends and the callback gets exactly the matching nodes of depth at most 8, children before parents, each with its own entries, up to its first refusal |
| `DeviceTreeDevices.RegsReadBack` | boot/src/dtb.rs:318-331 | Any list of (address, size) pairs written as two big-endian 64-bit numbers each comes back |
| `DeviceTreeDevices.IrqsReadBack` | boot/src/dtb.rs:333-343 | Any list of interrupt numbers written as big-endian 32-bit numbers comes back |
| `DeviceTreeDevices.RangesReadBack` | boot/src/dtb.rs:345-365 | Any list of ranges written as flags, child address, parent address and size comes back without the child addresses |
| `DeviceTreeDevices.TextsReadBack` | boot/src/dtb.rs:547-557 | A text is found in a zero-separated list if and only if it is one of the list, or empty |
| `DeviceTreeDevices.NamesOfKinds` | boot/src/dtb.rs:309-365 | The four properties that are read are compatible, reg, interrupts and ranges, and no others |
| `DeviceTreeDevices.WalkFindsDevices` | boot/src/dtb.rs:235-373 | On the struct block of any tree of devices the walk ends and the callback gets exactly the wanted ones of depth at most 8, children first, each with the first 8 windows, 4 interrupts and 4 ranges its own properties list, up to its first refusal |
| `DeviceTreeTheorems.FeedIsPrefix` | boot/src/dtb.rs:278-281 | The callback sees a prefix of the matches that ends with the first node it refuses |
| `SpinlockTheorems.StepKeeps` | kernel/src/sync.rs:65-116 | Every step keeps the ticket, exclusion and interrupt invariants as long as at most 2^32 tickets are out |
| `SpinlockTheorems.TicketsBounded` | kernel/src/sync.rs:65-74 | At most one ticket per CPU and one in service are out at any time |
| `SpinlockTheorems.RunsAreSafe` | kernel/src/sync.rs:65-116 | In every state of every run, with fewer than 2^32 CPUs or never more than 2^32 tickets out, each lock has at most one holder |
| `SpinlockTheorems.GrantsFollowTickets` | kernel/src/sync.rs:65-74 | With fewer than 2^32 CPUs or never more than 2^32 tickets out, the n-th grant of a lock goes to the n-th ticket drawn, and nobody holds the lock at that moment |
| `SpinlockTheorems.FreeLockIsGranted` | kernel/src/sync.rs:65-103 | No run gets stuck: a lock that somebody waits for and nobody holds is granted to the oldest ticket at its next poll |
| `SpinlockTheorems.InterruptsRestored` | kernel/src/sync.rs:83-116 | On any number of CPUs, a CPU that has left all its critical sections has the interrupt flag it entered them with; inside them interrupts are off |
| `SpinlockTheorems.CrowdBreaksExclusion` | kernel/src/sync.rs:65-74 | With 2^32 CPUs or more a run exists in which a lock is granted twice |
| `SpinlockTheorems.ExclusionIff` | kernel/src/sync.rs:65-116 | Mutual exclusion holds in all reachable states if and only if there are fewer than 2^32 CPUs |
| `BitmapPool.SplitFrameRecursive` | ktest/src/frame_pool.rs:77-113 | Either the whole frame ends up in the pool, cut without gaps, or the pool is full; the pieces are single pages, as many as fit, unless the kernel refuses a split, and then the last piece is all that was left |
| `BitmapPool.InitPool` | ktest/src/frame_pool.rs:122-146 | The pool's frames are disjoint parts of the donated frame and exactly their slots are available; without a refusal they are the first 64 of its pages |
| `BitmapPool.FindSlot` | ktest/src/frame_pool.rs:232-248 | The first slot that holds the capability |
| `BitmapPool.RunsAreSafe` | ktest/src/frame_pool.rs:197-252 | In every interleaving of load, fetch_and and fetch_or no slot is held twice, and every slot is available or held, never both |
| `BitmapPool.LoadAims` | ktest/src/frame_pool.rs:197-206 | A load gives up exactly if no slot is available and else aims at the lowest available one |
| `BitmapPool.ClaimDecides` | ktest/src/frame_pool.rs:208-222 | A claim succeeds exactly if its slot is still available, and clears its bit |
| `BitmapPool.FreeReturns` | ktest/src/frame_pool.rs:228-252 | Freeing a held capability makes its own slot available again |
| `BitmapPool.NoneMeansAllHeld` | ktest/src/frame_pool.rs:197-206 | Whenever a load gives up, every slot is in some thread's hands |
| `BitmapPool.LostRaceMeansProgress` | ktest/src/frame_pool.rs:208-222 | A failed claim means another thread claimed that very slot after this thread's load |
| `PlanHandoff.RunsAreSafe` | vfsd/src/worker.rs:67-116 | In every run, whether children are served before or after START returns and also when signals are lost, each plan's capabilities are delivered at most once, unmixed, to a request with the plan's token; a wake-up with bit 1 alone comes exactly for plans that were delivered, and after a lost signal main waits and no plan is pending |
| `PlanHandoff.FailedStartMixes` | vfsd/src/driver.rs:93-101 | If a child runs although its START failed, it can receive another plan's block capability |
| `PlanHandoff.FailedWaitMixes` | vfsd/src/driver.rs:103-109 | If main gives up a plan because signal_wait failed, the plan's child can receive the next plan's block capability |
| `PlanHandoff.SafeIff` | vfsd/src/driver.rs:64-114 | The hand-over is safe in all reachable states if and only if no child runs whose START failed and no signal_wait fails |
| `Platform.SortResources` | boot/src/platform.rs:150-161 | The in-place insertion sort computes the sort by type and base |
| `Platform.InsertLast` | boot/src/platform.rs:155-160 | The swapping inner loop places the element behind the last one that may come before it and leaves the rest alone |
| `Platform.SortIsSorted` | boot/src/platform.rs:150-161 | That sort is a permutation in key order |
| `Platform.SortIsStable` | boot/src/platform.rs:150-161 | Entries with equal keys keep their order |
| `Platform.FilterResources` | kernel/src/platform.rs:113-172 | Keeps exactly the valid entries, in order, and counts the others but for port ranges on a machine without ports |
| `Platform.KeepIsFilter` | kernel/src/platform.rs:113-172 | Every valid entry is kept as often as it occurs and no other |
| `Platform.ValidMeans` | kernel/src/platform.rs:232-370 | What is kept of each of the six types: whole pages, interrupts in range, tables that do not wrap, ports below 65536 |
| `Platform.CountsAddUp` | kernel/src/platform.rs:113-172 | Every entry is kept, counted as skipped, or a port range on a machine without ports |
| `Platform.RemoveOverlaps` | kernel/src/platform.rs:378-418 | The in-place removal loop computes the cleaned list and the number of entries it lacks |
| `Platform.NothingLost` | kernel/src/platform.rs:378-418 | Kept and dropped entries together are the input |
| `Platform.CleanIsApart` | kernel/src/platform.rs:378-418 | On a sorted list all pairs of kept windows of one type are disjoint, not only neighbours |
| `Platform.DroppedOverlapsKept` | kernel/src/platform.rs:400-411 | Every dropped entry starts inside a kept window of its type |
| `Platform.OthersSurvive` | kernel/src/platform.rs:388-393 | Entries of the unchecked types survive in order |
| `Platform.PipelineApart` | kernel/src/platform.rs:113-177 | From any raw list, sorting, filtering and removal give a list in order of type and base in which no two MMIO windows and no two ECAMs overlap |
| `Platform.PipelineConserves` | kernel/src/platform.rs:113-177 | Each valid entry of the raw list is kept or dropped as often as it occurs, invalid ones never appear, and dropped ones are MMIO windows or ECAMs that clash with kept ones |
| `BootMemory.SliceInBootMemory` | kernel/src/platform.rs:197-223 | The loop compares the wrapping sum of the overlaps with the length of the slice, for all inputs |
| `BootMemory.SumBounded` | kernel/src/platform.rs:203-219 | On disjoint boot regions the running sum never exceeds the slice |
| `BootMemory.SumDecidesCoverage` | kernel/src/platform.rs:197-223 | On disjoint, non-wrapping boot regions the test is true if and only if every address of the slice is Usable or Loaded |
| `BootMemory.DecidesIffOnce` | kernel/src/platform.rs:197-223 | On every map, wrapping regions and sums included, the test decides coverage of every slice if and only if each covered address lies in exactly one boot region that does not wrap |
| `BootMemory.DecidesIffDisjoint` | kernel/src/platform.rs:197-223 | Without wrapping regions the test decides coverage of every slice if and only if no two boot regions share an address |
| `BootMemory.OverlapMiscounts` | kernel/src/platform.rs:203-219 | For example, with the same region twice the test accepts a slice that is half uncovered |
| `BootElf.ValidateHeader` | boot/src/elf.rs:191-323 | An accepted file has its program headers inside the file and its entry point in a LOAD segment |
| `BootElf.CheckWx` | boot/src/elf.rs:337-351 | True exactly when no LOAD segment is both writable and executable |
| `ElfFormat.HeaderReadBack` | boot/src/elf.rs:101-124 | A program header written field by field, with 1 for executable and 2 for writable, is read back with its fields and permissions |
| `ElfFormat.AcceptedIff` | boot/src/elf.rs:191-323 | A file is accepted if and only if it is an ELF-64 little-endian executable for the machine with its header table inside and its entry point in a LOAD segment |
| `ElfFormat.WxViolationIff` | boot/src/elf.rs:337-351 | The loaders report a violation of write-xor-execute if and only if some LOAD header of an accepted file has both permissions |
| `ElfFormat.PermissionsKept` | boot/src/elf.rs:501-507 | A loaded segment has the addresses, size and permissions its header gives |
| `BootElf.Machine.PlaceSegment` | boot/src/elf.rs:461-487 | Afterwards memory holds the segment's file bytes followed by zeros and nothing else has changed |
| `BootElf.LoadKernelSegments` | boot/src/elf.rs:422-497 | Memory holds all LOAD segments at once, none overwrites another, and memory in use before is untouched; it succeeds exactly if there are at most eight, all inside the file, and the firmware refuses nothing |
| `BootElf.Extent` | boot/src/elf.rs:544-560 | Lowest physical and virtual address and highest end over the segments |
| `BootElf.FindEntry` | boot/src/elf.rs:524-541 | Whether some loaded segment covers the entry point |
| `BootElf.DescribeKernel` | boot/src/elf.rs:544-597 | The kernel is described by the lowest physical and virtual address of its segments and exactly the size up to their highest physical end, saturated at 2^64 - 1 |
| `BootElf.LoadKernel` | boot/src/elf.rs:386-597 | A loaded kernel has all its segments in memory, none writable and executable, its entry covered, and is described by its lowest addresses and exactly the size up to the highest segment end; a violation of write-xor-execute is found before anything is allocated; the errors "no segments" and "entry not covered" never occur; it succeeds exactly if the header checks, the permissions and the segments allow it and the firmware refuses nothing |
| `BootElf.LoadInitSegment` | boot/src/elf.rs:690-761 | One segment is in memory at pages the firmware chose, in memory of its own exactly if the page count does not overflow |
| `BootElf.SpanAllocatedIff` | boot/src/elf.rs:703-711 | The pages requested hold the segment if and only if its size plus its offset in the page stays below 2^64 |
| `BootElf.LoadInitSegments` | boot/src/elf.rs:655-761 | The same for init at any free pages, physical and virtual addresses agreeing modulo 4096; memory is as described whenever no page count overflows |
| `BootElf.LoadInit` | boot/src/elf.rs:621-775 | A loaded init names all its segments with their permissions and covers its entry, and has them in memory apart from each other and from memory in use whenever no page count overflows; a violation of write-xor-execute is found before anything is allocated and the error "no segments" never occurs, for every file; it succeeds under the same condition as the kernel |
| `Frames.Kernel.FrameSplit` | kernel/src/syscall/mem.rs:455-618 | A split of a frame of several pages gives its first page and the rest, or is refused; a single page is never split |
| `FramePool.Pool.AllocPage` | procmgr/src/frames.rs:48-82 | The frame handed out shares no page with any frame still out; none is given exactly when nothing is left; the last freed frame goes first, and a new one is a single page split off, the rest kept, exactly if the kernel refuses nothing; the counters stay equal to the delegated total exactly then |
| `FramePool.Pool.FreePage` | procmgr/src/frames.rs:85-97 | The frame becomes available again, or is lost but still counted when the free list is full; the balance does not change |
| `FramePool.Pool.GrantFrames` | procmgr/src/main.rs:221-235 | The granting loop hands out new frames until enough or until the pool is dry, and the balance is kept exactly if no split is refused |
| `FramePool.Pool.HandleRequestFrames` | procmgr/src/main.rs:209-246 | Up to four new frames, fewer only when the pool has run dry, and out of memory exactly when it was empty; the counters stay balanced if and only if they were and no split is refused |
| `FramePool.HandedOutApart` | procmgr/src/frames.rs:48-97 | Any two frames in callers' hands share no page |
| `ServiceManager.Manager.CreateAndBind` | svcmgr/src/main.rs:196-220 | How far the creation, binding and adding of the queue got, on every failure path |
| `ServiceManager.Manager.constructor` | svcmgr/src/main.rs:285-290 | The loop starts with the invariant established and nothing stolen |
| `ServiceManager.Manager.WatchedUnlessStolen` | svcmgr/src/main.rs:308-340 | At every loop head exactly the active services outside the stolen ones are watched |
| `ServiceManager.Manager.HandleRegister` | svcmgr/src/main.rs:41-144 | A new service is watched at once; exactly the active services whose own thread it rebinds lose their death notification, every other stays bound to its own live queue, waiting once under index + 1; each of the four error replies comes exactly for its cause |
| `ServiceManager.Manager.Enroll` | svcmgr/src/main.rs:93-144 | The same for the part behind the checks, on every failure path of queue creation, binding and adding |
| `ServiceManager.Manager.Rebind` | svcmgr/src/restart.rs:241-264 | The old queue is gone and the new thread is bound to a new live queue, or a call failed; a failed removal from the wait set goes unnoticed |
| `ServiceManager.Manager.RestartProcess` | svcmgr/src/restart.rs:115-188 | A restarted service has a new thread bound to a new live queue that is not in the wait set yet, exactly if every call succeeds; no other service's objects are touched, on every failure path |
| `ServiceManager.Manager.HandleDeath` | svcmgr/src/restart.rs:42-111 | A fatal service stops the system; another is restarted once more if and only if criticality, policy, count and module allow it and every call succeeds, else it becomes inactive |
| `ServiceManager.Manager.SettleDeath` | svcmgr/src/main.rs:471-480 | After a death the service is watched again under its own token with a thread nobody has seen before and one restart more, if and only if it is to be restarted and every call succeeds; else it is inactive |
| `ServiceManager.Manager.DispatchDeath` | svcmgr/src/main.rs:451-481 | Each death handled strictly decreases the global measure; without failures it is handled unless the service is fatal, and restarts it exactly if policy allows; inactive and other services do not change; a handled service is no longer stolen |
| `ServiceManager.Manager.LivesBounded` | svcmgr/src/restart.rs:95-99 | No service is restarted more than 5 times and at most 6 deaths per service are handled |
| `ServiceManager.Manager.EventLoop` | svcmgr/src/main.rs:308-340 | From every loop head, through any registrations and deaths: an active service is watched if and only if it is not stolen; a service can only be stolen if an event registers its thread, or if it is new and two events register one thread, so none is if no event registers the thread of an active service or of an earlier event; without deaths and failures all services stay watched if and only if this is so; inactivity is permanent; at most 5 restarts and 6 deaths per service |
| `Handover.CollectHwCaps` | init/src/service.rs:91-119 | The last ECAM, the first two large windows and the first 64 interrupts |
| `Handover.CollectsEach` | init/src/service.rs:91-119 | Each descriptor replaces the ECAM, adds a window of at least 256 MiB or adds an interrupt, with its own slot and words |
| `Handover.ServeDevmgr` | init/src/service.rs:178-326 | Whatever derive, start or serve fails, the rounds served are a prefix of the endpoint round, the window round, a round for every four interrupts and the module round, all of them exactly when nothing failed |
| `Handover.PackWindows` | init/src/service.rs:234-247 | Copies of the slots, empty where a derive failed, and the (base, size) words of the windows, in order |
| `Handover.PackIrqs` | init/src/service.rs:267-280 | The same for a batch of interrupts and their numbers |
| `Handover.RoundCount` | init/src/service.rs:215-326 | There are 2 + ceil(irqs/4) rounds and one more with a driver module, and the last and no other is final |
| `Handover.ReceiveCaps` | devmgr/src/caps.rs:99-172 | The set devmgr assembles from any sequence of rounds and the number it requests, with a message buffer that keeps old words, and old capability slots behind a round without any; no set when a round is missing |
| `Handover.ReadWindows` | devmgr/src/caps.rs:117-130 | As many windows as announced, delivered and supported, with their own words |
| `Handover.TakeLaterRound` | devmgr/src/caps.rs:143-168 | Adds a round's interrupts or modules in order, up to 64 and 8 |
| `Handover.HandoverIsExact` | devmgr/src/caps.rs:99-172 | All or nothing: with every round served devmgr ends with exactly the windows and the (capability, interrupt) list init collected, in order, after requesting exactly the rounds init serves; with any round missing it ends with none, whatever its message buffer held |
| `LogChannel.LabelFaithfulIff` | init/src/logging.rs:135-139 | The receiver reads length and continuation bit as sent if and only if the length is below 65536 |
| `LogChannel.IpcLog` | init/src/logging.rs:104-149 | Sends the text in chunks of 512 bytes, all but the last marked as continued; an empty text is one empty message; exactly the chunks whose call fails are missing from what arrives |
| `LogChannel.LogThread.Handle` | init/src/logging.rs:286-337 | One turn of the receive loop on the thread's own buffer equals its value-level description, with old words in the message buffer and wrapping subtraction |
| `LogChannel.TextsArePrinted` | init/src/logging.rs:278-339 | Texts below 65536 bytes sent one after the other are printed as exactly their first min(length, 256) bytes |
| `LogInterleaving.SingleChunksIntact` | init/src/logging.rs:278-339 | For any number of senders whose texts fit one chunk each, every interleaving of their messages prints an interleaving of their lines |
| `LogInterleaving.CrossedPrints` | init/src/logging.rs:297-318 | A text that arrives between the first two chunks of a longer one is printed as the beginning of the longer one, and the longer one as a line that begins with its second chunk |
| `LogInterleaving.IntactIff` | init/src/logging.rs:278-339 | For lengths below 65536: all texts of these lengths from two senders are printed as they are in every arrival order if and only if both are at most 512 bytes |

## Left out

- FatDir.FindInDirectory: takes the directory's cluster chain as a ghost argument, so it says nothing about cyclic chains without the name, on which the source's loop does not end.
- FatDir.ReadDirEntryAtIndex: the same for cyclic chains with fewer entries and no end mark.
- FatPath.ResolvePath: the same for every directory on the path.
- PageLoader.LoadSegment: addresses do not wrap at 2^64, and the mapping calls are not modelled.
- DeviceTree.WalkCompatible: says nothing about blocks on which the walk never ends; a property length close to 2^32 can send the source's offset backwards for ever.
- BootElf.LoadKernel: requires page-aligned physical addresses in LOAD headers, as the firmware call it makes does.
- Frames.Kernel.FrameSplit: capability slots, rights and the consumption of the original capability are not modelled; a frame is the range of its pages.
- LogInterleaving.IntactIff: two senders and lengths below 65536, where labels are faithful; SingleChunksIntact covers any number of senders.
- ServiceManager.Manager.EventLoop: handles a given finite sequence of events instead of waiting for ever; discovery requests and names are not modelled.
- Handover.ServeDevmgr: the packing of a round's label is not modelled, and creation of the process comes before the model starts.
- Handover.ReceiveCaps: no set can mean two things in the source when init stops serving: the request fails, or it waits for ever.
- Handover.HandoverIsExact: the same for the case in which a round is missing.
- LogChannel.IpcLog: what a chunk whose call failed does to the lines printed later is not stated; TextsArePrinted and LogInterleaving are about messages that arrive.
- PlanHandoff: atomic accesses are sequentially consistent, which the release and acquire pair on the token gives for the fields; tokens do not wrap at 2^64.
- Spinlock: atomic accesses are sequentially consistent and a critical section ends with the interrupt flag its own acquisition saved.
- BitmapPool: the 64-bit word is a set of bit numbers.
- LogChannel: carriage returns on the serial line.
- Debug assertions, such as the one that compares announced and noted capabilities of a bootstrap round: not modelled.
- CPU nodes of the device tree, ACPI tables, boot configuration and UEFI calls: firmware access and easy parsing.
- The service table's names and bundles, the endpoint registry, open-file and process tables: they would only add easy members.
- Kernel memory management, capability spaces, scheduling and IPC rendezvous: not modelled beyond the system calls above.
