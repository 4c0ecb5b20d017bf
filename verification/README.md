# Verified model of the kernel's core data structures

This project models, in Dafny, the parts of the ZJUNIX kernel that keep a fast or packed form in step with a simple
one, and proves that they do:

* **FAT32** (`FatTable`, `FreeSpace`, `Volume`, `Chains`, `FileSystem`, `DirName`, `DirItems`, `DirRegister`,
  `Directory`, `FileSystemRun`, `DirectoryRun`): a one-sector write-through buffer in front of mirrored FAT copies
  refines a flat array; the FSINFO count and hint drive a cyclic search; the FAT is a disjoint union of acyclic
  chains that the in-memory page tables equal; long names survive the trip through directory slots exactly when they
  should; directories are maps from names to entries.  Standard: Microsoft FAT32 File System Specification (fatgen103).
* **Scheduler** (`Bits`, `Pid`, `PrioArray`, `Scheduler`, `SchedulerRun`, `Epoch`, `Starvation`): two priority arrays
  with bitmaps and cached minima, stepped by fork, tick, exit and kill; safety over all runs, and when an epoch makes
  progress and when it does not.
* **Page cache** (`PageCache`): hash buckets and LRU list over the same pages; reads and writes through it are answered
  as by plain memory.
* **Page table** (`PageTable`): two levels refine a flat map.
* **Allocators** (`Buddy`, `BootMem`, `SlabPage`) and the **circular lists** (`CircularList`) under all of them.

Classes have the source's fields and methods; each method is proved against functions and predicates on values, and
what the source promises is proved about those as lemmas.  Whole runs are methods that execute any sequence of
operations (`FileSystemRun.Run`, `DirectoryRun.Run`, `SchedulerRun.Run`, `Epoch.RunEpoch`, `PageCache.Serve`,
`SlabPage.Run`); their contracts say what was run, most by a trace in which each operation has its effect on the state
before it.

Where the code does not do what it evidently should, the model follows the code and proves exactly when the intended
property holds: `SearchEndsIff`, `HandsOutFreeIff` and `MountableIff` (the search of `apply_fat` misses the last two
clusters of a volume, which the FSINFO count of the standard includes, and the hint of the standard need not be free),
`RetakeKeepsIff` (stale hint), `LongNameRoundTripIff` (missing terminator), `ClusterRoundTripIff` and `DotClusterIff`
(0xff masks), `RegisterListsIff` and `RegisterFindsIff` (new directory clusters are not cleared), `RegisteredIff` (a
registration that runs out of clusters leaves a cut-off entry), `Dequeue` and `Schedule` (a queued task's priority may
change), `PickTick` and `StuckTick` (a task picked with a priority behind its queue's starves all others),
`RoundRobinVerdict` (round-robin tasks expire by the clock, not by how long others waited), `PickMeans` (a queued task
of priority 0 lets idle run), `Fork` (failed number allocation goes unnoticed), `Free` in `Pid` (most numbers are never
recycled), `Alloc` in `SlabPage` (objects past the page), `CompleteIff` and `AlignedIff` (boot search).

Differences between comments and code in the sources: the comment on `dynamic_prio` speaks of an offset of 5, the code
adds 2 (kernel/pc/pc.c:557-573); the comment on `do_fork` promises 0 when numbers run out, the code goes on
(kernel/pc/pc.c:212-218).  The model follows the code.

`generic_check_filename` is defined in kernel/vfs/open.c and `general_find_page` in kernel/vfs/read_write.c; the rows
about them cite the lines in kernel/vfs/fat32.c that call them.

## Model

| member | source | states |
|---|---|---|
| FatTable.CopyBasesLayout | kernel/vfs/fat32.c:83-92 | FAT copies laid out back to back from the first one are disjoint, adjacent runs of sectors inside the disk |
| FatTable.FatBuffer.constructor | kernel/vfs/fat32.c:83-92 | the layout part of mounting: copy i starts where copy i - 1 ends and the buffer holds sector 0 of the first copy |
| FatTable.FatBuffer.ReadFat | kernel/vfs/fat32.c:1073-1105 | a read through the one-sector buffer returns the entry of the flat array; whatever the buffer held, neither entries nor sectors change |
| FatTable.FatBuffer.WriteFat | kernel/vfs/fat32.c:1040-1070 | a write changes exactly one entry of the flat array, leaves all copies identical and the buffer equal to its sector, and touches no sector outside the FAT regions |
| FatTable.FatBuffer.Load | kernel/vfs/fat32.c:1050-1061 | the sector change shared by read and write: a dirty buffer goes to every copy first, and that changes nothing because the cache is write-through |
| FatTable.EntryWritten | kernel/vfs/fat32.c:1063-1069 | writing the sector of one changed entry to every copy keeps mirroring, the flat array (with that entry changed) and everything outside the FAT |
| FatTable.CopiesStayMirrored | kernel/vfs/fat32.c:1066-1069 | writing one sector to the same offset of every copy keeps the copies identical |
| FatTable.CopiesHold | kernel/vfs/fat32.c:1064-1069 | it changes exactly the one entry in the flat array of entries |
| FatTable.CopiesStayInside | kernel/vfs/fat32.c:1066-1069 | it stays inside the FAT regions |
| FatTable.CleanWriteBack | kernel/vfs/fat32.c:1053-1058 | writing back a buffer that equals its sector is the identity on the whole disk |
| FatTable.OutsideWriteKeepsFat | kernel/vfs/fat32.c:1146-1149 | a write outside the FAT regions, such as that of the FSINFO sector, leaves every FAT entry as it was |
| FreeSpace.SearchEndsIff | kernel/vfs/fat32.c:1137-1145 | the search loop comes to an end exactly when the searched range has a free cluster |
| FreeSpace.MountableIff | kernel/vfs/fat32.c:1129-1137 | which volumes have correct book-keeping: those whose searched range is full or whose hint is free in it, whatever the count says |
| FreeSpace.HandsOutFreeIff | kernel/vfs/fat32.c:1131-1151 | the cluster handed out is free and nobody's exactly while the search has one left; after that a reserved cluster is handed out again |
| FreeSpace.FreshVolumeRunsOut | kernel/vfs/fat32.c:1129-1145 | a freshly formatted volume of 4 clusters, two of which the search never looks at: with hint 2 the root's cluster is handed out; with hint 3 the second search never ends although the count says 2 |
| FreeSpace.HintIsFree | kernel/vfs/fat32.c:1131-1137 | while a cluster is left the hint names a free data cluster that nobody holds |
| FreeSpace.ApplyKeeps | kernel/vfs/fat32.c:1110-1151 | handing out the hinted cluster, counting down and moving the hint to the next free cluster in cyclic order keeps count and hint right, by the same error of the count as before, with the cluster reserved until it is marked |
| FreeSpace.OnlyItself | kernel/vfs/fat32.c:1137-1145 | the search comes back to the cluster that it started behind only if no other one is free |
| FreeSpace.MarkKeeps | kernel/vfs/fat32.c:576-582 | marking a reserved cluster as used keeps count and hint right and ends the reservation |
| FreeSpace.RelinkKeeps | kernel/vfs/fat32.c:1204-1205 | rewriting a used entry with a non-zero value does not touch the free space |
| FreeSpace.AbandonLoses | kernel/vfs/fat32.c:846-849 | giving up after a hand-out leaves the cluster free but uncounted for good: the loss is exactly one |
| FreeSpace.RetakeKeepsIff | kernel/vfs/fat32.c:1153-1168 | giving a cluster back keeps count and hint right if and only if it lies at or below the hint, or the hint names a free cluster, or the search does not see the cluster; in that case the count has one more than the search can find |
| FreeSpace.RetakeConditionWhenNothingLost | kernel/vfs/fat32.c:1160-1164 | with an exact count that condition is one the code could test: the cluster is at or below the hint, or the count was positive |
| FreeSpace.RetakeLeavesStaleHint | kernel/vfs/fat32.c:1160-1164 | a full volume with hint 2 that takes back cluster 3 keeps the hint on the used cluster 2 |
| FreeSpace.RetakeAllKeepsIff | kernel/vfs/fat32.c:416-420 | giving back a whole chain in order keeps count and hint right if and only if the search sees none of its clusters, or one that it sees is at or below the hint, or the hint was free already |
| FreeSpace.ReadyAfterRetake | kernel/vfs/fat32.c:416-420 | the same through the 32-bit counter, with what the count misses afterwards, wrapping included |
| VolumeModule.Volume.SearchedIff | kernel/vfs/fat32.c:1129-1139 | the search looks at exactly the clusters that lie whole in the data area by their number counted from 0 |
| VolumeModule.Volume.SearchFree | kernel/vfs/fat32.c:1136-1145 | where it ends at all (SearchEndsIff), the search loop stops at the first free cluster after the hint in cyclic order: of the free clusters whose number lies whole in the data area, the least above the hint, or the least of all |
| VolumeModule.Volume.ApplyFat | kernel/vfs/fat32.c:1110-1151 | fails exactly when the count is 0; otherwise, where the search ends at all, returns the hint, whatever it names, counts down and moves the hint to the next free cluster, of all those whose number lies whole in the data area; no FAT entry changes |
| VolumeModule.Volume.RetakeFat | kernel/vfs/fat32.c:1153-1168 | the entry is cleared, the counter goes up modulo 2^32, the hint is lowered if the cluster is below it |
| VolumeModule.Volume.StoreInfo | kernel/vfs/fat32.c:1146-1149 | the two FSINFO fields are updated and the sector written; no other sector changes |
| VolumeModule.Volume.Take | kernel/vfs/fat32.c:1110-1151 | while the search has a cluster left, the one handed out is free and not reserved, is reserved afterwards, and the hint moves on unless no other is free |
| VolumeModule.Volume.Link | kernel/vfs/fat32.c:1204-1205 | linking a reserved cluster behind a used one and ending the chain in it ends the reservation and keeps the book-keeping |
| Chains.ChainIsAcyclic | kernel/vfs/fat32.c:476-539 | a chain that reaches the end mark never visits a cluster twice |
| Chains.ChainUnique | kernel/vfs/fat32.c:476-539 | the first cluster determines the whole chain, so every rebuilding of a page table gives the same table |
| Chains.SharedClusterSharedEnd | kernel/vfs/fat32.c:476-539 | two chains that share a cluster end in the same cluster |
| Chains.ChainsDisjoint | kernel/vfs/fat32.c:541-667 | on a well-formed volume no cluster belongs to two files |
| Chains.ExtendKeeps | kernel/vfs/fat32.c:1173-1209 | linking a free cluster behind a file extends that file's chain by it, leaves every other chain as it was and keeps the FAT a disjoint union of acyclic chains |
| Chains.CreateKeeps | kernel/vfs/fat32.c:580-582 | marking a free cluster as the end of a chain makes it a file of its own and keeps the FAT well formed |
| Chains.DeleteKeeps | kernel/vfs/fat32.c:416-420 | clearing the entries of one chain removes that file and leaves every other chain as it was |
| FileSystemModule.FileSystem.EnoughIff | kernel/vfs/fat32.c:1199-1206 | when cnt calls of apply_fat come to an end with free clusters: the search sees as many as are asked for, or as many as are counted |
| FileSystemModule.FileSystem.AppendPage | kernel/vfs/fat32.c:1199-1206 | one pass of the growing loop: a cluster is taken, entered in the page table, linked behind the last one and ends the chain; nothing happens when none is counted |
| FileSystemModule.FileSystem.CreatePage | kernel/vfs/fat32.c:1173-1209 | grows a file by min(cnt, counted clusters): its chain and page table gain exactly those clusters, all of them free and unreserved before; every other file, the FAT invariants and FSINFO are kept, also when it stops early |
| FileSystemModule.FileSystem.Widen | kernel/vfs/fat32.c:1182-1194 | the page table moves to a larger array with the same contents |
| FileSystemModule.FileSystem.GrowOne | kernel/vfs/fat32.c:1199-1206 | one more cluster: file and page table grow by it together |
| FileSystemModule.FileSystem.Bmap | kernel/vfs/fat32.c:702-720 | the cluster returned for a file page is that page of the chain, after growing the file if needed; it fails exactly when the free clusters do not suffice |
| FileSystemModule.FileSystem.ReadChain | kernel/vfs/fat32.c:488-518 | following the chain through a table that doubles when full terminates and collects exactly the chain |
| FileSystemModule.FileSystem.FillMapping | kernel/vfs/fat32.c:476-539 | the rebuilt page table and block count are exactly the chain on the disk; no sector changes |
| FileSystemModule.FileSystem.RetakeAll | kernel/vfs/fat32.c:416-420 | the loop over the page table clears exactly the file's entries, with the counter and hint of the chain given back in order |
| FileSystemModule.FileSystem.GiveBack | kernel/vfs/fat32.c:415-420 | the clusters of an open file go back, no page table changes |
| FileSystemModule.FileSystem.DropFile | kernel/vfs/fat32.c:415-427 | the FAT part of a deletion: every cluster of the file is free, no other file changes, FSINFO stays right exactly under the condition of RetakeAllKeepsIff |
| FileSystemModule.FileSystem.Reserve | kernel/vfs/fat32.c:836-840 | the cluster for a new file is free, in range, and reserved |
| FileSystemModule.FileSystem.InstallFile | kernel/vfs/fat32.c:576-600 | the reserved cluster becomes the new file's only cluster and the page table of its inode; it was no file's before |
| FileSystemRun.GrowParent | kernel/vfs/fat32.c:846-854 | while a new file's cluster is handed out, its parent grows by another free cluster and by no other, or by nothing, with the FAT as it was, when none is counted |
| FileSystemRun.OpenNew | kernel/vfs/fat32.c:576-600 | the cluster handed out becomes a file of its own that is open, and no other file changes |
| FileSystemRun.PlaceFile | kernel/vfs/fat32.c:576-600 | the rest of a creation: the parent grows if it is open, or the cluster handed out is given up, or it becomes a file; of the FAT only the entries that link the two clusters change |
| FileSystemRun.StepCreate | kernel/vfs/fat32.c:541-667 | a creation, with the parent growing between hand-out and marking: exactly a new file of one free cluster, the parent longer by one other free cluster if it is an open file, and the count lower by as many; with too low a count nothing changes but the count, which is 0 then |
| FileSystemRun.TakesWanted | kernel/vfs/fat32.c:836-854 | an operation other than a deletion takes what a run asks for before it, or as much of it as is counted |
| FileSystemRun.StepExtend | kernel/vfs/fat32.c:1173-1209 | the file gains min(cnt, counted) free clusters, and no other file changes |
| FileSystemRun.StepDelete | kernel/vfs/fat32.c:415-427 | exactly that file goes, and its clusters are counted; if giving them back would leave a stale hint, and only then, nothing happens |
| FileSystemRun.CountFree | kernel/vfs/fat32.c:1137-1145 | a scan of the FAT finds out how many clusters the search can find: the count and what it misses |
| FileSystemRun.HintSurvives | kernel/vfs/fat32.c:1153-1168 | whether a deletion will leave a usable hint can be told beforehand from page table, hint and one FAT entry |
| FileSystemRun.Run | kernel/vfs/fat32.c:375-428 | a run of creations, extensions and deletions: a trace of FAT, files, open inodes and count in which each operation has exactly its effect, on every FAT entry too, and in which the FAT is a disjoint union of acyclic chains, the files, at every point; the run is cut off only before a deletion that would leave a stale hint and before an operation that takes more clusters than the search can find |
| DirName.FillDirentry | kernel/vfs/fat32.c:1212-1365 | slot index of the slots of a file: the 8.3 slot for index 0, else the long slot with that part of the name, ordinal and marks |
| DirName.UpperAllIff | kernel/vfs/fat32.c:1247-1248 | upper-casing makes two names equal exactly when they have equal length and their bytes are equal or the two cases of one ASCII letter; what it gives has no small letter |
| DirName.NameFieldMeans | kernel/vfs/fat32.c:1234-1292 | the 8.3 field holds, in capitals, what stands before the last dot and behind it, or of a long name its first six bytes, ~1 and what stands behind the last dot; no byte of it is a small letter |
| DirName.SlotShape | kernel/vfs/fat32.c:1212-1378 | slot count, descending ordinals with the last-slot mark on the first, attributes, and first bytes that read neither as unused nor as deleted |
| DirName.ReadmeExample | kernel/vfs/fat32.c:1212-1318 | the 32 bytes of the one slot of a normal file readme.txt in cluster 5 |
| DirName.ChunkOfLongSlot | kernel/vfs/fat32.c:1324-1363 | the 13 characters the parser finds in a long slot are those the writer put there |
| DirName.WideCharacter | kernel/vfs/fat32.c:1324-1363 | read as characters of 16 bits, long slots hold the name, its terminator, or a dot instead if the name has none, and then 0xffff |
| DirName.NameBufOfLongPart | kernel/vfs/fat32.c:908-926 | parsing all long slots gives the name, its terminator and 0xff padding |
| DirName.LongNameRoundTripIff | kernel/vfs/fat32.c:908-926 | a long name of non-zero bytes comes back from its slots exactly when it contains a dot (or the length left over from the entry before happens to be its own) |
| DirName.DotlessNameLost | kernel/vfs/fat32.c:1329 | a twelve-letter name without a dot, parsed after an entry of no length, does not come back |
| DirName.ShortTextIff | kernel/vfs/fat32.c:1240-1270 | a name of up to 11 bytes comes back upper-cased from its 8.3 slot exactly when it is a proper 8.3 name |
| DirName.ShortTextOfParts | kernel/vfs/fat32.c:927-945 | the two parts of any 8.3 field that have no spaces in them are read as joined by a dot, or as one if the second is empty |
| DirName.ClusterRoundTripIff | kernel/vfs/fat32.c:1308-1309 | the first cluster read back is the low bytes of its two halves, and the file's own exactly when neither half needs its high byte |
| DirName.FourBytes | kernel/vfs/fat32.c:310 | readdir reads all four bytes of the number, lookup leaves out the second one |
| DirName.Cluster256Lost | kernel/vfs/fat32.c:1308-1309 | a file in cluster 256 is filed under cluster 0 |
| DirName.ParseShort | kernel/vfs/fat32.c:927-945 | the 8.3 branch of the parser puts the text of the slot in the name buffer |
| DirName.CheckFilename | kernel/vfs/fat32.c:948 | names compare equal exactly when they have equal length and their bytes are equal or the two cases of one ASCII letter |
| DirItems.SameKeyIff | kernel/vfs/fat32.c:948-955 | two names are one to the lookup exactly when they are equal up to the case of letters, and of one type |
| DirItems.MatchesIff | kernel/vfs/fat32.c:948-955 | an entry answers to exactly the names that its own is equal to up to the case of letters, of the type that its attribute byte says |
| DirItems.LongestName | kernel/vfs/fat32.c:908-918 | the long slots of a name fit the parser's buffer exactly up to a length of 246 |
| DirItems.WritableIff | kernel/vfs/fat32.c:895-906 | of the names that fit and have no zero bytes, those can be written all of whose slots begin with a byte that reads neither as unused nor as deleted |
| DirItems.FileItemMatchesIff | kernel/vfs/fat32.c:781-962 | a registered name is well formed in the directory, and a lookup of it stops at it exactly when it is a proper 8.3 name or a long one with a dot |
| DirItems.FaithfulAnswers | kernel/vfs/fat32.c:781-962 | the entry of such a name answers to that name in any case, with its own type, and to nothing else |
| DirItems.DeleteLookup | kernel/vfs/fat32.c:965-990 | deleting an item removes exactly the names it answered to; every other name keeps its entry and its slots |
| DirItems.FirstRoom | kernel/vfs/fat32.c:807-834 | the search for room stops at the first slot that is unused or begins enough deleted ones, and runs off the end only if there is none |
| DirItems.RegisterLookup | kernel/vfs/fat32.c:781-869 | a new item on free items of its size or behind the last one is found at its place, and every other lookup is unchanged |
| DirItems.RunIsFreeItems | kernel/vfs/fat32.c:819-826 | a run of deleted slots is a row of free items, so overwriting it hits no live entry |
| DirItems.RegisterInRun | kernel/vfs/fat32.c:842-866 | registering on a run of deleted slots gives a well-formed directory again |
| DirRegister.RowUnique | kernel/vfs/fat32.c:253-330 | the slots determine the entries: a row of items is fixed by its slots as far as they go |
| DirRegister.DirUnique | kernel/vfs/fat32.c:253-330 | the slots of a well-formed directory leave no choice of its entries |
| DirRegister.BeginsWith | kernel/vfs/fat32.c:253-330 | a well-formed directory begins with every row of items that its slots begin with, and the rest is well formed too |
| DirRegister.BlankIff | kernel/vfs/fat32.c:257-266 | slots form a directory that lists nothing exactly when up to the first unused one there are only deleted slots and volume labels |
| DirRegister.RegisterListsIff | kernel/vfs/fat32.c:842-866 | a registration leaves some well-formed directory whose listing gained the new entry and nothing else, exactly when the slots behind the entry, up to the first unused one, list nothing; new clusters are not cleared |
| DirRegister.RegisterFindsIff | kernel/vfs/fat32.c:842-866 | it leaves some well-formed directory in which the name leads to the new entry and every other name to what it led to, exactly when those slots are items that answer only to names found before them |
| DirRegister.PhantomExample | kernel/vfs/fat32.c:846-854 | one page of 31 files grows by a cluster that still holds an entry: a file is found that was not there before |
| DirRegister.CutOffIsNoDirectory | kernel/vfs/fat32.c:842-849 | a long name cut off at the end of the directory is no row of items, whatever stands before it |
| DirRegister.CutOffExample | kernel/vfs/fat32.c:842-849 | that happens to the page of 31 files when a name of two slots is registered and there is no cluster to grow by |
| DirRegister.RegisterKeeps | kernel/vfs/fat32.c:781-869 | with nothing listed behind the entry the directory is again well formed, terminated and free of duplicates, with the map updated at the new name only |
| DirItems.DeleteMeans | kernel/vfs/fat32.c:965-990 | a deletion as a map update: exactly the name goes, the directory stays well formed |
| DirItems.NewDirectory | kernel/vfs/fat32.c:606-658 | in a new directory exactly the names dot and dot-dot are found, and nothing else |
| DirItems.DotClusterIff | kernel/vfs/fat32.c:627-647 | a dot slot leads to its cluster exactly when neither half of the number needs its high byte |
| DirItems.EntryOfMeans | kernel/vfs/fat32.c:263-311 | what is listed, all but deleted slots and volume labels, and as what: its name, its four-byte number, and a directory exactly if bit 4 of its attributes is set |
| DirItems.FileEntry | kernel/vfs/fat32.c:253-330 | a registered name that survives its slots is listed with its type, in capitals if it is short and unchanged if it is long, with its number exactly when neither half needs its high byte |
| DirItems.NewListing | kernel/vfs/fat32.c:253-330 | a new directory is listed as its two dot entries, both of them directories |
| Directory.SlotsAreBytes | kernel/vfs/fat32.c:994-1014 | the slots of a directory, one after the other, are the first 1024 bytes of each of its pages |
| Directory.ReadDr | kernel/vfs/fat32.c:994-1014 | slot i of the directory, or an error past its last page |
| Directory.ReadName | kernel/vfs/fat32.c:907-946 | from the first slot of an entry the parser reads the entry's name and stops at its 8.3 slot |
| Directory.LookupDirentry | kernel/vfs/fat32.c:873-962 | the slot-by-slot search computes the map lookup that the items define, with first slot and slot count |
| Directory.ReadDir | kernel/vfs/fat32.c:204-336 | the listing is the live entries in slot order, within the table's capacity; the error code is 1 exactly when no unused slot ends the directory |
| Directory.CapacitySuffices | kernel/vfs/fat32.c:244 | a table of i_blocks clusters' worth of entries is large enough when a cluster has at least 1024 bytes |
| Directory.IsEmpty | kernel/vfs/fat32.c:669-700 | empty exactly when only deleted slots stand between the two dot entries and an unused slot |
| Directory.SearchRoom | kernel/vfs/fat32.c:807-834 | finds the first long enough run of deleted slots or the first unused slot, and fails only if there is neither |
| Directory.DirStore.PutSlot | kernel/vfs/fat32.c:1017-1038 | writes one slot; every other slot and every page of another file is as before |
| Directory.DirStore.GrowDir | kernel/vfs/fat32.c:846-854 | a directory grows by one cluster while the new file's cluster is reserved: the slots of the new cluster follow the old ones |
| Directory.DirStore.WriteOne | kernel/vfs/fat32.c:855-866 | one pass of the registering loop: one more slot of the file, no page of another file |
| Directory.DirStore.WriteSlots | kernel/vfs/fat32.c:842-868 | the registering loop writes exactly the file's slots from the place found, growing the directory at most once, or gives up after a prefix |
| Directory.DirStore.ApplyDirentry | kernel/vfs/fat32.c:781-869 | nothing happens without room or without a free cluster; otherwise the slots are written and the number returned is a free, reserved cluster that is not among those the directory grew by; giving up loses exactly one cluster of the count |
| Directory.DirStore.DeleteDirentry | kernel/vfs/fat32.c:965-990 | the first bytes of exactly the given slots become deletion marks |
| Directory.NewDirectoryLeads | kernel/vfs/fat32.c:606-658 | looked up in a new directory, dot leads to itself and dot-dot to its parent, each exactly when neither half of the number needs its high byte; no other name leads anywhere |
| Directory.DirStore.InstallFile | kernel/vfs/fat32.c:580-667 | the new file's chain and first page, zero but for the dot entries of a directory, which lead to the new file and to the parent as far as slots can hold their numbers; no slot of the parent changes |
| Directory.DirStore.CreateInode | kernel/vfs/fat32.c:541-667 | a whole creation: the parent's slots, its chain, the new file's chain and page, with dot entries that lead where they should; it fails exactly without room, without a counted cluster, or when the parent would have to grow and one cluster is counted; only this last failure leaves a trace and loses a cluster, and after it the parent's slots are no directory any more |
| Directory.DirStore.DeleteInode | kernel/vfs/fat32.c:375-428 | a whole deletion: the entry that the lookup finds is marked, the file goes and its clusters are free and counted, no other file or page of one changes; without an entry nothing happens |
| Directory.RegisteredIff | kernel/vfs/fat32.c:842-868 | the registering loop gives up exactly when the entry needs a cluster that is not counted, and then the slots it left are no row of items |
| Directory.CreatedFileIsFound | kernel/vfs/fat32.c:541-667 | after creating a faithful name that was absent: the listing gained exactly the entry with the file's type, name and low number bytes, if and only if what stands behind lists nothing; all lookups are right if and only if what stands behind answers only to names found before; with nothing listed there, the directory is again one with terminated names and no duplicates |
| DirectoryRun.KeyOfIff | kernel/vfs/fat32.c:948-955 | names are one key of the map exactly when they are equal up to the case of letters, and of one type |
| DirectoryRun.NamesOfRefines | kernel/vfs/fat32.c:873-962 | every row of entries stands for a finite map from names, up to case, to entries: the first one that answers counts |
| DirectoryRun.MayCreate | kernel/vfs/fat32.c:807-849 | where a registration will go, whether the search for its clusters will end well and whether it will be cut off can be told beforehand |
| DirectoryRun.CreateNew | kernel/vfs/fat32.c:541-667 | a creation with clusters enough writes the slots of the name where the search for room stops, over those of one more cluster if need be, makes a file of the number written, and takes exactly the clusters for that off the count; without room or clusters it changes nothing |
| DirectoryRun.StepCreate | kernel/vfs/fat32.c:541-667 | it adds exactly that name to the map, and the directory stays in order, if nothing is listed behind the new entry; whether something is can be told by reading on |
| DirectoryRun.StepFind | kernel/vfs/fat32.c:873-962 | a lookup gives what the map gives, and changes nothing |
| DirectoryRun.StepDelete | kernel/vfs/fat32.c:375-428 | a deletion removes exactly that name from the map, marks exactly the slots of its entry, removes exactly the file and counts its clusters, and the directory and the volume stay in order |
| DirectoryRun.Step | kernel/vfs/fat32.c:375-962 | one operation on the directory as a map, with files created only under names that lead nowhere |
| DirectoryRun.Run | kernel/vfs/fat32.c:375-962 | a run of creations, lookups and deletions in one directory refines a finite map: a trace of slots, map, files and count in which each operation has its effect, each name led where the map said, and a deletion removed the file whose number its entry held; the run ends early only before the creation of a name that the slots cannot hold, before one that would be cut off or would not find its clusters, before the deletion of a file that is not in memory or would leave a stale hint, and with a creation behind whose entry something is listed |
| PrioArrayModule.PrioArray.constructor | kernel/pc/pc.c:86-100 | an empty array: no tasks, no bits, highest priority MAX_PRIO |
| PrioArrayModule.PrioArray.SetBitMap | kernel/pc/pc.c:1125-1136 | exactly the bit of the priority is set |
| PrioArrayModule.PrioArray.ClearBitMap | kernel/pc/pc.c:1210-1218 | exactly the bit of the priority is cleared |
| PrioArrayModule.PrioArray.Rescan | kernel/pc/pc.c:1173-1197 | the byte-then-bit scan finds the first set bit from the byte of the priority on, or MAX_PRIO |
| PrioArrayModule.RescanFindsLeast | kernel/pc/pc.c:1171-1197 | that scan may start at the emptied queue's byte: it finds the least non-empty queue |
| PrioArrayModule.PrioArray.UpdateHighest | kernel/pc/pc.c:1142-1206 | the cached minimum after an arrival or a departure |
| PrioArrayModule.PrioArray.Enqueue | kernel/pc/pc.c:1022-1052 | the task joins the tail of the queue of its priority; lists, counters, bitmap and cached minimum stay right |
| PrioArrayModule.PrioArray.EnqueueHead | kernel/pc/pc.c:1095-1122 | the same at the head |
| PrioArrayModule.PrioArray.Dequeue | kernel/pc/pc.c:1070-1092 | the task leaves whatever queue it is in; bitmap and cached minimum stay right exactly when its priority names that queue or it is not alone there |
| PrioArrayModule.DequeueIndex | kernel/pc/pc.c:1077-1090 | the index after a departure is right if and only if the looked-at queue is the one that was left, or that one is not empty |
| PrioArrayModule.PrioArray.Requeue | kernel/pc/pc.c:1055-1066 | the task goes to the end of the queue of its priority |
| PrioArrayModule.LeaveQueue | kernel/pc/pc.c:1072-1075 | a departure removes exactly that task from the members and one from the total |
| PrioArrayModule.JoinQueue | kernel/pc/pc.c:1022-1051 | an arrival adds exactly that task to the members and one to the total |
| Pid.PidMap.constructor | kernel/pc/pid.c:6-17 | only the number of idle is taken, the next candidate is 1 |
| Pid.PidMap.Check | kernel/pc/pid.c:22-35 | a number may be given out exactly when it is in range and its bit is clear |
| Pid.PidMap.Alloc | kernel/pc/pid.c:40-79 | returns a free number in 1..255, the cached candidate if free, else the least; fails exactly when none is free; marks only that one |
| Pid.PidMap.Free | kernel/pc/pid.c:84-101 | a number is recycled exactly when it is 0, 1 or 2 modulo 32; every other one stays taken, and no other number is affected |
| SchedulerModule.Scheduler.constructor | kernel/pc/pc.c:46-127 | the machine starts with no task but idle, and satisfies the invariant |
| SchedulerModule.DynamicPrio | kernel/pc/pc.c:562-601 | a normal task's priority stays in the normal range, at most four steps behind its static priority and never ahead of it |
| SchedulerModule.PriorityBySleep | kernel/pc/pc.c:562-601 | a normal task's priority is four behind its static one up to a sleep average of 1111, equal to it above 4444, and one better behind each of 1111, 2222, 3333 and 4444, except where the last priority cuts the steps off |
| SchedulerModule.MoreSleepIsNotWorse | kernel/pc/pc.c:562-601 | more sleep never gives a worse priority; idle keeps the last one, real-time tasks their own |
| SchedulerModule.BasicTimeslice | kernel/pc/pc.c:607-630 | every slice is at least 1 and within the bounds of its class |
| SchedulerModule.SliceByPriority | kernel/pc/pc.c:607-630 | slices by priority: 5 to 70 for normal tasks, 500 to 1200 for real-time ones, each in equal steps between its bounds, 1 for idle |
| SchedulerModule.PolicyByPriority | kernel/pc/pc.c:287-334 | first in, first out up to priority 24, round robin from 25 to 49, normal from 50 on |
| SchedulerModule.AverageAfter | kernel/pc/pc.c:760-763 | sleep adds to an average up to 5555, running takes from it down to 0 |
| SchedulerModule.TimeBetween | kernel/pc/pc.c:709-711 | the difference of two readings is the time between them, also when the clock has passed its end |
| SchedulerModule.Scheduler.PickMeans | kernel/pc/pc.c:744-753 | who is picked: the head of the first queue that is not empty, but idle while a task of priority 0 is queued, which only an exit picks |
| SchedulerModule.Scheduler.Choose | kernel/pc/pc.c:725-753 | whatever keys there are: the arrays are exchanged exactly when the active one is empty; the task picked heads the best queue, and priority 0 is passed over for idle |
| SchedulerModule.Scheduler.Account | kernel/pc/pc.c:706-757 | the accounts change no list or index; the picked task's key still names its queue exactly when its old sleep average and time stamp give it that priority |
| SchedulerModule.Scheduler.Switch | kernel/pc/pc.c:756-784 | sleep averages, time stamps and priorities of the two tasks, and the change of the current task |
| SchedulerModule.Scheduler.RecalcTaskPrio | kernel/pc/pc.c:830-847 | the waiting time joins the capped sleep average; only a normal task's priority is worked out anew |
| SchedulerModule.Scheduler.Charge | kernel/pc/pc.c:706-716 | running time is capped and taken off the stopped task's average, not below 0; both tasks are stamped |
| SchedulerModule.Scheduler.Schedule | kernel/pc/pc.c:688-790 | lists, counters, indexes and numbers are kept, whatever keys there are; keys that named queues still do exactly when the picked task's sleep average and time stamp from before give it the priority of its queue |
| SchedulerModule.Scheduler.SchedFork | kernel/pc/pc.c:273-362 | priorities and policy from the request or the parent; the slice is shared, the parent keeping at least 1 |
| SchedulerModule.Scheduler.WakeUpNewTask | kernel/pc/pc.c:366-433 | the child starts with no sleep average at the tail of its queue in the active array; the parent keeps its average |
| SchedulerModule.Scheduler.NumberedAppend | kernel/pc/pc.c:212-218 | one more task keeps numbers distinct and taken if and only if there was a number for it |
| SchedulerModule.Scheduler.Fork | kernel/pc/pc.c:197-267 | exactly one new task enters lists, queue and counters; process numbers stay distinct and taken if and only if one was free, since the test for failure never fires |
| SchedulerModule.Scheduler.DeleteTask | kernel/pc/pc.c:1011-1018 | exactly the task leaves its queue, the process list and both counters; no other queue changes; indexes stay right exactly when its priority named its queue or it was not alone there |
| SchedulerModule.Scheduler.KeyedKeepsIndex | kernel/pc/pc.c:1070-1092 | while keys name queues every task can be taken out safely |
| SchedulerModule.Scheduler.HomeOf | kernel/pc/pc.c:1011-1018 | a live task is in exactly one of the two arrays, the one it knows |
| SchedulerModule.Scheduler.FindInProcesses | kernel/pc/pc.c:985-999 | the task with that number if there is one; idle for idle's number |
| SchedulerModule.Scheduler.FindNextTask | kernel/pc/pc.c:632-684 | the successor of an exiting task: unlike schedule it may take one of priority 0; its new priority follows from its old sleep average and time stamp |
| SchedulerModule.Scheduler.Exit | kernel/pc/pc.c:852-907 | the current task leaves and another runs, with its new sleep average and priority; lists, indexes and numbers are right, and keys that named queues still do exactly under the condition of Schedule |
| SchedulerModule.Scheduler.KillTarget | kernel/pc/pc.c:912-945 | which requests are refused, and which task a number names |
| SchedulerModule.Scheduler.Kill | kernel/pc/pc.c:912-965 | refuses idle, init, the current task, unused and out-of-range numbers; otherwise removes exactly the task of that number; lists, counters, numbers and keys are kept, and the indexes exactly when the task could be taken out safely |
| SchedulerModule.Scheduler.YieldIff | kernel/pc/pc.c:447-486 | a tick preempts at once exactly when the running task is idle or expired or a task is queued in front of its priority |
| SchedulerModule.Scheduler.RoundRobinVerdict | kernel/pc/pc.c:495-523 | a round-robin task at the end of its slice is requeued exactly while the clock itself lies between its new slice and 5555 behind it; from then on it always expires |
| SchedulerModule.Scheduler.CountTick | kernel/pc/pc.c:438-543 | what a tick does to the running task's slice and queue before it may reschedule, by case |
| SchedulerModule.Scheduler.RequeueCurrent | kernel/pc/pc.c:516-518 | a round-robin task goes to the end of its own queue; the other array is unchanged |
| SchedulerModule.Scheduler.ExpireCurrent | kernel/pc/pc.c:532-537 | a used-up slice: from its queue in the active array to the tail of its new queue in the expired one, with a new slice; indexes stay right exactly when it could be taken out safely |
| SchedulerModule.Scheduler.Tick | kernel/pc/pc.c:438-555 | the verdict, the exact change of slice and queues, the exchange or pick that follows, the picked task's new priority, and whether its key still names its queue, from the state before |
| SchedulerRun.Foresee | kernel/pc/pc.c:197-965 | whether an event is harmful can be told beforehand: a fork without a free number, or the removal of a task that is alone in a queue of another priority than its own |
| SchedulerRun.Step | kernel/pc/pc.c:197-965 | every event that is not harmful keeps the invariant and does exactly this: a fork adds one task with a free number at the end of the process list, or nothing when the priority is out of range; a tick notes time and running task and changes no list or number; an exit removes the running task; a kill removes the task of that number, if it is one that may be killed and there is one |
| SchedulerRun.Run | kernel/pc/pc.c:197-965 | from the empty machine on, over any sequence of forks, ticks, exits and kills: a trace of process list, running task, numbers, history and clock in which each event has its effect; at the end each live task is in exactly one queue of one array, counters agree, indexes are right, numbers differ, and every task has some of its slice left; the run is cut off only before a harmful event |
| Epoch.SliceTick | kernel/pc/pc.c:438-555 | with normal tasks a tick takes from the running task's slice or moves it out or only switches, and if it reschedules, the task picked heads the best queue that is left, with the priority of its waiting time |
| Epoch.WorkIsUnits | kernel/pc/pc.c:438-555 | the work of an epoch is one tick for each unit of slice that the active tasks have left, and one more if the running task will be preempted at once |
| Epoch.EpochTick | kernel/pc/pc.c:438-555 | from any state whose lists and indexes are right, whatever keys there are: a tick either exchanges the arrays, the running task having been the last active one, or only the running task may leave the active array and the work left shrinks, unless the task picked has been overtaken |
| Epoch.PickedYieldsIff | kernel/pc/pc.c:466-486 | with normal tasks the one just picked is preempted at once exactly when it is idle or its priority is behind that of its queue |
| Epoch.PickTick | kernel/pc/pc.c:438-555 | a tick that reschedules is followed by an immediate preemption exactly when, by sleep average and time stamp from before, the task picked gets a priority behind that of its queue |
| Epoch.RunEpoch | kernel/pc/pc.c:438-555 | from any such state, all reachable ones with normal tasks only included: a run of ticks either exchanges the arrays, and by then every task of the active array has had the processor, or takes at most as many ticks as there is work and ends only before a tick that is blocked, by the slice of a task that cannot be taken out safely or by a pick that has been overtaken |
| Starvation.StuckTick | kernel/pc/pc.c:474-486 | a task that heads the best queue with a priority behind it is preempted and picked again by the next tick, and keeps its slice; it is stuck again exactly when its waiting time still gives a priority behind the queue |
| Starvation.StuckRun | kernel/pc/pc.c:474-486 | so it goes on for as long as the clock steps are that small: the history gains that task only, no queue changes and no slice is used up |
| Starvation.QueueTick | kernel/pc/pc.c:438-555 | a tick that reschedules, seen on the queues alone: which rows of queues there are afterwards in which array, and which task heads the best one |
| Starvation.Of55 | kernel/pc/pc.c:562-601 | priorities and slices of a task with static priority 55 after the waiting times of the example |
| Starvation.AlteredKeyExample | kernel/pc/pc.c:688-790 | a machine in which such a task, picked at time 1112, runs with priority 58, alone in queue 59, so that its exit would be harmful |
| Starvation.StuckExample | kernel/pc/pc.c:438-790 | from the empty machine by two forks and ticks of one time unit to a stuck machine: at time 1157 the first task is picked from queue 58 with priority 59 |
| Starvation.StarvesExample | kernel/pc/pc.c:438-790 | from there on, for any number of ticks one time unit apart, only that task has the processor and the other one waits in its queue |
| Common.WithoutMiddle | include/zjunix/list.h:34-37 | removing an entry leaves the others of a list in their order |
| CircularList.Insert | include/zjunix/list.h:23-28 | linking a node between two neighbours inserts it there in the circle |
| CircularList.Add | include/zjunix/list.h:30 | the node becomes the first entry |
| CircularList.AddTail | include/zjunix/list.h:32 | the node becomes the last entry |
| CircularList.Unlink | include/zjunix/list.h:34-37 | joining the neighbours removes exactly that node from the circle |
| CircularList.Del | include/zjunix/list.h:39-43 | the entry is removed, its links are poisoned |
| CircularList.DelInit | include/zjunix/list.h:45-48 | the entry is removed and an empty list of its own |
| CircularList.MoveTail | include/zjunix/list.h:55-58 | the entry goes to the end of the same or another list, all others keep their order |
| CircularList.IsEmpty | include/zjunix/list.h:60 | true exactly for a list without entries |
| CircularList.Walk | include/zjunix/list.h:64 | the walk visits exactly the entries, in order, and ends |
| PageCache.ClusterStored | kernel/vfs/fat32.c:749-776 | writing one cluster changes that cluster only: different clusters have no sector in common |
| PageCache.Geometry.BasesApart | kernel/vfs/fat32.c:737-738 | on a disk large enough for 32-bit sector numbers different clusters occupy different sectors |
| PageCache.Cache.constructor | kernel/vfs/vfscache.c:71-87 | an empty cache in order |
| PageCache.Cache.LookUp | kernel/vfs/vfscache.c:163-204 | a hit is the valid page of that location and inode and moves to the end of the LRU list; a miss means there is none; no cluster looks different |
| PageCache.Cache.Del | kernel/vfs/vfscache.c:235-258 | a valid page reaches its own sectors before it leaves both lists; no cluster looks different |
| PageCache.Cache.Discard | kernel/vfs/fat32.c:406-414 | an invalidated page leaves the cache unwritten: its cluster shows the disk again, every other cluster is unchanged |
| PageCache.Cache.Add | kernel/vfs/vfscache.c:206-233 | the page enters its bucket and the end of the LRU list; a full cache first drops the head of that list; no cluster looks different |
| PageCache.Cache.FullHasFirst | kernel/vfs/vfscache.c:220-228 | the victim of a full cache is its least recently used page |
| PageCache.WithoutSorted | kernel/vfs/vfscache.c:247-251 | removal keeps the LRU order and removes exactly one page |
| PageCache.Cache.WritePage | kernel/vfs/fat32.c:749-776 | a clean page needs no write, an invalid one cannot be written, a dirty one is written to its cluster and clean then |
| PageCache.Cache.ReadPage | kernel/vfs/fat32.c:723-746 | the page holds its cluster and is clean |
| PageCache.Cache.FindPage | kernel/vfs/fat32.c:855-857 | look up, or read and add: the page holds what the cluster showed before, and no cluster looks different |
| PageCache.Cache.Update | kernel/vfs/fat32.c:861-862 | changing a page changes exactly that cluster's looks |
| PageCache.Serve | kernel/vfs/vfscache.c:163-258 | any sequence of reads and writes through the cache is answered as by plain memory, whatever is evicted when, and leaves every cluster showing the last value written to it |
| PageTable.AddressParts | kernel/pc/page.c:13-14 | directory index, table index and offset are the digits of an address |
| PageTable.MapRangeAt | kernel/pc/page.c:53-71 | mapping n pages in the flat map: page i of the range gets frame i with the attributes, every other page keeps its entry |
| PageTable.AddressSpace.TableFor | kernel/pc/page.c:12-34 | finding or making the second-level table changes no page's entry; memory is asked for exactly when the table is missing, and it fails exactly when that gives none |
| PageTable.AddressSpace.MapOne | kernel/pc/page.c:8-50 | the two levels refine a flat map update of one page; second-level tables stay disjoint; failure changes no page |
| PageTable.AddressSpace.Map | kernel/pc/page.c:53-71 | success maps all pages in the flat map, failure exactly the pages before the one that lacked a table, when memory had run out; directory entries of other pages are kept |
| Buddy.BlockSizes | kernel/mm/mybuddy.c:96-131 | blocks of the five levels have 1, 2, 4, 8 and 16 pages |
| Buddy.Split | kernel/mm/mybuddy.c:118-129 | giving the upper half of a block to the next lower list keeps the lists well formed and adds exactly that half to the free pages |
| Buddy.Taken | kernel/mm/mybuddy.c:107-114 | unlinking the first block of a list removes exactly its pages from the free ones |
| Buddy.BuddySystem.TakeFrom | kernel/mm/mybuddy.c:107-131 | the splitting loop: one block kept, the upper halves given back |
| Buddy.BuddySystem.AllocBlock | kernel/mm/mybuddy.c:96-139 | takes the first block of the least sufficient level; the aligned block and the new free blocks partition what was free, counts equal list lengths, no other page's flag or level changes; fails exactly when no list from that level on has a block |
| Buddy.BuddySystem.AllocPages | kernel/mm/mybuddy.c:150-165 | the level is the least with enough pages, and the block is that of AllocBlock; nothing for a request of none |
| BootMem.StartBit | kernel/mm/mybootmm.c:189 | for any alignment the mask clears the bits of the alignment plus one from the last page of the first stretch |
| BootMem.StartOfOne | kernel/mm/mybootmm.c:189 | with an alignment of one page the mask clears bit 1, so the search may begin up to two pages early, never late |
| BootMem.FindSound | kernel/mm/mybootmm.c:184-226 | whatever the alignment, what is found is a run of free pages below the limit |
| BootMem.FindFirst | kernel/mm/mybootmm.c:184-226 | with an alignment of at most one page the search finds the first run there is and fails only if there is none |
| BootMem.FindAfterUsed | kernel/mm/mybootmm.c:219-224 | behind a used page in a run that was too short the search goes on by the alignment |
| BootMem.CompleteIff | kernel/mm/mybootmm.c:222-223 | the search misses no run, whatever the map, if and only if the alignment is at most one page |
| BootMem.AlignedIff | kernel/mm/mybootmm.c:184-226 | every page found from an aligned start is aligned, whatever the map, if and only if the alignment is one page |
| BootMem.OnePageComplete | kernel/mm/mybootmm.c:184-226 | with an alignment of one page the search from the early start still fails only if there is no run from the requested page on |
| BootMem.BootMap.constructor | kernel/mm/mybootmm.c:142-161 | kernel pages used, the others free |
| BootMem.BootMap.SetMaps | kernel/mm/mybootmm.c:168-176 | exactly the given pages are marked |
| BootMem.BootMap.Search | kernel/mm/mybootmm.c:191-224 | the nested loops terminate and compute the specified search |
| BootMem.BootMap.FindPages | kernel/mm/mybootmm.c:184-226 | exactly the run found is marked, and its address returned; otherwise nothing changes; with an alignment of one page it fails only if there is no run from the requested page on |
| BootMem.BootMap.AllocPages | kernel/mm/mybootmm.c:233-258 | the pages after the last allocation are tried first, then those before it; with an alignment of one page it fails only if neither part has a run |
| SlabPage.Page.constructor | kernel/mm/myslab.c:50-66 | a fresh page: nothing handed out, space left |
| SlabPage.ObjectsApart | kernel/mm/myslab.c:176-199 | objects handed out do not overlap |
| SlabPage.Page.Alloc | kernel/mm/myslab.c:176-203 | the object is not live before; live and freed objects partition those ever handed out; it lies in the page exactly when it comes from the free list or the space behind suffices; nothing exactly when the page is full with an empty free list |
| SlabPage.Page.Free | kernel/mm/myslab.c:69-97 | the object heads the free list; the page never counts as full afterwards, with or without space behind the last object |
| SlabPage.Page.RunsOut | kernel/mm/myslab.c:176-203 | as long as the page counts as full exactly when it is, there is nothing to take exactly when one more object than the live ones would reach the page's end |
| SlabPage.Run | kernel/mm/myslab.c:50-203 | from a fresh page on: a trace of live objects in which each operation has its effect and which always lie in the page and apart; the run ends early only before an object is given back that is not live or while the page counts as full |
| SlabPage.OverrunExample | kernel/mm/myslab.c:93-94 | filling a page, giving one object back and taking two more leaves a page with a live object that reaches past its end |

## Left out

- Block input and output and `kmalloc`: both are taken to succeed, except in `PageTable`, where `kmalloc` may return 0.
- DirName.FillDirentry: names of 247 bytes and more, of which the writer accepts those up to 253, are left out, since their slots do not fit the parser's buffer of 255 bytes.
- DirName.SlotShape: the same; all else about names likewise.
- Clusters smaller than 1024 bytes: the directory code assumes 32 slots in every page whatever the cluster size.
- Directory.LookupDirentry: assumes a directory whose slots form entries up to the first unused one, with the names of long ones terminated; an unterminated long name, which the kernel itself writes for a name without a dot, takes its length from the entry parsed before it, and only `LongNameRoundTripIff` says what comes of that; a cut-off entry is no such directory (`CutOffIsNoDirectory`).
- Directory.ReadDir: assumes the same.
- Directory.ReadName: assumes a terminated name, likewise.
- Directory.DirStore.DeleteInode: assumes such a directory; and the pages of the deleted file are dropped from the cache unwritten, which `PageCache.Cache.Discard` models, so what its freed clusters show afterwards is left as it was here.
- DirectoryRun.Run: deletes only files that are in memory, as the kernel does after a path walk, and creates only under names that lead nowhere, as `open` does; the pages of other directories and files are not part of its trace.
- VolumeModule.Volume.SearchFree: requires a free cluster in the searched range; without one the source loops for ever (`SearchEndsIff`).
- VolumeModule.Volume.ApplyFat: requires one if the count is positive, for the same reason.
- VolumeModule.Volume.Take: requires one that is not reserved if the count is positive; otherwise the source hands out a reserved cluster again or loops (`HandsOutFreeIff`).
- FileSystemModule.FileSystem.CreatePage: requires that the search sees as many clusters as are asked for or counted (`Enough`), for the same reason; `EnoughIff` says what that means and `FileSystemRun.CountFree` finds it out.
- FileSystemModule.FileSystem.AppendPage: requires the same of one cluster.
- FileSystemModule.FileSystem.GrowOne: requires the same of one cluster.
- FileSystemModule.FileSystem.Bmap: requires the same of the clusters that are missing.
- FileSystemModule.FileSystem.Reserve: requires the same of one cluster.
- FileSystemRun.StepExtend: requires the same; a run finds out before the step.
- FileSystemRun.StepCreate: requires the same, likewise.
- Directory.DirStore.GrowDir: requires the same of one cluster.
- Directory.DirStore.ApplyDirentry: requires the same of the clusters that the registration takes (`Affordable`).
- Directory.DirStore.CreateInode: requires the same as `ApplyDirentry`.
- FileSystemModule.FileSystem.FillMapping: assumes that the first cluster begins a well-formed chain; on a damaged FAT the loop need not end; and that no inode of that file is in memory already.
- Pages in `Directory` are what the page cache shows for a cluster; that the cache shows it is proved in `PageCache`.  The two are not composed in one class.
- Pid.PidMap.Free: numbers from 256 on, such as that of a task forked without a free number, are left out; for them the source writes outside the map.
- PageCache.Cache.FindPage: assumes that no other inode has a page of the same cluster in the cache, as disjoint chains give it as long as an inode's pages leave the cache with it.
- PageCache.Cache.Add: assumes the same.
- The `p_list` of pages per inode, from which `pcache_del` does not unlink (kernel/vfs/vfscache.c:249-254), and flushing over it.
- `dcache_*`, a smaller relative of the page cache; `fat32_writeinode`; mounting beyond the FAT layout; path walking; ext2.
- Slots and local buffers that the code fills through pointers are values in `DirName` and `Directory`; pages are rewritten as values.
- Directory.DirStore.WriteSlots: requires, like `ApplyDirentry`, that the search finds the cluster by which the directory grows; the registering loop is split at the one place where that can be.
- Queues, buckets, LRU and free lists are sequences in their modules; the pointer operations under them are proved in `CircularList`, for one or two lists at a time.
- SchedulerModule.Scheduler.Exit: requires that the task can be taken out safely (`KeepsIndex`); otherwise a bit stays set for an empty queue (`DeleteTask`, `ExpireCurrent`), and `schedule` may take the head of an empty list.
- SchedulerModule.Scheduler.Tick: requires the same of a task whose slice is used up.
- SchedulerModule.Scheduler.CountTick: requires the same.
- Epoch.EpochTick: requires the same, and so do Epoch.SliceTick and Epoch.PickTick; a run stops there (`Blocked`).
- Epoch.RunEpoch: ends before a pick that has been overtaken; how long the machine then stays as it is depends on the clock, and only `StuckTick` and `StuckRun` say what comes of that.
- SchedulerModule.Scheduler.Fork: the limits of `fork` and its choice of entry points are left out; a failing `kmalloc` is not modelled.
- `init_pc` declares a local `idle` that hides the global one (kernel/pc/pc.c:48); the model has the one idle task.
- Clock readings, contexts, interrupts and the address-space switch: readings are parameters, the rest is absent.  `starve_count` is never written, and killing the running task is refused, so that branch of `basic_timeslice` has no effect.
- Locks: they never wait.
- PageTable.AddressSpace.MapOne: attributes are taken to be below the page size, so that they do not reach into the address.
- PageTable.AddressSpace.Map: the same.
- PageTable.AddressSpace.TableFor: the same.
- `__free_pages` compares a level with a page number and `init_buddy` leaves the last list uninitialised (kernel/mm/mybuddy.c:56-71, kernel/mm/mybuddy.c:194); neither decides a property.
- Buddy.BuddySystem.AllocPages: the request is at most 2^31 pages; the shift is not defined beyond that.
- `insert_mminfo` and the other usage records of the boot allocator (kernel/mm/mybootmm.c:29-139): records are overwritten or dropped.
- BootMem.BootMap.FindPages: the alignment is at most 2^20 pages, as its one caller shifts it; beyond that `temp + align_pfn` could wrap.
- BootMem.BootMap.AllocPages: page 0 is taken to be in use, as after `init_bootmm`; its address would read as a failure.
- Slab page turnover: partial and full lists, the path without a current page, and returning pages to the buddy system; `slab_alloc` returns nothing defined for a full current page (kernel/mm/myslab.c:176-203), which is `None` here.
- Drivers, interrupts, assembly, shell, logging, time strings.
