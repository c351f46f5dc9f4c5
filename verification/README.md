# Hatcher kernel: verified models

Hatcher is a small 64-bit kernel. This project models its stateful core in Dafny and proves what it is for. Each part
comes twice where the source changes state: as functions and lemmas about values, which say what is true of the
behaviour, and as classes with methods that change buffers, tables and records in place as the C code does and are
proved to compute those functions.

- **Heap** (`mem/heap.c`). `HeapBlocks` describes the block list and proves tiling, full coalescing, conservation,
  isolation of live blocks, exact conditions for success, and that the live blocks determine the list. `Heap` is the
  allocator on in-band headers in one memory array. `HeapRuns` lifts the results to whole runs of requests.
- **FAT32** (`drivers/fs/fat32.c`). `FatLayout` and `FatTable` give sectors, geometry, chains and the forest they
  form. `FatVolume` is the mounted volume with its one-sector cache, mirrored table updates and the search for a free
  cluster; sectors may fail. `FatFile` writes and reads files, `FatDirectory`, `FatDirOps`, `FatPlace`, `FatReuse` and
  `FatCreate` encode, list and create entries, `FatDeleted` says what becomes of deleted ones and `FatOpen` how a write
  comes by its file. `FatBytes` says byte by byte what is stored in a slot and what a listing makes of any slots, and
  lemmas beside the other modules do the same for table entries, files and sectors. `FatPath` walks paths down and back
  up (with `kernel/utils.c`); `FatTree`, `FatRoutes` and `FatFormatted` show that created directories are the ones the
  path results speak of, one inside the other as deep as there are clusters, however many sectors a cluster has.
  `FatName` is the 8.3 name form.
- **Scheduler** (`kernel/thread.c`). `Schedule` is the state machine with its run-wide safety and bounded waiting;
  `KernelThreads` is the table of thread records.
- **Keyboard ring** (`drivers/in/ps2.c`). Every access to shared memory is a step of its own; the results hold for
  every interleaving of producer and consumer.
- **Text** (`user/shell.c`, `libc/string.c`). The variable table as a bounded map, bounded expansion against an
  unbounded one, the two tokenisers against each other, `memmove` and `trim`.

Integers are unbounded in Dafny; 64-bit wrap-around of `ALIGN16` and of `kcalloc`'s product, 32-bit tick counts, eight-
bit checksums and `max_len - 1` are written out. Sectors are sequences of 512 bytes. A sector in the set `bad` fails
every transfer. `hide` statements in proofs keep definitions out of the solver's way and change nothing that is stated.

Where the code and the documented intent differ, the code is modelled and the exact condition is proved:

- A directory entry's name is an array of plain `char`, signed on the target, so the tests of `fat32_list_dir` and
  `fat32_read_dir` for the byte 0xE5 never hold: deleted entries are listed, and deleted long-name slots give their
  characters to the live entry behind them. A reading is the one meant exactly if none of the slots it comes to is
  deleted (`ReadAsMeant`). A listing is the one meant if none of the entries it comes to is deleted or takes a deleted
  slot's characters (`Clean`), and for a complete listing without deleted long-name slots that is exact
  (`ListedAsMeant`; with them it cannot be, for a stale name may happen to be the right one). `StaleListed`,
  `StaleName` and `StaleNamed` are inputs where they differ.
- A long name is glued together from its last part to its first, so a name lists as stored exactly if every character
  equals the one that comes to stand in its place (`ListedExactly`), and all names of a length do exactly up to 13
  characters (`ListedFaithfully`); in storage order the parts do give the name back (`JoinUpRestores`).
- In a directory without deleted slots a new entry shows in the listing exactly when the sector of the end mark has
  room for all its slots and the listing for the entry; otherwise it lies behind the end mark. If it ends with that
  sector, no end mark is stored behind it and whatever lies in the next sector is listed too (`CreateThenList`), so the
  listing is the old one and exactly the new entry only if nothing there can be listed (`ShowsExactly`). In a directory
  that `fat32_create_dir` made on a volume with several sectors to a cluster, the seventh file with a short name
  brings "." and ".." to light a second time (`SeventhFile`). For directories with deleted slots `CreateInAny` says
  what the listing becomes.
- A file that `fat32_write_file_data` has just created it looks up again by name, and gives up if the listing does not
  show it under that name (`NewFileFound`); names of more than 195 characters are never placed, and the attempt leaves
  no cluster free (`CreateFile`).
- An end mark is stored behind a new entry even where it reuses deleted slots. The old entries are all kept exactly if
  the new one ends with its sector or nothing live lies behind it (`EntriesKept`).
- `fat_write_fat_entry` empties the cache only on success: it leaves a stale cache exactly in the case that
  `WriteFatEntry` describes by the sectors, the cache and the old word.
- Stopping or blocking the running thread lasts exactly as long as no other thread is ready (`StoppedCurrent`,
  `BlockedCurrent`).
- A sleeping thread is off the processor for its full time exactly when another thread was ready to take over and the
  32-bit deadline does not wrap (`SleepLength`; `SleepsRunning` and `SleepsShort` are runs where it is not).
- A variable with a name of more than 31 characters cannot be read back under that name (`SetThenGet`).
- `split` breaks words of more than 63 characters and stops at 64 pieces (`TokenisersAgree`, `SplitKeepsAll`).
- `fat_write_fat_entry` writes the four bits of an entry that the Microsoft FAT32 File System Specification, section
  "FAT Data Structure", reserves: they survive exactly if they were clear (`ReservedKept`, `ReservedLost`).
- Long names are padded with 0xFFFF but not terminated: the stored slots are those of its section "FAT Long Directory
  Entries" exactly if the length is a multiple of 13 (`Unterminated`).

## Model

| member | source | states |
|---|---|---|
| HeapBlocks.Align16Meaning | mem/heap.c:4 | below 2^64-15 a request is rounded up to the least multiple of 16 that holds it |
| HeapBlocks.Align16Wraps | mem/heap.c:4 | what the macro gives beyond that, where it wraps to 0 |
| HeapBlocks.MallocKeeps | mem/heap.c:24-48 | allocation keeps tiling, coalescing and alignment; the live blocks are the old ones and one new block that starts at the answer |
| HeapBlocks.ReleaseKeeps | mem/heap.c:49-66 | freeing keeps the invariant and takes exactly the freed block out of the live ones |
| HeapBlocks.FreeKeeps | mem/heap.c:49-66 | the same in terms of the pointer |
| HeapBlocks.LiveStays | mem/heap.c:49-66 | a live block stays findable at its pointer as long as it is among the live ones |
| HeapBlocks.Canonical | mem/heap.c:15-66 | two coalesced tilings of the same memory with the same live blocks are the same list |
| HeapBlocks.FreeUndoesMalloc | mem/heap.c:36-66 | kfree(kmalloc(n)) restores the exact block list |
| HeapBlocks.AllFreed | mem/heap.c:15-23 | with nothing live the heap is the single free block of heap_init |
| HeapBlocks.MallocComplete | mem/heap.c:36-48 | kmalloc is NULL exactly if no gap between live blocks has room for header and aligned size; else it takes the lowest such gap |
| HeapBlocks.MallocSplits | mem/heap.c:24-48 | how much of the free block is taken: the rounded request if more than another header is left over, which heads the rest, otherwise all |
| HeapBlocks.Conservation | mem/heap.c:87-104 | used + free + 32 per block = total |
| HeapBlocks.SumsGrow | mem/heap.c:87-104 | the two sums count live and free blocks |
| HeapBlocks.ReallocDoes | mem/heap.c:67-77 | a request the block holds changes nothing; a larger one is answered by kmalloc, and its block takes the place of the old one among the live ones |
| HeapBlocks.LiveIsolated | mem/heap.c:36-48 | no byte of a payload lies in another payload or in any header |
| KernelHeap.Relink | mem/heap.c:24-34 | replacing neighbours in the linked list keeps prev the inverse of next in every header |
| KernelHeap.SplitLinked | mem/heap.c:24-35 | the stores of split_block produce the split list and touch no live payload |
| KernelHeap.AbsorbLinked | mem/heap.c:54-64 | the stores of one merge produce the merged list and touch no live payload |
| KernelHeap.Heap.HeapInit | mem/heap.c:15-23 | one free block of everything but its header |
| KernelHeap.Heap.SplitBlock | mem/heap.c:24-35 | the list afterwards, live payloads unchanged |
| KernelHeap.Heap.Kmalloc | mem/heap.c:36-48 | block list and answer are Malloc's, live payloads unchanged, on NULL nothing changed |
| KernelHeap.Heap.Kfree | mem/heap.c:49-66 | block list is Free's, all other live payloads unchanged |
| KernelHeap.Heap.Krealloc | mem/heap.c:67-77 | a request the block holds returns the pointer and changes nothing; otherwise old contents are a prefix of the new block; on NULL nothing changed; other allocations unchanged |
| KernelHeap.Heap.Kcalloc | mem/heap.c:78-85 | all zeros over the product modulo 2^64, so over the product when it does not overflow |
| KernelHeap.ProductWraps | mem/heap.c:79 | the product differs from the exact one by a multiple of 2^64 |
| KernelHeap.Heap.HeapUsed | mem/heap.c:87-95 | the sum of the sizes of the live blocks |
| KernelHeap.Heap.HeapFree | mem/heap.c:96-104 | the sum of the sizes of the free blocks |
| HeapRuns.Serve | mem/heap.c:36-85 | every call of the class is a step of the run model |
| HeapRuns.RunKeeps | mem/heap.c:15-104 | invariant, alignment and conservation in every state of every run |
| HeapRuns.RunIsolates | mem/heap.c:36-85 | an allocation no request names keeps place, size and bytes through any run |
| HeapRuns.RunsConverge | mem/heap.c:36-77 | any two runs that leave the same allocations live leave the same list |
| HeapRuns.FreeAllRestores | mem/heap.c:49-66 | freeing every live pointer once, in any order, leaves the single free block |
| FatLayout.PutGetU32 | drivers/fs/fat32.c:205 | a stored word reads back and disturbs no other aligned word |
| FatLayout.ClustersDisjoint | drivers/fs/fat32.c:191-193 | different clusters occupy different sectors |
| FatLayout.ClusterLbaBounds | drivers/fs/fat32.c:191-193 | clusters lie in the data area, behind all table copies |
| FatLayout.FatLbaInjective | drivers/fs/fat32.c:196-198 | entries of different clusters or copies do not overlap |
| FatLayout.EntryStored | drivers/fs/fat32.c:530-542 | one store changes one entry of one copy |
| FatLayout.WordBytes | drivers/fs/fat32.c:195-207 | the entry of cluster c in copy t is the little-endian number of the four bytes from 512 * (fat_start + t * sectors_per_fat) + 4c on, modulo 2^28 |
| FatTable.ChainsMerge | drivers/fs/fat32.c:374-378 | chains that meet are the same from there on |
| FatTable.ChainDistinct | drivers/fs/fat32.c:374-378 | a chain never returns to a cluster, so every walk ends |
| FatTable.ChainFollows | drivers/fs/fat32.c:374-378 | each entry of a chain names the next cluster, up to one of 0x0FFFFFF8 or more |
| FatTable.NewChain | drivers/fs/fat32.c:359-365 | ending a free cluster adds a one-cluster chain to the forest |
| FatTable.GrowChain | drivers/fs/fat32.c:379-385 | linking a free cluster behind a chain keeps the forest and lengthens only that chain |
| FatTable.ProbeVisits | drivers/fs/fat32.c:518-520 | the cyclic search visits each cluster exactly once |
| FatTable.ProbeNext | drivers/fs/fat32.c:518-520 | the search begins at the hint and goes up by one, round to cluster 2 behind the last |
| FatVolume.MirroredTables | drivers/fs/fat32.c:530-542 | after k rounds the first k copies have the entry and nothing else changed |
| FatVolume.MirroredWords | drivers/fs/fat32.c:530-542 | the same for the whole 32-bit words of every copy |
| FatVolume.MirroredBytes | drivers/fs/fat32.c:530-542 | the same for every byte of the disk |
| FatVolume.ReservedKept | drivers/fs/fat32.c:537 | the reserved bits of a copy's word survive a store if and only if they were clear |
| FatVolume.ReservedLost | drivers/fs/fat32.c:537 | a word with all four set, and that the store clears them |
| FatVolume.FatVolume.WriteSector | drivers/fs/fat32.c:401-409 | writing a data sector can make neither the cache nor any table copy stale |
| FatVolume.FatVolume.GetNextCluster | drivers/fs/fat32.c:195-207 | the cached lookup equals the lookup on disk: the little-endian number of the four bytes from 512 * fat_start + 4 * cluster on, modulo 2^28, or 0x0FFFFFFF where that sector fails |
| FatVolume.FatVolume.WriteFatEntry | drivers/fs/fat32.c:530-542 | which copies were written, their four bytes, and that no other byte of the disk changed; success if and only if every copy's sector transfers, and by the state before the call exactly when the cache is left stale |
| FatVolume.FatVolume.PutEntry | drivers/fs/fat32.c:530-542 | in every copy the word is value mod 2^28 and all other words are as before; the four bytes of the entry in every copy hold it, and no other byte of the disk changes; identical copies stay identical |
| FatVolume.FatVolume.FindFreeCluster | drivers/fs/fat32.c:516-528 | the first free cluster in cyclic order from the hint, 0 exactly if there is none, and the new hint |
| FatFile.FileLbaInjective | drivers/fs/fat32.c:394-398 | different sectors of a file are different sectors of the disk |
| FatFile.ByteOnDisk | drivers/fs/fat32.c:191-193 | byte i of a file is the byte of the disk that clusters from the start of the data area on, numbered from 2, give |
| FatFile.ClustersForLeast | drivers/fs/fat32.c:368-371 | the number of clusters needed is the least that holds the bytes |
| FatFile.SpliceStep | drivers/fs/fat32.c:399-411 | patching one sector extends the splice by one piece |
| FatFile.WritePiece | drivers/fs/fat32.c:399-411 | the whole-sector and the read-modify-write branch patch the same bytes |
| FatFile.Advance | drivers/fs/fat32.c:412-414 | after each piece the walk is at the cluster of the current offset |
| FatFile.WriteChain | drivers/fs/fat32.c:388-415 | bytes [offset, offset + done) are the buffer's, all others of the chain and all other sectors unchanged; it stops early only at a failing sector |
| FatFile.EnsureLength | drivers/fs/fat32.c:373-385 | the chain grows by free clusters to the length needed, the forest is kept; failure means no free cluster |
| FatFile.AllocateFirst | drivers/fs/fat32.c:359-365 | an empty file gets a chain of one formerly free cluster |
| FatFile.WriteFileData | drivers/fs/fat32.c:357-416 | file write is a splice of the chain, the forest is kept, nothing else in the data area changes, the chain grows to exactly the clusters needed; -1 exactly if the buffer is empty or not all was written, and why |
| FatFile.OtherFilesKept | drivers/fs/fat32.c:388-415 | a write changes no byte of any other file |
| FatFile.FilesApart | drivers/fs/fat32.c:191-193 | files of a forest share no sector |
| FatFile.ReadFile | drivers/fs/fat32.c:308-330 | min(size, chain bytes) bytes, equal to the chain's in every sector that transfers, and nothing behind size is written |
| FatFile.ReadsBack | drivers/fs/fat32.c:308-415 | reading after a write gives, wherever sectors transfer, the written bytes in the range and the old ones outside |
| FatDirectory.ScanConcat | drivers/fs/fat32.c:222-272 | listing sector by sector is listing the concatenation |
| FatDirOps.SlotBytes | drivers/fs/fat32.c:222-227 | the slots of a directory are its bytes, 32 to a slot |
| FatBytes.ListLists | drivers/fs/fat32.c:222-272 | every listing, of any slots, shows the first max slots in front of the end mark that are no part of a long name and no label, described by bytes 11, 20-21 with 26-27, and 28-31, under the parts in front of them one behind the other or the short name |
| FatBytes.ReadReads | drivers/fs/fat32.c:287-303 | every reading, of any slots, gives the first max slots in front of the end mark that are no part of a long name |
| FatDeleted.ListedAsMeant | drivers/fs/fat32.c:243-267 | the listing of any length is the one meant if no entry it comes to is deleted or takes the characters of a deleted long-name slot; a complete one only if no entry is deleted, and without deleted long-name slots if and only if |
| FatDeleted.ReadAsMeant | drivers/fs/fat32.c:293 | a reading of any length is the one meant if and only if none of the slots it comes to is deleted |
| FatDeleted.StaleListed | drivers/fs/fat32.c:243-267 | a deleted entry in front of a live one is listed and read, where one entry was meant |
| FatDeleted.StaleName | drivers/fs/fat32.c:231-259 | a live entry behind a deleted long-name slot is listed under the characters of that slot, where its own name was meant |
| FatDirectory.PartReadsBack | drivers/fs/fat32.c:45-71 | a long-name slot decodes to the part that was encoded, with its number and mark |
| FatDirectory.JoinUpRestores | drivers/fs/fat32.c:578-593 | joined in storage order the parts are the name |
| FatDirectory.ShortNamesListed | drivers/fs/fat32.c:250-259 | up to 13 characters the listed name is the stored one |
| FatDirectory.LongNamesScrambled | drivers/fs/fat32.c:253-259 | for every greater length a name that comes back changed |
| FatDirectory.ListedFaithfully | drivers/fs/fat32.c:250-259 | all names of n characters list as stored if and only if n <= 13 |
| FatDirectory.ListedAt | drivers/fs/fat32.c:250-259 | which character of the stored name comes to stand at each place of the listed one |
| FatDirectory.ListedExactly | drivers/fs/fat32.c:250-259 | a name lists as stored if and only if it is not cut and equals, character by character, what comes to stand there |
| FatDirectory.EqualCharactersListed | drivers/fs/fat32.c:250-259 | a name of equal characters lists as stored at every length up to 255 |
| FatDirectory.Unterminated | drivers/fs/fat32.c:586-592 | the stored slots are the specification's if and only if the length is a multiple of 13, and what stands in the terminator's place |
| FatDirectory.ChecksumDetects | drivers/fs/fat32.c:85-91 | a change of any one character changes the checksum |
| FatBytes.ChecksumBits | drivers/fs/fat32.c:85-91 | bit by bit: for each character the bits move one place down, the lowest becomes the highest, and the character is added modulo 256 |
| FatBytes.ShortFormBytes | drivers/fs/fat32.c:544-554 | each of the eleven characters of the short form |
| FatBytes.EntryBytes | drivers/fs/fat32.c:567-598 | every byte of every slot of a new entry: parts from the last to the first, their numbers, characters, fillers and checksum, and the short slot |
| FatDirectory.ScanEntries | drivers/fs/fat32.c:227-269 | scanning the slots of a new entry adds exactly that entry |
| FatDirectory.ListCount | drivers/fs/fat32.c:222-272 | how many entries a listing shows |
| FatDirectory.ScanFresh | drivers/fs/fat32.c:222-272 | a scan with no part of a name collected goes on as a listing of its own with the room that is left |
| FatDirOps.LfnCopyPart | drivers/fs/fat32.c:45-71 | the characters at the thirteen places of the slot up to the first 0x00 or 0xFF |
| FatDirOps.ShortnameToString | drivers/fs/fat32.c:94-112 | name and extension, each up to its first space |
| FatDirOps.JoinParts | drivers/fs/fat32.c:252-259 | the parts from last to first, cut at the longest name |
| FatDirOps.ListDir | drivers/fs/fat32.c:212-275 | the first max slots that are to be shown, in order, each with the size, cluster and attributes that its bytes hold, and its long or its short name; -2 exactly if a sector fails before the listing ends |
| FatDirOps.ReadDir | drivers/fs/fat32.c:280-305 | the first max short slots in front of the end mark as they are, or -2 exactly if a sector fails before the reading ends |
| FatPlace.PlaceInSector | drivers/fs/fat32.c:607-630 | the first fit in a sector and the sector with the entries and the end mark |
| FatPlace.FitBytes | drivers/fs/fat32.c:607-618 | where slots fit, by the first bytes of the slots there |
| FatPlace.PutBytes | drivers/fs/fat32.c:610-627 | every byte of the sector afterwards |
| FatPlace.ExtendDir | drivers/fs/fat32.c:634-641 | the directory gets one zeroed cluster, which was free, and no other cluster is taken; forest kept |
| FatPlace.PlaceEntries | drivers/fs/fat32.c:600-644 | entries go to the first sector with a fit, the directory growing only if there is none, by formerly free clusters; no other cluster is taken; it ends, and fails only if nothing fits and no cluster is free, or a sector fails |
| FatReuse.EntriesKept | drivers/fs/fat32.c:607-630 | all live entries are kept if and only if the new ones end with their sector or nothing live lies behind them |
| FatReuse.InsertThenList | drivers/fs/fat32.c:222-269 | the listing after slots went in anywhere in a directory of any content |
| FatReuse.CreateInAny | drivers/fs/fat32.c:212-644 | both for the directory on disk after a creation, deleted slots and all |
| FatCreate.MakeSfn | drivers/fs/fat32.c:544-554 | the short form of the name |
| FatCreate.ShortnameChecksum | drivers/fs/fat32.c:85-91 | rotate and add over the eleven bytes |
| FatCreate.BuildEntries | drivers/fs/fat32.c:567-598 | the slots of the new entry |
| FatCreate.RoomDecides | drivers/fs/fat32.c:600-644 | where all sectors transfer, entries are placed if and only if they are at most 16 slots and a sector had a fit or a cluster was free; otherwise no cluster is left free |
| FatCreate.CreateFile | drivers/fs/fat32.c:567-644 | entry placed, forest kept, exactly the clusters by which the directory grew are taken; where all sectors transfer, success if and only if there was room before the call, never for more than 195 characters, and after a failure no cluster is free |
| FatCreate.CreateThenList | drivers/fs/fat32.c:212-644 | the listing after creation in a directory without deleted slots, in closed form: unchanged if the sector of the end mark had no room, else the old one, the new entry, and what lies behind the new slots if they end with their sector |
| FatCreate.ShowsExactly | drivers/fs/fat32.c:212-644 | it is the old one and exactly the new entry if and only if the entry fits in the sector of the end mark, the listing has room, and it is then full or nothing that is listed comes to light |
| FatCreate.SecondDots | drivers/fs/fat32.c:687-696 | a new directory of several sectors begins with "." and "..", and so does its second sector |
| FatCreate.FileAdds | drivers/fs/fat32.c:600-644 | a file with a name of up to 13 characters goes right behind the used slots of the first sector while that has room |
| FatCreate.SixFiles | drivers/fs/fat32.c:567-696 | six files with names of up to 13 characters are listed in order behind the dots of a new directory of several sectors |
| FatCreate.SeventhFile | drivers/fs/fat32.c:567-696 | the seventh is listed too, and behind it the dots a second time |
| FatCreate.CreateDir | drivers/fs/fat32.c:646-721 | entry placed, new cluster filled, forest grows by one chain of one free cluster, no further cluster is taken but for the parent's growth; where all sectors transfer, success if and only if a cluster was free and there was room beside it; why it fails, and that the cluster then stays allocated |
| FatCreate.DotSectorBytes | drivers/fs/fat32.c:687-696 | every byte of the sectors of a new directory |
| FatCreate.NewDirLists | drivers/fs/fat32.c:687-696 | a new directory lists "." and ".." with its own and its parent's cluster |
| FatCreate.CreateDirThenList | drivers/fs/fat32.c:646-721 | the parent's listing after creation in the same closed form, and the new directory's |
| FatOpen.OpenFile | drivers/fs/fat32.c:338-355 | the first file of that name up to case; if there is none, the entry is created for offset 0 only, and what the second lookup finds; otherwise nothing changes |
| FatOpen.FindsFirst | drivers/fs/fat32.c:342-344 | the search takes the first entry of that name that is no directory |
| FatOpen.NewFileFound | drivers/fs/fat32.c:346-355 | the second lookup finds the new file if and only if its entry is listed and under that name, as every name of up to 13 characters is, or else what file of that name came to light |
| FatPath.StrcasecmpAscii | drivers/fs/fat32.c:74-82 | 0 exactly for names equal up to case |
| FatPath.SpelledAlike | drivers/fs/fat32.c:39-82 | which names are equal up to case, character by character |
| FatPath.ResolveMeans | drivers/fs/fat32.c:456-506 | what each kind of path leads to |
| FatPath.LeadsOnce | drivers/fs/fat32.c:456-506 | those cases leave no choice |
| FatPath.DriveDropped | drivers/fs/fat32.c:460-468 | behind a drive every name leads where it leads without one |
| FatPath.ResolvePath | drivers/fs/fat32.c:456-506 | the cluster a path leads to, case by case: a drive alone or a slash the root, nothing or a dot the current directory, two dots the parent, a name the first listed directory spelt like it; -1 exactly if there is none or the listing fails |
| FatPath.ChangeDir | drivers/fs/fat32.c:508-513 | from every directory "/", "\\" and a drive alone lead to the root, "" and "." stay, a name that no listed directory has gives -1 and changes nothing; in general the current directory is what the path leads to if that is a cluster |
| FatPath.BuildPath | kernel/utils.c:27-76 | the names of the directories on the way up, own name first, at most max_depth: each parent from the first slot with two dots, each name from the parent's first directory slot with the cluster; directories that cannot be read count as empty |
| FatPath.PathUpIs | kernel/utils.c:32-74 | the way up is that of the slots read on it |
| FatPath.StaleNamed | kernel/utils.c:51-64 | a deleted entry of the same cluster in front of the live one gives the directory its name |
| FatPath.Descend | drivers/fs/fat32.c:494-504 | changing into a subdirectory by its name leads to it |
| FatPath.Ascend | drivers/fs/fat32.c:483-492 | ".." undoes the last descent |
| FatPath.UpOne | kernel/utils.c:36-64 | one step up finds the parent, and in it the directory's name |
| FatPath.RouteLeads | drivers/fs/fat32.c:508-513 | the names one after the other lead down the whole route |
| FatPath.RouteClimbs | kernel/utils.c:32-74 | climbing from any directory of a route gives the names in reverse, as many as asked for |
| FatPath.PathInvertsDescent | kernel/utils.c:27-76 | descent, build_path and ".." together: the path walk inverts the descent |
| FatTree.CreateThenRead | drivers/fs/fat32.c:280-644 | what read_dir shows after creation in a directory without deleted slots, in closed form |
| FatTree.ReadsExactly | drivers/fs/fat32.c:280-644 | it is the old reading and exactly the new short slot if and only if the entry fits in the sector of the end mark, there is room for it, and then for no more or nothing that is read comes to light |
| FatTree.NewDirReads | drivers/fs/fat32.c:687-696 | what read_dir shows of a new directory |
| FatTree.CreatedChild | drivers/fs/fat32.c:646-721 | a directory just created is a child in the sense of the path results, whatever lies behind the parent's end mark unless it has the same name or cluster and comes to light |
| FatRoutes.ListFewer | drivers/fs/fat32.c:245 | a listing of fewer entries is the beginning of a longer one |
| FatRoutes.RouteDistinct | drivers/fs/fat32.c:483-492 | no directory comes twice on a route |
| FatRoutes.RouteGrows | drivers/fs/fat32.c:646-721 | creation in the last directory of a route keeps every earlier parent and child and adds the new directory to the route |
| FatRoutes.NewDirRoom | drivers/fs/fat32.c:687-696 | a directory just created, of any number of sectors, has room for a directory of any plain name |
| FatRoutes.MakeDirectory | drivers/fs/fat32.c:646-721 | the same for the call, and that the new directory has room for the next; it succeeds if and only if a cluster is free and there is room beside it, where the parent has a fit if and only if a cluster is free, of which it then takes exactly one; after a failure none is free |
| FatFormatted.MakeRoute | drivers/fs/fat32.c:508-721 | on a formatted volume mkdir and cd in turns make one directory for each name as long as there are clusters, exactly min(names, clusters - 1), and root to innermost they are a route of the path results |
| FatName.FatNameFromString | kernel/utils.c:96-113 | the same short form as make_sfn gives, blanks for a null pointer |
| FatName.ShortNamesSurvive | kernel/utils.c:96-113 | a slot with the short form of a name is listed under the name in capitals if and only if it has the form 8.3 |
| Schedule.RescheduleValid | kernel/thread.c:97-126 | a scheduling call keeps the invariant |
| Schedule.AfterValid | kernel/thread.c:39-135 | so does every event |
| Schedule.RunSafe | kernel/thread.c:19-135 | over every run: thread ids are table indices, at most one thread runs, and only the current one |
| Schedule.PassedBy | kernel/thread.c:97-126 | a scheduling call neither chooses nor changes a terminated, blocked or still sleeping thread |
| Schedule.NotChosen | kernel/thread.c:67-135 | over every run such a thread is not made current unless blocked and then unblocked, a sleeper not before its deadline |
| Schedule.HaltDoes | kernel/thread.c:67-74 | thread_stop terminates the named thread, current or not, and changes nothing else |
| Schedule.HoldDoes | kernel/thread.c:76-83 | thread_block blocks it |
| Schedule.ReleaseDoes | kernel/thread.c:128-135 | thread_unblock makes it ready if it is blocked and otherwise does nothing |
| Schedule.SpawnDoes | kernel/thread.c:39-57 | thread_create appends a ready thread with the next id, below 32 |
| Schedule.PreemptDoes | kernel/thread.c:97-126 | a scheduling call wakes the sleepers that are due and runs the first ready thread behind the current one, which is ready afterwards unless it sleeps; the state of every thread is given |
| Schedule.NapDoes | kernel/thread.c:85-95 | thread_sleep(0) changes nothing; otherwise the deadline and the scheduling call |
| Schedule.StoppedStaysOff | kernel/thread.c:67-126 | a thread stopped by another is never current again in any run that does not block and unblock it |
| Schedule.BlockedStaysOff | kernel/thread.c:76-126 | a thread blocked by another is not current in any run that does not unblock it |
| Schedule.UnblockedWaits | kernel/thread.c:97-135 | an unblocked thread becomes current within the bound on waiting |
| Schedule.StoppedCurrent | kernel/thread.c:116-118 | a stopped current thread is ready again after the next call if and only if another thread was ready |
| Schedule.BlockedCurrent | kernel/thread.c:116-118 | likewise a blocked current thread |
| Schedule.SleepLength | kernel/thread.c:85-126 | over every run after thread_sleep the caller is not current before its time, short of blocking and unblocking it, if and only if another thread was ready and the deadline does not wrap |
| Schedule.SleepsRunning | kernel/thread.c:85-126 | the only thread sleeps on the processor |
| Schedule.SleepsShort | kernel/thread.c:85-126 | a sleep across the wrap of the tick counter ends within the same tick |
| Schedule.Closer | kernel/thread.c:107-124 | each call strictly shortens the cyclic distance to an eligible thread |
| Schedule.DistanceIsMod | kernel/thread.c:107-109 | that distance is (k - current) mod n |
| Schedule.BoundedWaiting | kernel/thread.c:97-126 | a waiting thread becomes current within its distance, plus one call per thread created; only a sleeper needs the tick counter not to wrap, and only up to the next call |
| KernelThreads.Scheduler.ThreadCreate | kernel/thread.c:39-57 | one more ready record behind the others, or nothing when table or heap are full |
| KernelThreads.Scheduler.ThreadStop | kernel/thread.c:67-74 | exactly the thread with that id is terminated |
| KernelThreads.Scheduler.ThreadBlock | kernel/thread.c:76-83 | exactly the thread with that id is blocked |
| KernelThreads.Scheduler.ThreadUnblock | kernel/thread.c:128-135 | exactly the thread with that id, if blocked, is ready |
| KernelThreads.Scheduler.ThreadSchedule | kernel/thread.c:97-126 | the table afterwards is Reschedule's |
| KernelThreads.Scheduler.ThreadSleep | kernel/thread.c:85-95 | the table afterwards is Sleep's, deadline modulo 2^32 |
| KernelThreads.Serve | kernel/thread.c:39-135 | every event carried out on the records takes the table where the run model says |
| KeyboardRing.NextKeeps | drivers/in/ps2.c:40-57 | every micro-step keeps the invariant and is a step of a first-in first-out queue |
| KeyboardRing.FirstInFirstOut | drivers/in/ps2.c:40-57 | under every interleaving the characters taken are a prefix of those accepted, in order, and at most 127 are unread |
| KeyboardRing.DroppedOnlyWhenFull | drivers/in/ps2.c:42-46 | a character is dropped if and only if the ring was full when the producer read the tail |
| KeyboardRing.EmptyOnlyWhenEmpty | drivers/in/ps2.c:51-53 | pop returns 0 if and only if the ring was empty when the consumer read the head |
| KeyboardRing.PushAlone | drivers/in/ps2.c:40-47 | the steps of an undisturbed push are the procedure: append unless 127 are unread |
| KeyboardRing.PopAlone | drivers/in/ps2.c:49-57 | the steps of an undisturbed pop are the procedure: take the oldest |
| KeyboardRing.Buffer.KeyboardBufferPush | drivers/in/ps2.c:40-47 | the buffer in place does what the steps do |
| KeyboardRing.Buffer.KeyboardBufferPop | drivers/in/ps2.c:49-57 | likewise |
| CStrings.Strncpy | libc/string.c:87-92 | at most n characters and a terminator behind them, nothing else written |
| CStrings.Strcmp | libc/string.c:36-43 | equality of strings |
| CStrings.Memmove | libc/string.c:132-143 | the region arrives as it was, whichever way the regions overlap |
| CStrings.Trim | libc/string.c:116-122 | the string without the spaces at both ends |
| CStrings.TrimmedIs | libc/string.c:116-122 | whatever stands between blanks and neither begins nor ends with one is what is left |
| Bindings.GetAfterSet | user/shell.c:43-71 | what every later lookup sees after a setting, for names of any length |
| Bindings.SetThenGet | user/shell.c:43-71 | a variable just set has its cut value if and only if it was known, or there was room and its name has at most 31 characters |
| Bindings.SetRefines | user/shell.c:43-61 | for such names setting is setting in a map of at most sixteen names |
| Bindings.RunRefines | user/shell.c:43-71 | over every run of settings the table is that map |
| Expansion.ExpandLine | user/shell.c:74-130 | a line of plain text, $NAME, ${NAME}, open ${ and lone $ is expanded piece by piece, as meant |
| Expansion.Reading | user/shell.c:74-130 | every line is such a line |
| Expansion.ExpandOpen | user/shell.c:81-100 | a brace not closed within 31 characters swallows the opening and those characters |
| Expansion.NameCharacters | user/shell.c:102-117 | the characters of a variable's name |
| Shell.Environment.SetEnvVar | user/shell.c:43-61 | the table afterwards is SetVar's |
| Shell.Environment.GetEnvVar | user/shell.c:64-71 | the first binding's value, null exactly if there is none |
| Shell.ExpandVariables | user/shell.c:74-130 | exactly the first max_len - 1 characters of the unbounded expansion, a terminator, and nothing behind it |
| Shell.LimitIs | user/shell.c:79 | max_len - 1 in 64 bits |
| Words.TokensOfJoin | libc/string.c:169-205 | if a line is made of gaps and maximal delimiter-free runs, its tokens are those runs |
| Words.JoinOfTokens | libc/string.c:169-205 | every line is made of gaps and its tokens |
| Words.NextToken | libc/string.c:169-205 | one strtok call hands out the first token of what is left and leaves the others |
| Words.CallsGiveTokens | libc/string.c:169-205 | repeated calls give the tokens in order and then NULL for ever, and every pointer still stands before its token |
| Words.TokenisersAgree | libc/string.c:145-205 | split gives the tokens if and only if there are at most 64 words of at most 63 characters |
| Words.StrtokIsSplit | libc/string.c:145-205 | on such lines repeated strtok and split give the same words |
| Words.SplitKeepsAll | libc/string.c:145-167 | the pieces of split, put together, are the line without delimiters if and only if there are at most 64 |
| Words.PiecesAre | libc/string.c:156-160 | a word is broken into pieces of 63 characters and a last one that is no longer |
| Tokenisers.Strchr | libc/string.c:124-130 | the first occurrence, the terminator for NUL, NULL if there is none |
| Tokenisers.Tokeniser.Strtok | libc/string.c:169-205 | buffer, static pointer and result are Next's |
| Tokenisers.Splitter.Split | libc/string.c:145-167 | the rows of the table are the first 64 pieces |

## Left out

- FatFile.WriteFileData: starts at the allocation of the first cluster; the lookup of the name and the creation of a missing file before it (lines 338-354) are `FatOpen.OpenFile`; not modelled is the update of the directory entry's size (lines 418-440), a loop that restarts for ever after a match. Requires offset + size + one cluster of at most 2^32, where the 32-bit sums do not wrap.
- FatCreate.CreateThenList: for directories without deleted slots and names of 1 to 195 printable characters; `FatReuse.CreateInAny` has the other directories.
- FatRoutes.RouteGrows: the parent has no deleted slots, and what its new entry brings to light names no other parent and has neither the new name nor the new cluster; new directories meet this (`FatRoutes.NewDirRoom`).
- FatPath.BuildPath: a ".." whose cluster starts no chain, as on a damaged volume, where the walk would read sectors by a free table entry.
- FatPath.PathInvertsDescent: for names of up to eight capitals, digits and underscores that the two listings of at most 64 entries and 32 slots show; the byte behind the terminator that the prefix test of an empty path reads is not modelled.
- HeapRuns.RunKeeps: requests are below 2^64, for krealloc and kcalloc at most 2^64-16, where ALIGN16 does not wrap, and free and realloc name live pointers, as the allocator demands.
- FatFile.ReadFile: the result does not depend on failing sectors, as in the source; the bytes of a failing sector, which repeat the buffer's last contents, are not stated.
- KernelHeap.Heap.Krealloc: sizes above 2^64-16, for which the aligned size wraps to 0 and the copy runs past the new block.
- KernelHeap.Heap.Kcalloc: products that leave a remainder above 2^64-16, for which the zeroing does the same.
- CStrings.Strcmp: equality only; no caller uses the sign.
- Chain operations above `fat_write_fat_entry` assume that the sectors of the FAT transfer (data sectors may fail), and that kmalloc inside the file system succeeds.
- `fat32_mount` and `fat32_create_fs`: geometry is a precondition. The partition offset in `fat32_cluster_to_lba` and in table reads is the static that mounting never sets, so it is 0 in the model; one drive is modelled, because the cache is not keyed by drive.
- `fat32_write_file` and `fat32_read_file_data`: stubs that return -1.
- Heap headers occupy one cell per field at the field's address, instead of its bytes in machine order.
- `context_switch`, stacks, trampolines, thread names, and preemption inside a scheduler call: calls are atomic events, and resuming the chosen thread is part of the call.
- Keyboard scancode decoding and waiting readers: only the ring between them.
- `memcmp`, `atoi`, `itoa`, `strstr`: easy members, or not what callers rely on.
- The rest of the shell (dispatch, scripts, conditionals), console, GUI, PCI, USB, ATA, paging, descriptor tables and assembly: device and register code.
