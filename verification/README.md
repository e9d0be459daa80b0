# Verified model of the pasinux kernel: storage, loading, scheduling and network core

This project models five components of the `Kernel/` tree in Dafny and proves properties of them:

* **FAT12** (`Fat*.dfy`, `MkImage.dfy`, `ImageLayout.dfy`): the packed allocation table, the chain allocator with
  rollback, the chain walker, the root directory, the in-memory copies against both FATs and the
  root on disk, and the image builder. The volume is a value (`FatVolume`), the block device a
  function that decides each transfer, and the driver (`FatDriver`) is a class over byte arrays
  whose methods are proved equal to the operations on the value. `FatFiles` shows that all this
  amounts to a store of files by name, `FatFormat` and `FatRecords` what stands on the disk byte by
  byte, `ImageLayout` where a built image has what.
* **Program loading and paging** (`PageTables.dfy`, `Elf.dfy`, `Loader.dfy`, `ElfFormat.dfy`, `UserAccess.dfy`):
  physical memory is one byte sequence, translation is the processor's two-level walk over it, and
  the loader is a class that allocates, maps and copies. The main statement is what a program
  reads at each virtual address, for every file laid out as the ELF specification says.
* **Hosted scheduler** (`Scheduling*.dfy`, `Scheduler.dfy`): a circular doubly linked ready queue
  and a singly linked sleep list in place, refining a scheduler on values about which placement,
  accounting, fairness and the life of each process are proved over all runs.
* **Network** (`Checksum.dfy`, `IpPackets.dfy`, `TcpSegments.dfy`, `NetFormat.dfy`, `TcpStates.dfy`,
  `TcpSessions.dfy`, `Tcp.dfy`, `ArpCache.dfy`): ones' complement checksums, building and accepting
  packets, sequence numbers under retransmission, the receive buffer, whole sessions, and the ARP
  cache as a least-recently-used list.
* **Preemptive switcher** (`Preemption.dfy`): interrupt steps, and which saved context each
  switch resumes.

`EndToEnd.dfy` joins image, volume and loader. `Bytes.dfy` and `Common.dfy` hold the machine integers and the few definitions shared by all.

The environment enters as parameters: the outcome of every sector transfer, every answer of the
heap, what an entry point does in its slice, which packets arrive at which poll, the stack pointer
at an interrupt. Machine integers wrap where the C does (12, 16, 32 and 64 bits).

Statements that are false of the code are kept as results, each with a concrete failing input and
the exact condition:

* A write under a new name reads the cluster field a deleted slot still holds.
  `FatStale.StaleSlotIsReached` is a run from an empty volume that breaks on it;
  `FatTheorems.StepKeepsInvariantIff` and `FatTheorems.RunStaysSoundIff` say exactly which
  operations and runs do.
* The image builder accepts a last program that does not fit: `MkImage.OverflowExample`.
  `MkImage.ProgramReadsBackIff` says exactly which programs read back.
* The two checksum forms differ on some array of every length over 65537
  (`Checksum.OneWordTooMany`). `Checksum.LengthAgreesIff` gives the lengths on which they always
  agree, `Checksum.FormsAgreeIff` the arrays.
* Success of a send does not mean that the peer acknowledged anything, because one field counts in
  both directions and numbers are compared without regard to their wrap:
  `TcpStates.SucceedsUnheard` without any packet, `TcpStates.ByteRaises` with a data byte,
  `TcpStates.DuplicateEndsWait` with a duplicate acknowledgement. `TcpStates.TrustedIff` says
  exactly when it does, over all arrivals.
* For the same reason a peer that does everything in order is not always heard out:
  `TcpSessions.SessionIff` says exactly when, and a final segment with data never ends a connection
  (`TcpSessions.FinEndsIff`).
* A sleep may end early, because the wake-up tick wraps: `SchedulingFairness.OverlongSleep`, with
  `SchedulingFairness.SleepTakesItsTime` as the condition.
* Bytes copied out to user memory need not all read back where pages share a frame, which
  `paging_map_page` allows: `UserAccess.SharedFrameLoses`, with `UserAccess.ReadBackIff` as the
  condition. Spaces built by the loader share none (`Loader.CompleteOwnsFrames`).
* The ARP cache stops being least recently used when its age counter wraps:
  `ArpCache.WrapEvictsNewest`, with `ArpCache.StepRefinesIff` as the condition.

The comment on the age update in `arp_cache_lookup` promises least-recently-used behaviour without
that limit, and a comment in `tcp_send` speaks of successful acknowledgement; the model follows the
code in both cases.

## Model

| member | source | states |
|---|---|---|
| FatTable.StoreThenLoad | Kernel/fs/fat12.c:81-109 | Storing a 12-bit entry changes that entry and no other, although neighbours share a byte |
| FatTable.StoreKeepsSlack | Kernel/fs/fat12.c:98-109 | Storing an entry keeps the unused bits at the end of the table |
| FatTable.EntriesDetermineBytes | Kernel/fs/fat12.c:81-109 | Two tables with the same entries and the same unused bits are the same bytes, so statements about entries are statements about bytes |
| FatTable.StoreUnpacked | Kernel/fs/fat12.c:98-109 | On the unpacked table a store is an update of one place |
| FatTable.TableBytesRoundTrip | Kernel/fs/fat12.c:81-109 | Entries and unused bits packed into bytes are read back unchanged |
| FatTable.UnpackRoundTrip | Kernel/fs/fat12.c:81-109 | Every byte sequence is the packing of its own entries and unused bits |
| FatChains.PicksAscendFree | Kernel/fs/fat12.c:158-175 | The clusters the allocator takes are free, in range and strictly ascending |
| FatChains.PicksCount | Kernel/fs/fat12.c:158-175 | It takes as many as asked for, or all there are |
| FatChains.PicksAreLowest | Kernel/fs/fat12.c:142-175 | A free cluster is taken exactly when fewer than the wanted number of free ones lie below it |
| FatChains.AllocatedChain | Kernel/fs/fat12.c:158-175 | A successful allocation is one whole chain of previously free clusters and leaves every other entry as it was |
| FatChains.AllocatesIff | Kernel/fs/fat12.c:158-175 | Allocation succeeds if and only if enough clusters are free; otherwise the table is unchanged |
| FatChains.RollbackRestores | Kernel/fs/fat12.c:164-168 | Freeing a partly built chain restores the table exactly |
| FatChains.NonZeroDrops | Kernel/fs/fat12.c:179-186 | Each round of freeing lowers the number of non-zero entries: the reason freeing ends on every table, cyclic ones included |
| FatChains.FreedClearsReachable | Kernel/fs/fat12.c:179-186 | Freeing zeroes exactly the clusters reachable from the start; every other entry keeps its value, on every table whose links stay inside it |
| FatChains.FreedChain | Kernel/fs/fat12.c:179-186 | Freeing a whole chain zeroes its clusters and nothing else |
| FatChains.ChainsAgree | Kernel/fs/fat12.c:179-186 | A chain is determined by its first cluster |
| FatDirectory.FormatIsFolded | Kernel/fs/fat12.c:35-49 | A formatted name is upper case and cannot start with the end-of-directory mark |
| FatDirectory.SlotBytesRoundTrip | Kernel/fs/fat12.c:261-291 | Directory entries written as 32-byte records are read back unchanged |
| FatDirectory.SlotsRoundTrip | Kernel/fs/fat12.c:261-291 | Every root directory buffer is the record form of the entries read from it |
| FatDirectory.SlotPatched | Kernel/fs/fat12.c:395-423 | Storing bytes inside one slot changes that entry and no other |
| FatDirectory.FindIsComplete | Kernel/fs/fat12.c:322-331 | The search stops at the end mark and still fails only if no live entry has the name |
| FatDirectory.FindIs | Kernel/fs/fat12.c:322-331 | In any directory the search finds exactly the first live entry of that name, unless a never-used slot comes before it |
| FatDirectory.FindUnaffected | Kernel/fs/fat12.c:322-331 | The search for a name ignores changes to slots that do not answer to it |
| FatDisk.FlushKeepsData | Kernel/fs/fat12.c:123-131 | Persisting writes only FAT and root sectors, even when transfers fail |
| FatDisk.PutChainFrame | Kernel/fs/fat12.c:335-359 | Writing data along a chain touches the sectors of that chain only, also when it fails half-way |
| FatDisk.PutChainStores | Kernel/fs/fat12.c:335-359 | A completed data write leaves exactly the data along the chain |
| FatDisk.PutRunPrefix | Kernel/fs/fat12.c:123-131 | A run of sectors is stored in order up to the first failed transfer, and nothing behind it |
| FatDisk.PutChainPads | Kernel/fs/fat12.c:335-359 | Every sector of a written chain holds its 512 bytes of the data, and zeros behind the last byte |
| FatDisk.GetChainReads | Kernel/fs/fat12.c:293-319 | Reading along a chain returns what its sectors hold, or reports failure |
| FatInvariant.Reassign | Kernel/fs/fat12.c:393-423 | A directory slot can give up its chain and take over free clusters without disturbing the owner of any other cluster |
| FatSteps.WriteFileEffect | Kernel/fs/fat12.c:361-428 | A write, however it ends, keeps every cluster owned once and moves only the slot of its own name |
| FatSteps.CreateFileEffect | Kernel/fs/fat12.c:430-443 | The same for creating a file |
| FatSteps.CreateDirEffect | Kernel/fs/fat12.c:445-486 | The same for creating a directory |
| FatSteps.DeleteFileEffect | Kernel/fs/fat12.c:488-500 | The same for deleting |
| FatSteps.WriteRollsBack | Kernel/fs/fat12.c:384-390 | After a failed data write the table is as it was before |
| FatSteps.CommitOutcome | Kernel/fs/fat12.c:361-428 | What a committed write leaves: one changed slot with the new chain and size, the old chain free, every other entry as before |
| FatTheorems.RunKeepsInvariant | Kernel/fs/fat12.c:361-500 | Over every run of create, write, mkdir and delete, with any transfers failing, each cluster is free or on exactly one live entry, and every chain is acyclic, in range and ended |
| FatTheorems.RunStaysSoundIff | Kernel/fs/fat12.c:361-500 | A run from a sound volume stays sound after every operation if and only if each operation is admissible where it happens |
| FatTheorems.StepKeepsInvariantIff | Kernel/fs/fat12.c:361-500 | A single operation keeps the invariant if and only if it is admissible: it fails before changing anything, or it neither reuses a harmful slot nor allocates under a deletion-mark name |
| FatTheorems.WriteKeepsInvariantIff | Kernel/fs/fat12.c:367-401 | A committed write keeps the invariant if and only if the cluster field left in the slot it picks is harmless and a name starting with the deletion mark gets no data |
| FatTheorems.MkdirKeepsInvariantIff | Kernel/fs/fat12.c:445-486 | Making a directory keeps it if and only if the name does not start with the deletion mark |
| FatTheorems.UncleanSlotBreaks | Kernel/fs/fat12.c:376-401 | With a harmful field the write cuts its own new chain or another file |
| FatStale.StaleSlotExample | Kernel/fs/fat12.c:488-500 | A concrete sound volume with a deleted slot on which one write breaks the invariant |
| FatStale.StaleSlotIsReached | Kernel/fs/fat12.c:361-500 | From an empty volume, writing a one-cluster file twice and deleting it leaves such a volume; every step succeeds and is sound, and then an ordinary write of two clusters breaks it |
| FatTheorems.DeletionMarkNameLeaks | Kernel/fs/fat12.c:361-428 | A non-empty write under a name that starts with the deletion mark leaves clusters nobody owns |
| FatTheorems.NeverUsedSlotIsClean | Kernel/fs/fat12.c:376-401 | A slot whose cluster field is zero is harmless |
| FatTheorems.CreateThenWriteIsClean | Kernel/fs/fat12.c:430-443 | Creating a file first makes the write that follows safe without any condition |
| FatTheorems.WriteThenRead | Kernel/fs/fat12.c:293-428 | A successful write of any non-empty data, then find and read, returns exactly the data |
| FatTheorems.OtherFilesKept | Kernel/fs/fat12.c:361-500 | Whatever an operation does and however it ends, a file with another 8.3 name stays in its slot and reads back the same bytes |
| FatTheorems.FailedWriteKeeps | Kernel/fs/fat12.c:376-390 | A write that finds no slot, no space or a failing transfer reports failure, leaves directory and table as they were, and every file, that of the same name included, reads back as before |
| FatTheorems.DeleteThenFind | Kernel/fs/fat12.c:488-500 | A deleted name is not found any more |
| FatTheorems.FoundIsUnique | Kernel/fs/fat12.c:322-331 | Names being unique, the search finds the one live slot that has the name |
| FatSync.StepKeepsSynced | Kernel/fs/fat12.c:361-500 | When transfers succeed, after every operation (failing ones included) both FAT copies and the root on disk equal those in memory |
| FatSync.FlushOrder | Kernel/fs/fat12.c:189-199 | A flush cut short at any transfer has touched the second FAT copy only if the first is whole, and the root directory only if both are |
| FatSync.StepKeepsBoot | Kernel/fs/fat12.c:361-500 | No operation touches the reserved sectors, whatever the device does |
| FatSync.DataWriteStaysInData | Kernel/fs/fat12.c:335-359 | Data writes never touch FAT, root or boot sectors |
| FatSync.RemountRebuilds | Kernel/fs/fat12.c:201-249 | Mounting a disk that agrees with memory rebuilds exactly the volume in memory |
| FatSync.MountedHolds | Kernel/fs/fat12.c:201-249 | Whatever transfers failed, a mount that succeeds holds exactly what boot sector, first FAT and root directory on the disk say, and changes nothing there |
| FatSync.RunThenRemount | Kernel/fs/fat12.c:201-249 | So does a remount after any run of operations |
| FatFiles.RunRefinesStore | Kernel/fs/fat12.c:361-500 | Over every admissible run with working transfers the volume holds, and every operation reports, what a plain store of files by name would: one in which a file takes a cluster for every 512 bytes begun and fits exactly when it is no larger than the free clusters |
| FatFiles.ClustersForIs | Kernel/fs/fat12.c:361-401 | The 32-bit count of clusters for a size is the least number that holds it, for every size up to 2^32 - 512, and 0 above |
| FatFiles.ClustersLeast | Kernel/fs/fat12.c:361-401 | One cluster for every 512 bytes begun is the least number that holds them |
| FatFiles.FitsIffRoom | Kernel/fs/fat12.c:158-175 | Data finds space if and only if it is no larger than the free clusters |
| FatFiles.WriteSucceedsIff | Kernel/fs/fat12.c:361-428 | With working transfers a write succeeds if and only if its data is no larger than the free clusters and the name has an entry or some slot is vacant |
| FatFiles.StepRefines | Kernel/fs/fat12.c:361-500 | The same for one operation: new space is taken before old space is given back |
| FatFiles.ReadsStore | Kernel/fs/fat12.c:293-331 | A name is found exactly when the store has it, and reading it returns the store's bytes |
| FatFiles.RemountHoldsStore | Kernel/fs/fat12.c:201-249 | A mount after such a run finds the same store on the disk |
| FatFiles.ShowsOnce | Kernel/fs/fat12.c:293-331 | A sound volume holds exactly one store |
| FatFiles.CommitsIff | Kernel/fs/fat12.c:361-401 | With working transfers a write goes through exactly when there is a slot and room |
| FatFormat.BpbReads | Kernel/fs/fat12.c:201-249 | Parsing what a formatter wrote gives back its geometry: every field at its offset, little-endian, and the 32-bit sector count where the 16-bit one is 0 |
| FatFormat.FloppyBootReads | Kernel/boot/boot.asm:26-37 | The parameter block in the boot sector describes the 1.44 MB geometry: one reserved sector, FATs of 9, 224 root entries, 2880 sectors |
| FatFormat.SupportedIff | Kernel/fs/fat12.c:201-249 | Only 512-byte sectors, one per cluster and two FAT copies are mounted |
| FatFormat.Areas | Kernel/fs/fat12.c:111-131 | Boot area, two FATs, root directory and clusters follow each other without gaps |
| FatFormat.LegalCluster | Kernel/fs/fat12.c:134-140 | A cluster number is legal exactly when its sector is on the volume and it is below the marks |
| FatFormat.ThreeBytes | Kernel/fs/fat12.c:81-109 | Three bytes of the table hold two entries: low byte and low nibble, high nibble and high byte |
| FatFormat.FormatOf | Kernel/fs/fat12.c:40-49 | The stored form of a name: eight bytes for what stands before the first dot, three for what stands behind it, each cut or filled with spaces, in capitals |
| FatFormat.LongNames | Kernel/fs/fat12.c:40-49 | A name longer than 8.3 has the stored form of its shortened name |
| FatFormat.MatchesIff | Kernel/fs/fat12.c:251-259 | Names match exactly when they differ at most in the case of letters |
| FatFormat.UpperIs | Kernel/fs/fat12.c:35-38 | Small letters become capitals, every other byte stays |
| FatFormat.LiveRecord | Kernel/fs/fat12.c:115-121 | A record is in use unless it starts with 0x00 or 0xE5 or carries attribute 0x0F |
| FatFormat.RecordOf | Kernel/fs/fat12.c:261-291 | Where name, attribute, first cluster and size stand in a 32-byte record, little-endian |
| FatFormat.DirSector | Kernel/fs/fat12.c:463-467 | The first sector of a directory parses to "." with its own cluster, ".." with cluster 0, and nothing else |
| FatRecords.CreateRecord | Kernel/fs/fat12.c:430-443 | Creating writes one record: name, attribute 0x20, zeros; no other byte of the root and no table entry changes |
| FatRecords.WriteRecord | Kernel/fs/fat12.c:395-423 | Writing changes first cluster and size in the record that is there, or writes a new one; no other byte of the root changes |
| FatRecords.DeleteRecord | Kernel/fs/fat12.c:488-500 | Deleting changes one byte of the root directory, to 0xE5 |
| FatRecords.MkdirRecord | Kernel/fs/fat12.c:445-486 | Making a directory writes one record with attribute 0x10 and its cluster |
| FatRecords.MkdirSector | Kernel/fs/fat12.c:460-475 | ... and the sector of that cluster is an empty directory |
| FatDriver.Fat12.SetFatEntry | Kernel/fs/fat12.c:98-109 | In place: one entry of the table, unused bits kept |
| FatDriver.Fat12.FindFreeCluster | Kernel/fs/fat12.c:142-149 | The first free cluster from the start on, or 0 |
| FatDriver.Fat12.FreeChain | Kernel/fs/fat12.c:179-186 | In place: exactly the freed table of FreedClearsReachable |
| FatDriver.Fat12.AllocChain | Kernel/fs/fat12.c:158-175 | In place: the lowest free clusters linked; on failure the table is byte for byte what it was |
| FatDriver.Fat12.WriteSector | Kernel/fs/fat12.c:70-79 | One transfer to the device, with whatever the device makes of it |
| FatDriver.Fat12.ReadSector | Kernel/fs/fat12.c:58-67 | One transfer from the device |
| FatDriver.Fat12.FlushFat | Kernel/fs/fat12.c:189-199 | Both FAT copies, sector by sector, up to the first failure |
| FatDriver.Fat12.FlushRoot | Kernel/fs/fat12.c:123-131 | The root directory, sector by sector, up to the first failure |
| FatDriver.Fat12.FindDirEntry | Kernel/fs/fat12.c:322-331 | The search by formatted name |
| FatDriver.Fat12.FindFreeDirSlot | Kernel/fs/fat12.c:115-121 | The first unused or deleted slot |
| FatDriver.Fat12.WriteDataToClusters | Kernel/fs/fat12.c:335-359 | The data along the chain, last sector padded |
| FatDriver.Fat12.ReadFile | Kernel/fs/fat12.c:293-319 | The bytes along the chain in a new buffer; failure for an empty file, for lack of memory and for a failed transfer |
| FatDriver.Fat12.WriteFile | Kernel/fs/fat12.c:361-428 | In place: the volume and result of the write the theorems are about |
| FatDriver.Fat12.CreateFile | Kernel/fs/fat12.c:430-443 | In place: the volume and result of creating a file |
| FatDriver.Fat12.CreateDir | Kernel/fs/fat12.c:445-486 | In place: the volume and result of creating a directory |
| FatDriver.Fat12.DeleteFile | Kernel/fs/fat12.c:488-500 | In place: the volume and result of deleting |
| FatDriver.NameMatch | Kernel/fs/fat12.c:251-259 | Equality of 11-byte names up to case |
| FatDriver.FormatName | Kernel/fs/fat12.c:40-49 | The 11-byte form of a name |
| FatDriver.Mount | Kernel/fs/fat12.c:201-249 | Succeeds exactly when memory suffices and the disk describes a supported volume; a well-formed one, on a device at least as large, leaves the driver valid and holding exactly that volume, so every operation can follow |
| MkImage.WordWriteIsStore | Kernel/boot/mkimage.py:98-112 | The builder, storing through a 16-bit word, writes the same bytes as the driver, storing byte by byte |
| MkImage.Fat12Write | Kernel/boot/mkimage.py:103-112 | In place: the driver's store |
| MkImage.ChainedIsLinked | Kernel/boot/mkimage.py:128-138 | The builder links a file as the driver links an allocated chain |
| MkImage.ChainFile | Kernel/boot/mkimage.py:128-138 | In place: the consecutive clusters linked, and the next free one |
| MkImage.Split83IsFormat | Kernel/boot/mkimage.py:120-125 | Builder and driver agree on the stored form of every accepted name |
| MkImage.WriteDataClusters | Kernel/boot/mkimage.py:141-147 | The padded data from the first cluster on |
| MkImage.WrittenStores | Kernel/boot/mkimage.py:141-147 | Data that starts inside the image or at its end is stored whole, lengthening the image where it has to, and every other byte is kept |
| MkImage.BuildImage | Kernel/boot/mkimage.py:150-222 | Succeeds exactly on the accepted inputs; the image then holds boot sector, both FATs, root and the data of every file as laid out, and is longer than a floppy by what the last file sticks out |
| MkImage.LayoutIsOwned | Kernel/boot/mkimage.py:150-222 | The layout satisfies the driver's ownership invariant |
| MkImage.BuiltMounts | Kernel/boot/mkimage.py:150-222 | The first 2880 sectors of a built image mount as the volume that was laid out, in agreement with the disk, and sound if all files fit |
| MkImage.BuiltReadsBack | Kernel/boot/mkimage.py:150-222 | Reading a file that fits by its stored name returns exactly its bytes |
| MkImage.ProgramReadsBack | Kernel/boot/mkimage.py:197-213 | If all files fit, every distinctly named non-empty program reads back exactly its bytes by its display name from a sound volume |
| MkImage.ProgramReadsBackIff | Kernel/boot/mkimage.py:197-213 | In every accepted build a program reads back by its display name if and only if its last cluster lies on the floppy, and the volume is sound if and only if this holds of all |
| MkImage.OverflowIsLost | Kernel/boot/mkimage.py:200-208 | A file that leaves the floppy is found but cannot be read |
| MkImage.OverflowExample | Kernel/boot/mkimage.py:200-208 | A kernel that leaves one cluster and a program of two are accepted |
| MkImage.AcceptedStarts | Kernel/boot/mkimage.py:200-208 | Every program of an accepted build starts on the floppy, so only the last can leave it |
| ImageLayout.AcceptedIff | Kernel/boot/mkimage.py:150-213 | The builder accepts exactly: a kernel of at most 2847 clusters and at most 222 programs with 8.3 names, laid out back to back, each starting on the floppy and ending inside the FAT |
| ImageLayout.ValidNameIff | Kernel/boot/mkimage.py:120-125 | An accepted name: one to eight characters, and after a dot up to three, none of them a dot |
| ImageLayout.ClustersLeast | Kernel/boot/mkimage.py:128-133 | A file gets the least positive number of clusters that holds it |
| ImageLayout.PlacedAt | Kernel/boot/mkimage.py:150-213 | Every file starts right behind the one before it |
| ImageLayout.ImageStarts | Kernel/boot/mkimage.py:150-222 | The image begins with the boot sector and two equal FATs that start with the media mark F0 FF FF |
| ImageLayout.KernelBytes | Kernel/boot/mkimage.py:150-222 | The first root record is that of KERNEL.BIN at cluster 2, and the kernel lies in one piece from sector 33 on, padded with zeros |
| ImageLayout.ProgramBytes | Kernel/boot/mkimage.py:197-213 | Every program lies in one piece behind the kernel and the programs before it |
| ImageLayout.BuildReadsBackIff | Kernel/boot/mkimage.py:150-222 | With the shipped parameter block, a program of an accepted build reads back by its name if and only if kernel and programs up to it take at most 2847 clusters, and the volume is sound if and only if all do |
| PageTables.EntryFormat | Kernel/arch/paging.c:152-263 | Bits 0, 1, 2 and 7 of an entry are present, writable, user and 4 MiB page; the page number starts at bit 12 |
| PageTables.PageUpIs | Kernel/arch/paging.c:190-223 | A table takes the first page boundary at or after the block it was given |
| PageTables.MapPageUpdatesOnePage | Kernel/arch/paging.c:152-263 | A successful mapping changes the translation of exactly one virtual page, to the given frame and rights; a failed one changes nothing |
| PageTables.MapPageKeepsHigherHalf | Kernel/arch/paging.c:152-263 | Mapping a user page keeps the directory entries of the kernel half |
| PageTables.MapPageSucceeds | Kernel/arch/paging.c:152-263 | An aligned user mapping fails if and only if a table is needed and there is no memory for it |
| PageTables.MapPageKeepsFrames | Kernel/arch/paging.c:190-223 | Mapping changes no byte of the frame area |
| PageTables.MapPageTables | Kernel/arch/paging.c:190-223 | A successful mapping adds the table of its 4 MiB window and no other |
| PageTables.FramesKeepTables | Kernel/fs/elf.c:357-382 | Writing frames changes no table and no translation |
| PageTables.RegionGrows | Kernel/fs/elf.c:344-355 | Mapping one page after the other builds the flat map of a region |
| Elf.ValidatedRange | Kernel/fs/elf.c:160-266 | A validated segment has a page range without 32-bit wrap-around, inside the user half and clear of the stack |
| Elf.OverlapMeansSharedPage | Kernel/fs/elf.c:272-284 | The overlap test says yes exactly when two validated segments share a page |
| Elf.HeadersReadable | Kernel/fs/elf.c:118-155 | If the header table fits the file, every program header can be read |
| Elf.ClearOfEarlier | Kernel/fs/elf.c:521-535 | The inner loop of the first pass: no earlier loaded segment shares a page |
| Elf.CheckSegment | Kernel/fs/elf.c:484-535 | One header: valid if loadable and, unless empty, clear of those before it |
| Elf.ScanHeaders | Kernel/fs/elf.c:470-548 | All headers: whether every one is fine and one holds the entry point |
| Elf.FirstPass | Kernel/fs/elf.c:428-553 | The first pass accepts exactly the acceptable files: sound header, valid and page-disjoint segments, entry inside an executable one |
| ElfFormat.PhdrReads | Kernel/fs/elf.c:81-90 | A program header laid out in a file reads back as its eight fields |
| ElfFormat.HeaderReads | Kernel/fs/elf.c:61-79 | An ELF header laid out in a file has a sound header, and entry point, table offset, entry size and count read back |
| ElfFormat.LayoutReads | Kernel/fs/elf.c:118-155 | ... and so does every program header of its table |
| ElfFormat.AcceptedIsLaidOut | Kernel/fs/elf.c:428-553 | Conversely every accepted file is such a layout |
| ElfFormat.AlignIff | Kernel/fs/elf.c:205-224 | The mask tests on the alignment say: 0, 1, or a power of two to which address and offset are congruent |
| ElfFormat.ValidIff | Kernel/fs/elf.c:160-266 | A segment is valid exactly when it lies in file and user half, clear of the stack, no smaller in memory than in the file, and aligned |
| ElfFormat.OverlapIff | Kernel/fs/elf.c:272-284 | The overlap test says yes exactly when some page holds addresses of both |
| ElfFormat.AcceptableIff | Kernel/fs/elf.c:428-553 | A laid-out file is acceptable if and only if all its segments are valid, no two share a page, and the entry point lies inside an executable one below the stack |
| ElfFormat.LoadedBytes | Kernel/fs/elf.c:357-382 | After loading, every byte of every segment of a laid-out file reads at its address as the file's byte, and as zero beyond the file part |
| ElfFormat.LoadedPages | Kernel/fs/elf.c:567-610 | Its pages are exactly those its segments touch and the four below 0xBFC00000, writable exactly where the header or the stack says |
| ElfFormat.FrameToEveryPage | Kernel/fs/elf.c:308-343 | The frames a file takes are as many as the pages its segments touch |
| Loader.Machine.constructor | Kernel/mm/pmm.c:14-29 | The frame area wholly free, no heap request made, the machine valid |
| Loader.Machine.AllocFrames | Kernel/mm/pmm.c:36-70 | The next frames in order, or 0 exactly when none are asked for or too few are left |
| Loader.Machine.Usage | Kernel/mm/pmm.c:72-88 | Used and free bytes add up to the whole frame area |
| Loader.Machine.CreatePd | Kernel/arch/paging.c:106-150 | A directory with an empty user half and the kernel half without user access; fails only without memory |
| Loader.Machine.ShareKernel | Kernel/arch/paging.c:106-150 | The kernel half without user access; no other page of memory changes |
| Loader.Machine.MapOne | Kernel/arch/paging.c:152-263 | In place: the mapping of MapPageUpdatesOnePage |
| Loader.Machine.LoadSegment | Kernel/fs/elf.c:293-385 | One more segment mapped on frames of its own and filled; succeeds exactly when it is valid, frames suffice and the heap answers; pages used by others and frames given out before keep their bytes, also when it fails |
| Loader.Machine.LoadSegments | Kernel/fs/elf.c:567-580 | The second pass: all loadable segments in order |
| Loader.Machine.MapStack | Kernel/fs/elf.c:585-610 | The stack pages mapped writable on frames of their own |
| Loader.Machine.LoadProgram | Kernel/fs/elf.c:428-610 | Succeeds if and only if the file is acceptable, the heap answers one request for the directory and one for each 4 MiB window the file needs, and the frames suffice; it makes just that many requests; then every byte of every segment reads as the file says and zero beyond it, the user half holds the segment and stack pages and nothing else, no two pages share a frame, and the kernel half is the kernel's without user access; whether it succeeds or fails, every program loaded earlier stays loaded |
| Loader.FileWindowsAre | Kernel/fs/elf.c:567-610 | The windows a file needs are those in which a segment or stack page lies, each once |
| Loader.KernelHalfTranslates | Kernel/arch/paging.c:106-150 | The kernel half of a new directory translates as in the kernel's own, without user access |
| Loader.LoadedStays | Kernel/fs/elf.c:393-398 | A program in place stays in place, with its whole image, page set and access, as long as its table pages and the frames given out before are spared |
| Loader.MapPageSpares | Kernel/arch/paging.c:152-263 | Mapping a page changes no byte of pages others use nor of any frame |
| Loader.PlacedReads | Kernel/fs/elf.c:344-382 | Translating an address of a placed segment reaches its file byte, or zero |
| Loader.LookupFinds | Kernel/fs/elf.c:344-355 | In page-disjoint segments the flat map finds the segment of a page |
| Loader.CompleteReads | Kernel/fs/elf.c:567-610 | All segments placed: the whole image is readable as specified |
| Loader.CompleteExact | Kernel/fs/elf.c:567-610 | ... and the user half is exactly the segment and stack pages, writable exactly where it should be |
| Loader.CompleteOwnsFrames | Kernel/fs/elf.c:567-610 | ... and no two user pages share a frame, nor does any show kernel memory |
| Loader.ClearOfPlaced | Kernel/fs/elf.c:521-535 | The first pass guarantees that a segment shares no page with those loaded before it |
| EndToEnd.StartableIff | Kernel/fs/elf.c:428-610 | From build to start: a program in ELF format on a built image is found by its name, reads back its bytes and is accepted if and only if it is runnable and kernel and programs up to it take at most 2847 clusters |
| EndToEnd.StartedProgram | Kernel/fs/elf.c:567-610 | ... and once loaded from the file that was read, every byte of every segment stands at its address |
| UserAccess.AccessibleIsUserMapping | Kernel/arch/paging.c:33-87 | The kernel's page check agrees with what the processor lets user code do |
| UserAccess.ValidateUserRange | Kernel/arch/paging.c:265-315 | Accepts exactly the empty range and the ranges inside the user half, without wrap-around, all of whose pages are accessible in the loaded directory |
| UserAccess.LoadedRangeIsExact | Kernel/arch/paging.c:265-315 | On a space built by the loader: accepted if and only if all pages are segment or stack pages, writable ones for writing |
| UserAccess.AddressSpace.CopyFromUser | Kernel/arch/paging.c:317-345 | Succeeds exactly on acceptable ranges and then returns what user code would read there, frames shared or not |
| UserAccess.AddressSpace.CopyToUser | Kernel/arch/paging.c:347-375 | Succeeds exactly on acceptable ranges, else changes nothing; then every byte of memory is the last one sent to it, or as before, and no translation has changed; where no two pages share a frame, user code reads the new bytes there and what it read before everywhere else |
| UserAccess.ReadBackIff | Kernel/arch/paging.c:347-375 | With shared frames, what was copied out is all read back if and only if bytes that went to one place were equal |
| UserAccess.SharedFrameLoses | Kernel/arch/paging.c:347-375 | Two pages mapped to one frame by paging_map_page: a copy of 4097 bytes across them is accepted and loses its first byte unless the last equals it |
| UserAccess.OwnFramesApart | Kernel/arch/paging.c:347-375 | Spaces built by the loader meet what the copies require |
| UserAccess.ByteKeepsSpace | Kernel/arch/paging.c:347-375 | A byte stored outside directory and tables changes no translation and no access right |
| UserAccess.OwnFramesDeliver | Kernel/arch/paging.c:347-375 | With a frame to every page, a copy shows at the addresses it was sent to and nowhere else |
| UserAccess.CopyBack | Kernel/arch/paging.c:317-375 | What was copied out is accepted and read back by a copy in |
| Scheduling.Choice | Kernel/sched/scheduler.c:199-224 | The first, among those of the highest priority, with the least processor time |
| Scheduling.ChoiceIsUnique | Kernel/sched/scheduler.c:199-224 | That description fixes the choice |
| Scheduling.DueSplits | Kernel/sched/scheduler.c:271-282 | The sleepers split into those due and the others, each kept once |
| Scheduling.DueKeepsOrder | Kernel/sched/scheduler.c:271-282 | Both parts keep the order of the sleep list |
| SchedulingTheorems.TickMovesTheDue | Kernel/sched/scheduler.c:271-282 | A tick moves precisely the sleepers whose time has come, behind the ready ones; both they and those left keep the order of the sleep list, and every process stays in its place |
| SchedulingTheorems.SliceSettles | Kernel/sched/scheduler.c:284-321 | A round of the run loop, whatever the entry point does, leaves every process in its place |
| SchedulingTheorems.OnePlace | Kernel/sched/scheduler.c:284-344 | A process is ready, asleep or finished, and in exactly one of these |
| SchedulingTheorems.Step | Kernel/sched/scheduler.c:284-321 | Every event (round, bare tick, new process, wake-up) keeps the placement |
| SchedulingTheorems.Run | Kernel/sched/scheduler.c:284-321 | Over every run, from any settled state, the placement holds |
| SchedulingTheorems.CreateSettles | Kernel/sched/scheduler.c:125-158 | A new process is ready and in the queue, everyone else where they were |
| SchedulingTheorems.WakeSettles | Kernel/sched/scheduler.c:253-269 | An explicit wake-up keeps the placement |
| SchedulingTheorems.RunBalances | Kernel/sched/scheduler.c:193-230 | In every run ticks = context switches + idle time (+ ticks made outside a round) and work = context switches, modulo 2^64 |
| SchedulingFairness.RoundRobin | Kernel/sched/scheduler.c:222-230 | With n processes that always yield and no sleepers, k*n rounds run each exactly k times and restore the queue order |
| SchedulingFairness.RoundRobinWaits | Kernel/sched/scheduler.c:222-230 | Whatever the processes do, the one at place i of the ready queue runs in round i + 1 |
| SchedulingFairness.WakesOnTime | Kernel/sched/scheduler.c:241-282 | A process whose wake-up tick lies ahead and whom nobody wakes explicitly stays asleep until then, over any rounds, bare ticks, new processes and wake-ups of others, and that tick makes it ready |
| SchedulingFairness.SleepTakesItsTime | Kernel/sched/scheduler.c:241-282 | sleep(n), n > 0, makes a process ready at the n-th tick and no earlier, over any such events, if and only if the wake-up tick does not wrap or the tick counter wraps at the very next tick |
| SchedulingFairness.WokenAtOnce | Kernel/sched/scheduler.c:253-269 | An explicit wake-up makes a sleeper ready at once |
| SchedulingFairness.OverlongSleep | Kernel/sched/scheduler.c:241-251 | sleep(2^64 - 1) called at tick 5 sets the wake-up tick to 4 and is over at the next tick |
| SchedulingFairness.PriorityShares | Kernel/sched/scheduler.c:199-221 | By priority, only top-priority processes ever run, and processor times within one of each other stay so |
| SchedulingFairness.PriorityRounds | Kernel/sched/scheduler.c:199-221 | Starting level, k rounds for each top-priority process run each exactly k times |
| SchedulingFairness.YieldRound | Kernel/sched/scheduler.c:193-239 | The chosen process goes to the end of the queue and only its processor time changes |
| SchedulingFamily.NewcomerIs | Kernel/sched/scheduler.c:125-158 | A new process goes to the end of the ready queue as a child of the current one, with its priority, the next number and no processor time; nothing else changes |
| SchedulingFamily.NewcomerRunsIff | Kernel/sched/scheduler.c:193-230 | By priority it is dispatched next if and only if every other ready process has a lower priority, or the same one and has run before |
| SchedulingFamily.RunNumbers | Kernel/sched/scheduler.c:125-158 | Over every run the n-th process created has number n modulo 2^64 and no event renumbers one |
| SchedulingFamily.NumbersDistinctIff | Kernel/sched/scheduler.c:141-141 | In every run the numbers of all processes ever created are distinct if and only if there are at most 2^64 of them |
| SchedulingFamily.RoundKeepsParents | Kernel/sched/scheduler.c:323-344 | A round changes the parent of a process exactly when that parent finishes in it and the process is ready, to the idle process; sleeping children keep the dead parent's number |
| SchedulingFamily.OthersKeepParents | Kernel/sched/scheduler.c:125-282 | No other event changes a parent |
| SchedulingFamily.ReturnFinishes | Kernel/sched/scheduler.c:311-320 | The process that ran is finished exactly when it neither yielded nor slept |
| SchedulingFamily.NeverRunsAgain | Kernel/sched/scheduler.c:284-344 | Once finished, a process never runs again, over any events |
| SchedulingFamily.WakesLast | Kernel/sched/scheduler.c:253-269 | A wake-up puts a sleeper behind all ready processes and does nothing to others |
| SchedulingFamily.SleepsFirst | Kernel/sched/scheduler.c:241-251 | The process that goes to sleep stands first on the sleep list |
| Scheduler.BridgedIsRing | Kernel/sched/scheduler.c:74-84 | Linking the neighbours of an element leaves a circular doubly linked list of the others |
| Scheduler.AppendedIsRing | Kernel/sched/scheduler.c:42-54 | Linking an element in before the head leaves a circular list with it at the end |
| Scheduler.Scheduler.constructor | Kernel/sched/scheduler.c:105-123 | The scheduler with only the idle process |
| Scheduler.Scheduler.InsertTail | Kernel/sched/scheduler.c:42-54 | In place: the ring with the process at its end |
| Scheduler.Scheduler.Unlink | Kernel/sched/scheduler.c:56-85 | In place: the ring without the process, if it was there |
| Scheduler.Scheduler.InReadyQueue | Kernel/sched/scheduler.c:87-99 | Whether the ring holds the process |
| Scheduler.Scheduler.AddProcess | Kernel/sched/scheduler.c:178-184 | Ready and queued, unless it is idle or queued already |
| Scheduler.Scheduler.Remove | Kernel/sched/scheduler.c:186-191 | Out of the queue, unless it is idle |
| Scheduler.Scheduler.PickNext | Kernel/sched/scheduler.c:193-230 | The choice by policy leaves the queue, or the idle process runs; counters follow |
| Scheduler.Scheduler.YieldCurrent | Kernel/sched/scheduler.c:232-239 | The running process goes to the end of the queue |
| Scheduler.Scheduler.SleepCurrent | Kernel/sched/scheduler.c:241-251 | The running process goes to the front of the sleep list with its wake-up tick (modulo 2^64) |
| Scheduler.Scheduler.WakeProcess | Kernel/sched/scheduler.c:253-269 | A sleeper is unlinked from the sleep list and queued |
| Scheduler.Scheduler.TickNow | Kernel/sched/scheduler.c:271-282 | In place, unlinking while walking the list: the tick of TickMovesTheDue |
| Scheduler.Scheduler.ExitProcess | Kernel/sched/scheduler.c:323-344 | Finished, out of the queue, ready children handed to the idle process |
| Scheduler.Scheduler.RunRound | Kernel/sched/scheduler.c:285-320 | In place: one round, links and placement kept |
| Scheduler.Scheduler.RunTicks | Kernel/sched/scheduler.c:284-321 | In place: the whole run the theorems are about |
| Scheduler.Scheduler.CreateProcess | Kernel/sched/scheduler.c:125-158 | In place: the new process of NewcomerIs; nothing changes without memory |
| Preemption.FirstEsp | Kernel/sched/sched_fs.c:57-60 | The first frame lies inside the process's own stack |
| Preemption.ContextIntegrity | Kernel/sched/sched_fs.c:84-157 | Over any interrupts, creations and preemption toggles, every resumption continues exactly where the process was last left (suspended, or born with its first frame) |
| Preemption.SwitchesInOrder | Kernel/sched/sched_fs.c:129-149 | An interrupt switches exactly when a switch is due and preemption is on, to the next process in index order at its recorded place; never while preemption is off |
| Preemption.TimeSharing | Kernel/sched/sched_fs.c:118-149 | From every reachable phase of a slice, with two or more processes and preemption on, the first turn ends when its slice does and every later one after 10 timer interrupts (and any others), so each process comes round after 10 for each process |
| Preemption.WholeSlices | Kernel/sched/sched_fs.c:118-157 | Switching preemption on starts a whole slice, whatever was left or pending: from then on the turn passes at every tenth tick and at no other |
| Preemption.NoSwitchWhileOff | Kernel/sched/sched_fs.c:129-157 | Between switching preemption off and on again no run switches, however many ticks go by |
| Preemption.CountersCount | Kernel/sched/sched_fs.c:118-149 | Over every run the tick counter counts the timer interrupts and the switch counter the resumptions, modulo 2^32 |
| Preemption.EntriesKept | Kernel/sched/sched_fs.c:84-103 | Over every run the first four processes asked for exist, the bootstrap one included, each with its own entry point |
| Preemption.Driver.constructor | Kernel/sched/sched_fs.c:105-116 | One bootstrap process, a full slice, preemption on |
| Preemption.Driver.CreateProcess | Kernel/sched/sched_fs.c:84-103 | A record with its first frame, or nothing when all four are taken |
| Preemption.Driver.Tick | Kernel/sched/sched_fs.c:118-127 | Counts, and asks for a switch at the end of a slice |
| Preemption.Driver.Switch | Kernel/sched/sched_fs.c:129-149 | Saves the stack pointer and hands over to the next record |
| Preemption.Driver.SetPreempt | Kernel/sched/sched_fs.c:151-157 | Enabling starts a fresh slice and drops a pending switch |
| Preemption.Driver.Handle | Kernel/arch/isr.asm:84-93 | The interrupt path: dispatch, possible switch, continue on the returned stack pointer |
| Preemption.SetupFrame | Kernel/sched/sched_fs.c:57-82 | The interrupt exit pops from the first frame the entry point, zeroed registers, kernel segments and interrupts enabled; the frame ends at the aligned top of the process's own stack, and other stacks are untouched |
| Checksum.FoldIsResidue | Kernel/net/net_ip.c:28-30 | Folding the carries gives the residue modulo 65535, with 65535 for a non-zero multiple |
| Checksum.SwapFold | Kernel/net/net_ip.c:12-33 | Folding the swapped words and swapping back is folding the words |
| Checksum.ByteOrderIndependence | pasinux/kernel/net/net_ip.c:12-21 | The byte-swapping and the native form agree on every array of up to 65537 words |
| Checksum.NoOverflow | Kernel/net/net_ip.c:17-26 | Up to 65537 words the 32-bit sum does not wrap |
| Checksum.OneWordTooMany | Kernel/net/net_ip.c:17-33 | For every length from 65538 on there is an array on which the two forms differ |
| Checksum.LengthAgreesIff | Kernel/net/net_ip.c:12-33 | The forms agree on every array of a length if and only if that length is at most 65537 |
| Checksum.FormsAgreeIff | Kernel/net/net_ip.c:12-33 | On one array of any length they agree if and only if the wraps of its two sums match |
| Checksum.IpChecksum | Kernel/net/net_ip.c:12-33 | The form that swaps every word and the result |
| Checksum.NativeChecksum | pasinux/kernel/net/net_ip.c:12-21 | The native form |
| Checksum.VerifiesIff | Kernel/net/net_ip.c:127-132 | A block passes the receiver's test if and only if its word sum is a non-zero multiple of 65535 |
| Checksum.FilledVerifies | Kernel/net/net_ip.c:57-64 | Filling a zero field with the checksum of the rest makes a block pass |
| Checksum.CatchesOneWord | Kernel/net/net_ip.c:127-132 | The test catches every change of one word, except between 0 and 65535 |
| IpPackets.ChecksumOfBytes | Kernel/net/net_ip.c:61-64 | What the checksum over memory words means for the bytes on the wire |
| IpPackets.HeaderVerifies | Kernel/net/net_ip.c:45-64 | Every header built passes the receiver's test |
| IpPackets.SentIsAccepted | Kernel/net/net_ip.c:90-170 | What is sent is accepted whatever padding follows it, with payload, protocol and sender intact |
| IpPackets.Ip.Send | Kernel/net/net_ip.c:35-88 | The packet, or nothing for a payload over 1480 bytes; the identification counts modulo 2^16 |
| IpPackets.Receive | Kernel/net/net_ip.c:90-156 | The acceptance checks in order |
| NetFormat.NetworkOrder | Kernel/net/net_ip.c:45-64 | Words and addresses are written and read most significant byte first |
| NetFormat.KnownChecksum | Kernel/net/net_ip.c:12-33 | A header whose checksum is known, 0xB861 |
| NetFormat.PacketBytes | Kernel/net/net_ip.c:45-64 | The header bytes sent, and both addresses in their places |
| NetFormat.PacketAccepted | Kernel/net/net_ip.c:90-156 | A packet with any header of right checksum, options and padding included, is passed on with its payload, protocol and source if and only if it is no fragment |
| NetFormat.HeaderDamageIsDropped | Kernel/net/net_ip.c:127-132 | A packet with one header word changed is dropped, unless 0 became 65535 or the reverse |
| NetFormat.SegmentBytes | Kernel/net/net_tcp.c:104-190 | The header bytes sent and the pseudo-header of the checksum |
| NetFormat.SegmentTaken | Kernel/net/net_tcp.c:538-616 | A segment of right checksum, options, window and urgent pointer whatever they are, is taken apart into exactly its fields if and only if its address and both ports are those of the connection |
| NetFormat.BadLengthDropped | Kernel/net/net_tcp.c:563-577 | A header length below 20 bytes or beyond the segment is refused |
| TcpSegments.SumBytes | Kernel/net/net_tcp.c:60-86 | The sum of network-order words, an odd last byte padded, without 32-bit overflow |
| TcpSegments.TcpChecksum | Kernel/net/net_tcp.c:54-95 | Zero exactly when pseudo-header and segment verify |
| TcpSegments.SendSegment | Kernel/net/net_tcp.c:104-190 | The segment bytes, or failure for a payload over 1460 bytes |
| TcpSegments.BuiltVerifies | Kernel/net/net_tcp.c:161-180 | Every segment built verifies under its pseudo-header, odd lengths included |
| TcpSegments.BuiltParses | Kernel/net/net_tcp.c:538-616 | The other end takes out of a segment exactly what was put in |
| TcpSegments.SegmentCrosses | Kernel/net/net_tcp.c:538-616 | ... also across IP, padding included |
| TcpSegments.DamageIsDropped | Kernel/net/net_tcp.c:579-601 | A segment with one word changed is dropped, unless 0 became 65535 or the reverse |
| TcpSegments.ParsePacket | Kernel/net/net_tcp.c:538-616 | The checks before the state machine |
| TcpStates.HandleConserves | Kernel/net/net_tcp.c:674-761 | No arrival overwrites or drops pending data, and the buffer never exceeds 2048 bytes |
| TcpStates.HandleLabels | Kernel/net/net_tcp.c:618-838 | Only the acknowledgement of a SYN moves the sequence number, by one; answers carry no data |
| TcpStates.RunConserves | Kernel/net/net_tcp.c:415-480 | Over any interleaving of packets and reads, bytes handed out followed by bytes pending are the accepted payloads in order |
| TcpStates.SilentWait | Kernel/net/net_tcp.c:369-391 | With no packet at all, the wait for an acknowledgement ends well if and only if the connection is established and the shared ack_num field is already that high |
| TcpStates.HeardIff | Kernel/net/net_tcp.c:369-391 | On an established connection, every wait that ends well was ended by an acknowledgement number of at least expected_ack, compared as plain numbers, if and only if ack_num is lower before the wait and received data is pending |
| TcpStates.TrustedIff | Kernel/net/net_tcp.c:345-391 | Every wait that ends well was ended by a packet that acknowledges the chunk, modulo 2^32 and reaching at most so far ahead, if and only if ack_num is lower before, data is pending, the numbers of the chunk do not wrap and 2^32 - 1 is not too far ahead |
| TcpStates.Untrusted | Kernel/net/net_tcp.c:345-391 | Otherwise one poll ends the wait without: silence, a data byte, a second acknowledgement of what came before, or one of bytes never sent |
| TcpStates.DuplicateEndsWait | Kernel/net/net_tcp.c:690-691 | 50 bytes before the wrap a duplicate acknowledgement, of none of 100 bytes, ends the wait for them |
| TcpStates.PendingWaitHears | Kernel/net/net_tcp.c:387-390 | With data pending, the poll that ends the wait well is a packet with such a number |
| TcpStates.ByteRaises | Kernel/net/net_tcp.c:727-761 | With none pending, one data byte that acknowledges too little ends the wait well |
| TcpStates.SucceedsUnheard | Kernel/net/net_tcp.c:387-390 | A concrete connection on which a chunk counts as acknowledged without any packet |
| TcpSessions.FlagBits | Kernel/net/net_tcp.c:618-838 | FIN, SYN, RST, PSH and ACK are the bits 0 to 4 |
| TcpSessions.Handshake | Kernel/net/net_tcp.c:620-655 | A SYN-ACK for our SYN is answered with an acknowledgement of isn + 1 from sequence number + 1 and establishes the connection; any other is ignored |
| TcpSessions.DataArrives | Kernel/net/net_tcp.c:697-761 | Data in the expected place is taken in whole and acknowledged up to its end; other data is answered with the number expected |
| TcpSessions.DataRefused | Kernel/net/net_tcp.c:704-745 | While data is pending, or when it is larger than the buffer, nothing is taken in |
| TcpSessions.ResetCloses | Kernel/net/net_tcp.c:657-688 | A reset ends the connection without an answer; pending data stays |
| TcpSessions.FinEndsIff | Kernel/net/net_tcp.c:763-790 | An established connection is ended by a final segment if and only if it is in the expected place and carries no data |
| TcpSessions.FinWaitEndsIff | Kernel/net/net_tcp.c:794-834 | After our own final segment the connection is done exactly when that is acknowledged or the other end's arrives |
| TcpSessions.StreamReturnedIff | Kernel/net/net_tcp.c:674-761 | Every byte of a stream sent in order and read between segments is returned, in order, if and only if each segment starts at or above the number the peer acknowledges |
| TcpSessions.AboveIff | Kernel/net/net_tcp.c:690-691 | As long as the numbers do not wrap, that depends on the first number alone |
| TcpSessions.SessionIff | Kernel/net/net_tcp.c:538-838 | From SYN-ACK over any data to the final segment: all bytes are returned and the end is acknowledged if and only if the peer's numbers stay at or above ours |
| TcpSessions.FirstSessionIff | Kernel/net/net_tcp.c:35-45 | The first connection after a start goes through if and only if the peer counts from 1000 or more |
| Tcp.Connection.constructor | Kernel/net/net_tcp.c:35-45 | Closed, sequence number 1000, nothing pending |
| Tcp.Connection.Transmit | Kernel/net/net_tcp.c:104-190 | One segment with the current numbers goes out; the sequence number stays |
| Tcp.Connection.HandlePacket | Kernel/net/net_tcp.c:538-838 | In place: what Handshake, DataArrives, ResetCloses, FinEndsIff and FinWaitEndsIff say of the state machine, its answers and the bytes taken in |
| Tcp.Connection.TakeIn | Kernel/net/net_tcp.c:727-761 | Data that is next in order goes into the empty buffer and is acknowledged |
| Tcp.Connection.AwaitAck | Kernel/net/net_tcp.c:369-391 | Says acknowledged exactly at the first poll after which ack_num is high enough, the connection still established; that poll is a packet that acknowledges the chunk if data was pending, ack_num lower before and the numbers of the chunk do not wrap |
| Tcp.Connection.SendChunk | Kernel/net/net_tcp.c:347-399 | As many copies of the chunk go out as attempts are counted, at most three, all with its own sequence number |
| Tcp.Connection.Send | Kernel/net/net_tcp.c:319-413 | Whatever arrives and however often it retries, every copy of data byte k carries s0 + k; success moves the sequence number on by exactly the length and every byte has gone out |
| Tcp.Connection.Connect | Kernel/net/net_tcp.c:192-317 | At most three SYNs, all with the same number; success has moved it on by exactly one, failure not at all |
| Tcp.Connection.Close | Kernel/net/net_tcp.c:482-536 | One final segment goes out and moves the sequence number on by one; the connection is closed whatever comes back, and unread data stays |
| Tcp.Connection.Recv | Kernel/net/net_tcp.c:415-480 | The oldest pending bytes into the caller's buffer, the rest stays pending and in order |
| ArpCache.LookupRefines | Kernel/net/net_arp.c:24-47 | A lookup is the reference list's lookup, answer included |
| ArpCache.AddRefines | Kernel/net/net_arp.c:49-100 | Adding is the reference list's adding: own slot, else a free one, else the least recently used goes |
| ArpCache.RunRefines | Kernel/net/net_arp.c:15-100 | Over any run in which the age counter does not wrap, the cache holds exactly the reference list |
| ArpCache.HoldsMostRecent | Kernel/net/net_arp.c:49-100 | The reference list is the eight most recently used of all addresses ever learned, each once, with its latest MAC |
| ArpCache.CacheHoldsMostRecent | Kernel/net/net_arp.c:15-100 | From the empty cache, over every run of fewer than 2^32 operations, the cache itself holds the eight most recently used addresses ever learned |
| ArpCache.ReferenceBounds | Kernel/net/net_arp.c:49-100 | Never more than eight addresses, none twice |
| ArpCache.StepRefinesIff | Kernel/net/net_arp.c:24-100 | A step refines the list if and only if the counter does not wrap, or no entry is used, or only one is left |
| ArpCache.WrapEvictsNewest | Kernel/net/net_arp.c:78-99 | A proper cache at the wrap on which the entry just used is thrown out, while the reference keeps it |
| ArpCache.Table.constructor | Kernel/net/net_arp.c:15-22 | Eight free slots |
| ArpCache.Table.LookupMac | Kernel/net/net_arp.c:24-47 | In place: the lookup and the new age |
| ArpCache.Table.ChooseSlot | Kernel/net/net_arp.c:54-90 | Own slot, else the first free one, else the first of the least age |
| ArpCache.Table.AddMac | Kernel/net/net_arp.c:49-100 | In place: the slot written and touched |

## Left out

- Geometry: sectors of 512 bytes, one sector per cluster and two FAT copies are fixed, as on the shipped image; `FatDriver.Mount` refuses other volumes, which the C would mount and misread.
- FatTheorems.RunKeepsInvariant: holds for runs of admissible operations, which `FatTheorems.RunStaysSoundIff` shows to be exactly the runs that stay sound.
- FatTheorems.WriteThenRead: empty data is left out because reading an empty file is a failure in the C.
- FatDriver.Fat12.WriteFile: requires links of the table and of the directory to stay inside the table, since the C reads outside its buffer otherwise.
- FatDriver.Fat12.ReadFile: when the chain is shorter than the recorded size, the rest of the buffer is unspecified, as fresh heap memory is.
- MkImage.ProgramReadsBackIff: the boot sector is any one with the shipped parameter block; what does not fit on the medium is cut off.
- MkImage.Split83IsFormat: names are ASCII; Unicode upper-casing is not modelled.
- Loader.Machine.LoadProgram: `kmalloc` is an oracle that returns memory below 2 MiB overlapping no other block; the heap allocators themselves are not modelled, nor freeing after a failure, nor the trap stack and the switch to user mode; the kernel half is taken to hold 4 MiB pages, as set up at boot.
- Null-pointer arguments, which the C refuses at the start of each function, are not modelled.
- UserAccess.ValidateUserRange: requires page tables to lie in the 4 MiB window through which the kernel reads them, since the C would fault on any other.
- UserAccess.AddressSpace.CopyFromUser: requires the pages user code may read to show memory that exists.
- UserAccess.AddressSpace.CopyToUser: also requires that no page user code may write shows the loaded directory or one of its user tables; a copy that rewrites the tables it is translated by is not modelled.
- FatFiles.RunRefinesStore: holds for working transfers, since after a failed one memory and disk may differ from what any store would hold.
- Bit operations on page entries, flags and nibbles are written as division and remainder.
- Scheduler.Scheduler.RunTicks: an entry point yields once, sleeps once or returns, and processes it creates or wakes are events between rounds; setjmp/longjmp, process_join, destroy_process and the zombie reaper are not modelled.
- Names, console output and processor stacks of hosted processes are not modelled.
- Preemption.SetupFrame: the switcher records stack pointers; that code between interrupts keeps its own stack intact is taken for granted, and page-directory reloads are left out.
- Tcp.Connection.Send: transmission is one step; ARP resolution inside ip_send, which may poll and so re-enter packet handling, is left out, as are link-layer framing and the clock (waiting is a finite list of polls).
- Tcp.Connection.Connect: the bookkeeping flags connected, waiting_for_ack and ack_received and the retry field are not modelled.
- TcpSessions.SessionIff: the peer's segments arrive in order and a read follows each; sending on both sides at once is covered by `Tcp.Connection.Send` and `TcpStates.RunConserves` only.
- ArpCache.Table.AddMac: address resolution with retries and ARP packet parsing are left out.
- File descriptors, system calls, IPC, keyboard, graphics, windowing, shell, HTTP, drivers and assembly are left out as input and output plumbing.
- `pasinux/kernel/`, `drivers/` and `_Kernel_backup/` are left out as older copies, except for the native-order checksum.
