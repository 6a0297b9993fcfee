# HAL9000 tools: a verified model

This project models parts of the HAL9000 tree and proves what they are for.

* **The FAT32 image writer** (`ImageCreator/src/fat.cpp`, driven by `main.cpp`). `FatImage.Fat` is
  the object whose methods update two FATs, a flat data area, counters, the directory tree and the
  name counters in place. Each method is proved against a function on values (`FatClusters`,
  `FatNames`, `FatWriter`, `FatFilesystem`). A separate reader (`FatReader`, and `Lookup` in
  `FatFilesystem`) knows only the volume: it walks FAT chains, scans slots and decodes names.
  `FatBoot` and `FatBytes` get the volume from nothing but the bytes of its partition. `FatRuns` and
  `FatRequests` prove that after any run it finds exactly what was created, `FatOwnership` slot by
  slot, `FatFormatted` that label and reserved FAT entries stay, and `FatPlan` says beforehand
  whether a list will fit.
* **The page-table builder** (`UefiBootloader/src/paging.c`). Tables live in an array of 64-bit
  words; `PageTables` states the processor's walk (Intel SDM Volume 3A, section 4.5) with the access
  rights it works out (section 4.6), and the invariant that the tables form a tree; `Paging` holds
  the code; `PageRanges` says what a mapped range means.
* **CRC-32** (`crc32.cpp`, `crc32.c`). The table-driven loop equals the bit-by-bit definition with
  the reflected polynomial 0xEDB88320 (IEEE 802.3, section 3.2.9), with its check value and residue,
  and changes confined to four consecutive bytes are always detected. Both source files hold the
  same table and loop, so one model stands for both. `BootHeader` applies this to the loader's
  header check.
* **The GPT writer** (`gpt.cpp`): layout, write cursor, self-verifying header (UEFI Specification,
  section 5.3), protective MBR (section 5.2.3), with an independent reader. `DiskImage` puts both
  writers together as the main program does: a reader who starts from the finished file, checks the
  primary header, and takes the partition's place from the table, finds exactly what was asked for
  in each partition.
* **Two array loops**: runtime address assignment (`runtime.c`) and the commit-bitmap bursts
  (`hal_vmm.py`).

Where the code and what one would expect of it differ, the model follows the code:

* `_MemoryMap1GB` indexes the second-level table with address bits 21 to 29 instead of 30 to 38, so
  for an aligned address it always writes entry 0. `PageRanges` proves exactly which gigabytes are
  mapped as asked, and `MapTwoGigabytes` is the concrete failing run.
* Generated 8.3 names can collide once a counter reaches 10; `FatShortNames` proves exactly when,
  and `TenthNamesCollide` is a concrete run of names. A name stored as it is can also equal a
  generated one (`AnyNamesCollide`, `PlainNameCollides`).
* The GPT entry stride is 32768 bytes, twice a constant that already is the size of a whole array,
  and the array checksum sees only the low 32 bits of the array's length. `ExactLimit` proves that
  every disk of n partitions verifies exactly when n is below 131072; from there on, of two disks
  that differ in the last identifier at most one does (`NotBothVerify`).
* The checksum of the secondary GPT header is computed but never stored, and that header names the
  first table instead of its copy: `SecondaryHeaderChecks` proves exactly when it passes, and
  `SecondariesNotBothVerify` that of two disks with almost the same identifier at most one does.
* A destination such as `//b` names `b` in the root, and a destination without a slash is its own
  name with a parent made of its tail. `ParseOfRender` proves exactly which paths survive being
  written and parsed, and `RenderOfParse` exactly which texts survive being parsed and written.
* The boot sector announces its backup at sector 6, but the second copy is written at sectors 7 and
  8, names sector 7 as the place of its record, and closing writes the counters into sector 7, not
  8: `BackupIsNotFound`.
* A volume name whose first byte is 0xE5 is stored as it is, without the escape 0x05, and marks the
  label's entry as free: `LabelAfterRun` proves that a reader finds every other label that does
  not begin with NUL, and not this one.
* The size formula of the FAT overflows for the last 8160 volume lengths that the table accepts;
  `GeometryIsFat32` proves that the volume is FAT32 exactly below that.

Conditions stated in contracts: a partition of more than 66600 sectors whose data area has 32-bit
offsets; names that can be shown at all (`Readable`, which is exact, see `ReadableIsExact`), targets
not used twice, at most 998 earlier names on the counter of a generated tail (the code asserts three
digits); page-aligned addresses and no 1 GiB page where 4 KiB pages are asked for. Source files are
byte sequences, time stamps are parameters, and the firmware's answers to page requests are a
sequence fixed in advance.

`dafny verify dfyconfig.toml` checks the project.

## Model

| member | source | states |
|---|---|---|
| FatGeometry.FindSectorsPerCluster | ImageCreator/src/fat.cpp:34-72 | scanning the size table yields the row of the first entry that covers the (32-bit) sector count, or 0 |
| FatGeometry.ClusterSizes | ImageCreator/src/fat.cpp:15-41 | in bytes, as the comments of the table say: refused up to 32 MB, 512-byte clusters up to 260 MB, 4 KB up to 8 GB, then doubled with the length up to 32 KB |
| FatGeometry.ToFloatError | ImageCreator/src/fat.cpp:49-50 | rounding to a 24-bit significand moves a number by at most one part in 2^24 |
| FatGeometry.FatSizeBounds | ImageCreator/src/fat.cpp:45-51 | the FAT size computed in single precision covers all data sectors and exceeds what is needed by at most three sectors |
| FatGeometry.GeometryIsFat32 | ImageCreator/src/fat.cpp:45-72 | for every accepted length, there are at least 65525 clusters and a FAT entry for each, exactly when the length is at most 2^32 - 8161 |
| FatGeometry.ClusterOffsetsAreDistinct | ImageCreator/src/fat.cpp:539-544 | 32-bit cluster offsets are pairwise distinct exactly when the data area is at most 4 GiB |
| FatBoot.BootFields | ImageCreator/src/fat.cpp:57-98 | every numeric field of the boot sector reads back, each with its value: among them the 16-bit sizes of FAT and volume and the root-entry count, which are 0, the 32-bit sizes, root cluster 2, the sectors of the free-cluster record and of the backup, and the signature |
| FatBoot.BootTexts | ImageCreator/src/fat.cpp:60-96 | the maker, the label and the type in the boot sector, each with the NUL that the original copies along |
| FatBoot.ReservedSectors | ImageCreator/src/fat.cpp:174-184 | where the reserved sectors hold the boot sector, its record and the second boot sector; sector 6 is zero |
| FatBoot.AreaClosed | ImageCreator/src/fat.cpp:489-501 | closing puts the counters into the record, which keeps its signatures, and leaves the boot sector |
| FatBoot.BackupIsNotFound | ImageCreator/src/fat.cpp:181-196 | the sector announced as backup is no boot sector, and the sector that the second boot sector names as its record is no record |
| FatBoot.RecordReadsBack | ImageCreator/src/fat.cpp:103-114 | the free-cluster record reads back under its three signatures |
| FatBoot.RecordUpdated | ImageCreator/src/fat.cpp:494-497 | overwriting the two numbers in place keeps the signatures |
| FatClusters.AllocateFresh | ImageCreator/src/fat.cpp:507-537 | an allocation without predecessor adds one ascending chain disjoint from all others; chains still account for every cluster handed out |
| FatClusters.AllocateBehind | ImageCreator/src/fat.cpp:515-534 | an allocation behind a chain's last cluster lengthens that chain and no other |
| FatClusters.RunKeepsChains | ImageCreator/src/fat.cpp:507-537 | over every sequence of allocations, granted or refused, chains ascend, end in EOC, are disjoint and complete, the FATs are equal, and next + free is constant |
| FatClusters.ReadChainFindsChain | ImageCreator/src/fat.cpp:507-537 | the independent chain walk returns exactly the chain, so every chain is finite |
| FatClusters.FreeRecordIsExact | ImageCreator/src/fat.cpp:489-501 | the free count equals the number of zero FAT entries and the next-free number is the smallest free cluster |
| FatNames.ShortNameRoundTrip | ImageCreator/src/fat.cpp:251-326 | a name stored only in 8.3 form reads back exactly when no part ends in padding and the extension is not empty behind a dot |
| FatNames.ShortNameBytes | ImageCreator/src/fat.cpp:251-326 | the short name byte by byte: exactly when the stem is not empty and a part is too long, it ends in a tilde and digits whose decimal value is the counter; the extension is what follows the first dot |
| FatNames.LongIffCut | ImageCreator/src/fat.cpp:253-272 | a name is long exactly when its stored parts do not make up the whole of it |
| FatNames.DigitsHaveValue | ImageCreator/src/fat.cpp:295-307 | the decimal value of the digits is the counter, and they have no leading zero |
| FatNames.RotateAddTurns | ImageCreator/src/fat.cpp:328-337 | before the byte is added, the sum is turned right by one bit: its lowest bit becomes the highest |
| FatNames.ChecksumDetectsByte | ImageCreator/src/fat.cpp:328-337 | replacing one byte of a short name changes its checksum unless the byte is the same |
| FatShortNames.CounterCountsUses | ImageCreator/src/fat.cpp:286-293 | each counter in the name map is one more than the number of names that used it |
| FatShortNames.CountersShared | ImageCreator/src/fat.cpp:286-293 | two names share a counter exactly when the first six bytes of their padded stems agree ignoring case |
| FatShortNames.LowerEqual | ImageCreator/src/fat.cpp:289-291 | lower-case forms are equal exactly when, place by place, the bytes are the same or one letter in two cases |
| FatShortNames.ShortNamesEqual | ImageCreator/src/fat.cpp:284-308 | two generated names are equal ignoring case exactly when tail number, remaining stem and extension are |
| FatShortNames.LongNamesCollide | ImageCreator/src/fat.cpp:251-326 | over a run, two long names collide exactly when they use different counters at the same number of at least 10 and agree in the rest |
| FatShortNames.LongNamesAreDistinct | ImageCreator/src/fat.cpp:251-326 | while no counter is used more than nine times, generated names are pairwise distinct ignoring case |
| FatShortNames.AnyNamesCollide | ImageCreator/src/fat.cpp:251-326 | over a run, a name stored as it is equals another one, or a generated one, exactly when stem and extension are spelled alike ignoring case |
| FatShortNames.PlainNameCollides | ImageCreator/src/fat.cpp:284-324 | `aaaaaa~1` and the first long name that begins with `aaaaaa` are stored alike |
| FatShortNames.TenthNamesCollide | ImageCreator/src/fat.cpp:295-307 | a run of twenty names whose tenth and twentieth get the same short name |
| FatReader.ScanEntry | ImageCreator/src/fat.cpp:339-460 | scanning the slots of an entry adds exactly that entry: name, kind, first cluster and size; the reader computes the checksum itself and accepts a long name only if every slot carries it |
| FatReader.ReadableIsExact | ImageCreator/src/fat.cpp:339-460 | the reader gives a name back exactly when it is readable: visible, no NUL in a long name, padding survived in a short one |
| FatReader.LongSlotIs | ImageCreator/src/fat.cpp:352-436 | each slot of a long name, byte by byte: ordinal, with bit 6 on the first one on disk, attribute 0x0F, checksum, and thirteen units that are bytes of the name, then one zero, then 0xFFFF |
| FatReader.ChecksumIs | ImageCreator/src/fat.cpp:328-337 | the checksum in the slots is the one the reader computes on its own, written from the specification as a turn to the right by one bit and an addition |
| FatReader.ChecksumOfAppHello | ImageCreator/src/fat.cpp:328-337 | the checksum of `AppHel~1.exe` is 0xB2 |
| FatReader.EntryAttributes | ImageCreator/src/fat.cpp:448 | the short slot of an entry carries attribute byte 0x10 for a directory and 0x20 for a file |
| FatReader.TimesReadBack | ImageCreator/src/fat.cpp:449-455 | all time stamps of a short entry are the one it was written with; the tenths and the reserved byte are zero |
| FatReader.ScanPartialEntry | ImageCreator/src/fat.cpp:596-607 | a prefix of an entry's slots, as a full volume leaves it, lists nothing |
| FatWriter.PutSlotAppends | ImageCreator/src/fat.cpp:593-594 | writing at a directory's position appends one slot and keeps every slot in use |
| FatWriter.WriteSlotsAppends | ImageCreator/src/fat.cpp:586-610 | writing entries appends all of them, or a proper prefix when no cluster is left; nothing outside the directory's chain changes |
| FatWriter.WriteSlotsSucceeds | ImageCreator/src/fat.cpp:586-610 | entries can be written exactly when they fit in the current cluster and the free ones |
| FatWriter.StoreRunHolds | ImageCreator/src/fat.cpp:563-578 | bytes laid out in consecutive clusters are a prefix of what reading those clusters gives; other clusters are unchanged |
| FatWriter.StoreFileHolds | ImageCreator/src/fat.cpp:546-584 | a stored file has a chain of its own that holds its bytes, and all else is as before |
| FatFilesystem.FindAfterSetRaw | ImageCreator/src/fat.cpp:683-702 | updating one directory's state changes what is found at that path only |
| FatFilesystem.FindAfterAddChild | ImageCreator/src/fat.cpp:722 | registering a directory changes what is found at its path only |
| FatFilesystem.StepUsable | ImageCreator/src/fat.cpp:704-742 | every operation leaves all directory pointers inside the volume |
| FatRefinement.DeclareKeepsInv | ImageCreator/src/fat.cpp:618-623 | declaring a name appends exactly the entry's slots that fit and lists the new child in its parent if all did; a new directory's saved entry is its short slot |
| FatRefinement.FileStepKeeps | ImageCreator/src/fat.cpp:612-624 | creating a file keeps the invariant of the image and adds exactly one path to the map, or none |
| FatRefinement.DirectoryStepKeeps | ImageCreator/src/fat.cpp:626-681 | creating a directory keeps the invariant, with right dot entries, and adds exactly one path, or none |
| FatRuns.RunKeeps | ImageCreator/src/fat.cpp:704-742 | the invariant holds after every run of operations |
| FatRuns.LookupFindsModel | ImageCreator/src/fat.cpp:507-742 | on an image in order the reader finds the abstract map, path by path |
| FatRuns.ReaderFindsWhatWasCreated | ImageCreator/src/fat.cpp:507-742 | after any run from a formatted volume, the reader finds at every path exactly the directory or the bytes created there, and nothing elsewhere |
| FatRuns.DotEntriesAreRight | ImageCreator/src/fat.cpp:637-663 | after any run, the first two slots of a directory are named `.` and `..` with padding, `.` names its own first cluster and `..` its parent's, 0 for the root |
| FatRuns.FreeRecordAfterRun | ImageCreator/src/fat.cpp:489-501 | after any run the FATs are equal and the record written at close is exact |
| FatFormatted.MarksAfterRun | ImageCreator/src/fat.cpp:136-142 | after any run the two reserved FAT entries are 0x0FFFFFF8, which repeats the media byte, and 0x0FFFFFFF |
| FatFormatted.LabelAfterRun | ImageCreator/src/fat.cpp:144-163 | after any run a reader of the root directory finds the volume label, exactly when its first byte is not 0xE5 |
| FatFormatted.LabelSlotReads | ImageCreator/src/fat.cpp:147-163 | the label's entry carries its eleven bytes, attribute byte 0x08 and the time stamp, and neither cluster nor size |
| FatOwnership.ClustersAreNotShared | ImageCreator/src/fat.cpp:507-537 | after any run, the clusters the reader finds for two paths are disjoint |
| FatOwnership.NoClusterIsLost | ImageCreator/src/fat.cpp:507-742 | when no operation failed, the clusters handed out are exactly those the reader finds for the created paths |
| FatOwnership.DirectoryStateIsRight | ImageCreator/src/fat.cpp:586-681 | after any run, a directory's saved cluster is its chain's last one, only zero slots follow its position, and `self` is the short slot of its name and first cluster, in a cluster of its parent |
| FatOwnership.DirectoryHoldsLog | ImageCreator/src/fat.cpp:586-681 | after any run, reading a directory's chain gives exactly the slots appended to it in order (label or dots, then each child's entry, or the part of a refused one that fitted), then only slots not in use |
| FatCapacity.StepSucceeds | ImageCreator/src/fat.cpp:546-681 | an operation succeeds exactly when the parent exists, the name has at most 255 bytes, the content is below 4 GiB - 1 and all clusters and slots fit |
| FatCapacity.NextSucceeds | ImageCreator/src/fat.cpp:546-742 | the same for the next operation after any run |
| FatPlan.WriteSlotsBalance | ImageCreator/src/fat.cpp:586-610 | slots written, position reached and clusters taken balance |
| FatPlan.StepIsPlanned | ImageCreator/src/fat.cpp:546-681 | an operation succeeds exactly when the clusters planned for it stay within the volume |
| FatPlan.AllFit | ImageCreator/src/fat.cpp:507-742 | before anything is written: all operations of a list succeed exactly when parents precede children, names and contents are within their limits, and the clusters of all files and directories together fit |
| FatBytes.FatReadsBack | ImageCreator/src/fat.cpp:122-126 | a FAT of 32-bit entries reads back from its bytes |
| FatBytes.VolumeReadsBack | ImageCreator/src/fat.cpp:462-487 | following the boot sector's fields through the bytes of a partition gives the FATs, every cluster and the recorded counters |
| FatPaths.SplitOfJoin | ImageCreator/src/fat.cpp:688-699 | splitting at slashes undoes joining |
| FatPaths.ParseOfRender | ImageCreator/src/fat.cpp:706-712 | a destination text is cut into parent and name correctly exactly when no component holds a slash and the parent is not one empty name |
| FatPaths.JoinOfSplit | ImageCreator/src/fat.cpp:688-699 | joining at slashes undoes splitting, for every text |
| FatPaths.RenderOfParse | ImageCreator/src/fat.cpp:706-712 | a destination text is written again as it was parsed exactly when it begins with a slash and its last slash is not the second character |
| FatMemory.SpliceCluster | ImageCreator/src/fat.cpp:539-544 | a write inside one cluster's memory changes that cluster and no other |
| FatEntries.CutName | ImageCreator/src/fat.cpp:253-272 | the stem, the extension and the long-name test of a name |
| FatEntries.PutTail | ImageCreator/src/fat.cpp:295-307 | the end of the stem becomes a tilde and the decimal digits of the counter |
| FatEntries.ComputeChecksum | ImageCreator/src/fat.cpp:328-337 | the loop computes the checksum of eleven bytes that each long-name slot carries (what it is: FatReader.ChecksumIs) |
| FatEntries.PutFillAndTerminator | ImageCreator/src/fat.cpp:358-384 | the units behind the name are one NUL and then 0xFFFF |
| FatEntries.PutLastLongSlot | ImageCreator/src/fat.cpp:358-404 | the first slot in the buffer is the long-name slot with the highest ordinal, fill and terminator included |
| FatEntries.PutLongSlot | ImageCreator/src/fat.cpp:406-436 | a further slot holds thirteen characters under its ordinal; the other slots are untouched |
| FatEntries.BuildEntry | ImageCreator/src/fat.cpp:350-459 | the finished buffer is the entry's slots, in order |
| FatImage.Fat.constructor | ImageCreator/src/fat.cpp:53-199 | formatting and opening gives the formatted volume with equal FATs, the label and an empty root; the reserved sectors announce the sizes in use and an unset free-cluster record; reserved sectors, FATs and clusters fit in the partition |
| FatImage.BootIsRead | ImageCreator/src/fat.cpp:53-114 | the boot sector, read field by field as the specification says, announces a FAT32 volume of exactly the cluster size, cluster count and FAT size that were used; the FAT and volume sizes are chosen between the 16-bit and the 32-bit fields, root-directory sectors counted, and the fields that must be 0 checked |
| FatImage.PartsFit | ImageCreator/src/fat.cpp:45-51 | reserved sectors, two FATs and all clusters together do not exceed the partition |
| FatImage.Fat.BytesReadBack | ImageCreator/src/fat.cpp:462-487 | a reader of the partition's bytes gets the volume that the arrays stand for, with the counters of its record |
| FatImage.FormatTable | ImageCreator/src/fat.cpp:136-142 | a fresh FAT: two reserved entries, the root's end mark, zeros |
| FatImage.FormatDataArea | ImageCreator/src/fat.cpp:144-163 | a zero data area with the label slot in cluster 2 |
| FatImage.Fat.AllocateClusters | ImageCreator/src/fat.cpp:507-537 | in place, the allocation function: counters, both FATs, first cluster, and no change when refused |
| FatImage.LinkClusters | ImageCreator/src/fat.cpp:515-534 | the loop links a run in both FATs behind its predecessor and ends it |
| FatImage.Fat.CopyToCluster | ImageCreator/src/fat.cpp:539-544 | copying through a cluster pointer changes that part of that cluster only |
| FatImage.Fat.WriteFile | ImageCreator/src/fat.cpp:546-584 | storing a file is the specified operation; the in-code assertions hold exactly when the file is not empty |
| FatImage.Fat.FillChain | ImageCreator/src/fat.cpp:563-580 | following the FAT, the bytes go to the chain in order, multiples of the cluster size included |
| FatImage.Fat.CopyEntries | ImageCreator/src/fat.cpp:593-594 | copies entries until the cluster is full or none is left |
| FatImage.Fat.WriteDirectoryEntries | ImageCreator/src/fat.cpp:586-610 | the two loops append the entries as specified, cluster by cluster |
| FatImage.Fat.GetShortName | ImageCreator/src/fat.cpp:251-326 | the 8.3 name, the long-name flag and the updated counters |
| FatImage.Fat.GetDirectoryEntry | ImageCreator/src/fat.cpp:339-460 | the buffer holds the entry's slots; names over 255 bytes get none and change no counter |
| FatImage.Fat.SelfCluster | ImageCreator/src/fat.cpp:659-662 | reads from memory the first cluster in a directory's own entry |
| FatImage.Fat.CreateRawDirectory | ImageCreator/src/fat.cpp:626-681 | the new cluster with its dot entries, the entry in the parent and the new state, or what a refusal leaves |
| FatImage.Fat.CreateRawFile | ImageCreator/src/fat.cpp:612-624 | the stored bytes and the entry in the directory, or what a refusal leaves |
| FatImage.SplitDestination | ImageCreator/src/fat.cpp:706-712 | cuts a destination at its last slash |
| FatImage.Fat.FindDirectory | ImageCreator/src/fat.cpp:683-702 | the loop over components finds the directory at the path, or nothing |
| FatImage.Fat.CreateDirectory | ImageCreator/src/fat.cpp:704-725 | the whole state after creating a directory, for every text |
| FatImage.Fat.CreateFile | ImageCreator/src/fat.cpp:727-742 | the whole state after creating a file, for every text and content |
| FatImage.Fat.CloseFilesystem | ImageCreator/src/fat.cpp:489-501 | the record where the boot sector announces it then holds the two counters (shown exact by FatRuns.FreeRecordAfterRun); the reserved sectors are otherwise as before but for the same bytes of sector 7, and the volume is unchanged |
| FatRequests.ProperRequestsAreAllowed | ImageCreator/src/main.cpp:74-102 | readable names, distinct targets, non-empty files and, for generated tails, fewer than 999 earlier uses of the counter are enough for every operation of a run |
| FatRequests.Perform | ImageCreator/src/main.cpp:78-102 | one request is one step |
| FatRequests.CarryOut | ImageCreator/src/main.cpp:78-102 | requests are carried out in order up to the first for which there is no room, and no further |
| FatRequests.CreateImage | ImageCreator/src/main.cpp:63-105 | requests are carried out up to the first without room, all of them exactly when the plan fits a volume of the partition's length; a reader of the partition's bytes finds exactly those carried out, the volume label exactly when it does not begin with 0xE5, and the reserved FAT entries; the free-cluster record is exact if nothing failed and unset otherwise |
| PageTables.SamePage | UefiBootloader/src/paging.c:5-13 | two addresses lie in one page exactly when all four table indices agree |
| PageTables.WalkFollowsTree | UefiBootloader/src/paging.c:30-84 | on a tree of tables the processor's walk reaches exactly the tree's entries, with the access rights of all levels together |
| PageTables.MappedEntry | UefiBootloader/src/paging.c:80-81 | each entry that maps a page is read by the processor as writable, executable, out of reach for user mode, and cached |
| PageTables.GrownTree | UefiBootloader/src/paging.c:43-52 | hanging a zeroed page into an empty entry keeps the tree |
| PageTables.GrownWalk | UefiBootloader/src/paging.c:43-52 | and changes no translation and no rights |
| PageTables.LeafTree | UefiBootloader/src/paging.c:80-81 | writing a page entry keeps the tree |
| PageTables.LeafWalk | UefiBootloader/src/paging.c:80-81 | and changes the translation and the rights of that page only |
| PageTables.GigabyteTree | UefiBootloader/src/paging.c:131-132 | writing a large-page entry cuts off the tables below it and keeps the rest a tree |
| PageTables.GigabyteWalk | UefiBootloader/src/paging.c:131-132 | and changes the translation and the rights of the gigabyte below the entry only |
| Paging.PagingInit | UefiBootloader/src/paging.c:15-28 | takes one page from the firmware, zeroes it, and makes it an empty top-level table that translates nothing; nothing happens when the firmware refuses |
| Paging.AllocateZeroedPage | UefiBootloader/src/memory.c:88-102 | a granted page is zeroed and nothing else changes; a refusal changes nothing |
| Paging.PageMapper.NextTable | UefiBootloader/src/paging.c:43-52 | the table an entry leads to, allocated if the entry is empty; no translation changes |
| Paging.PageMapper.MapPage | UefiBootloader/src/paging.c:30-84 | on success one page is translated as asked, writable at every level and for supervisor mode only, and no other page's translation or rights change; it succeeds exactly when the firmware grants the missing tables; on failure no translation changes, and the tables and requests used up are stated; memory outside tables and granted pages is untouched |
| Paging.PageMapper.MapPages | UefiBootloader/src/paging.c:86-105 | the number of pages mapped is the largest for which the firmware grants one page per index prefix that is new; exactly these pages are mapped, writable at every level and for supervisor mode only, and all of them on success; translation and rights of every other address are as before; as many pages are taken; memory outside tables and granted pages is untouched |
| Paging.PageMapper.MapGigabyte | UefiBootloader/src/paging.c:107-135 | what one call changes: translation and rights of the gigabyte selected by the wrong index and nothing else; which tables remain and which request is used up |
| Paging.PageMapper.MapGigabytes | UefiBootloader/src/paging.c:137-156 | translation and rights of every address afterwards; it succeeds exactly when the firmware grants one page per second-level table that is new, and otherwise stops at the first it refuses |
| PageRanges.RangeIsMapped | UefiBootloader/src/paging.c:86-105 | each byte of the range is translated to the byte at the same offset of the physical range, writable and for supervisor mode only; addresses outside are as before |
| PageRanges.GigabyteOutcome | UefiBootloader/src/paging.c:131-154 | a gigabyte of a range is mapped as asked exactly when it is first below its top-level entry and last of the range, or not first and mapped so before |
| PageRanges.WholeRangeIsMapped | UefiBootloader/src/paging.c:137-156 | an untranslated range is mapped as asked exactly when it is empty or one gigabyte that is first below its top-level entry |
| PageRanges.TwoGigabytesAreNotMapped | UefiBootloader/src/paging.c:131-132 | two gigabytes at address 0: the first ends up at the second's page, the second unmapped |
| PageRanges.MapTwoGigabytes | UefiBootloader/src/paging.c:131-156 | the same as a run from an empty top-level table with two granted pages: the call reports success and leaves these two translations |
| PageRanges.TablesAreReached | UefiBootloader/src/paging.c:30-84 | the tables accounted for are exactly those reached by following indices |
| PageRanges.ReachedByOnePath | UefiBootloader/src/paging.c:30-84 | no table is reached along two paths |
| Crc32.TableIsByteStep | ImageCreator/src/crc32.cpp:7-265 | each of the 256 constants is the bit-by-bit step of its index |
| Crc32.TableStep | ImageCreator/src/crc32.cpp:281 | one table step equals eight bit steps |
| Crc32.ComputeCrc32 | UefiBootloader/src/crc32.c:267-289 | for every buffer, null and empty included, the loop computes the bit-by-bit CRC-32 (register and complement: Crc32.CheckValue, Crc32.Residue) |
| Crc32.CheckValue | ImageCreator/src/crc32.cpp:278-284 | the CRC of the digits 1 to 9 is 0xCBF43926 |
| Crc32.Residue | ImageCreator/src/crc32.cpp:278-284 | for every message, the register started at 0xFFFFFFFF and fed the message and the four bytes of its CRC ends at 0xDEBB20E3 |
| Crc32.LeadingZeroChangesCrc | ImageCreator/src/crc32.cpp:278-284 | a zero byte in front changes the CRC of every message |
| Crc32.RegisterIsInjective | ImageCreator/src/crc32.cpp:278-282 | feeding the same bytes keeps different register states different |
| Crc32.WindowIsInjective | ImageCreator/src/crc32.cpp:278-282 | from one state, different blocks of at most four bytes lead to different states |
| Crc32.BurstChangesCrc | ImageCreator/src/crc32.cpp:267-285 | messages of one length that differ only within four consecutive bytes have different CRCs |
| BootHeader.VerifyBootHeader | UefiBootloader/src/loader.c:226-244 | the loader's check on a copy with the checksum cleared |
| BootHeader.SealedHeaderVerifies | UefiBootloader/src/loader.c:226-244 | storing the CRC in its field makes any header pass |
| BootHeader.TamperedHeaderIsRejected | UefiBootloader/src/loader.c:233-241 | a valid header altered only within four consecutive bytes, the checksum field aside or alone, passes only if it is unchanged |
| GptLayout.LayoutIsProper | ImageCreator/src/gpt.cpp:74-102 | extents are ordered, disjoint, one padding sector apart, of the requested lengths and inside the usable area; the table takes 64 sectors per partition from sector 2 on, its copy and the secondary header lie behind the usable area, and the size ends behind that header |
| GptDisk.ComputeChecksum | ImageCreator/src/crc32.cpp:267-285 | the checksum of a buffer as a number |
| GptDisk.Disk.ConfigureDisk | ImageCreator/src/gpt.cpp:50-105 | the loop in 64-bit arithmetic computes the closed-form layout |
| GptDisk.Disk.GeneratePartitionTable | ImageCreator/src/gpt.cpp:126-158 | one entry at the start of each stride, zero bytes between the entries |
| GptDisk.Disk.CreateDisk | ImageCreator/src/gpt.cpp:179-227 | every structure lies at its planned sector, the protective MBR in sector 0 included (what a reader makes of it: GptReader.DiskIsProtected), with the checksums stored in the primary header |
| GptDisk.WritesLand | ImageCreator/src/gpt.cpp:203-220 | the five writes through the cursor do not overwrite each other; the secondary header lands on its planned sector |
| GptReader.HeaderFields | ImageCreator/src/gpt.cpp:160-177 | every field of a header reads back, with signature, revision, size and stride as numbers; reserved bytes and the rest of the sector are zero |
| GptReader.EntryInRegion | ImageCreator/src/gpt.cpp:142-158 | reading at the stride gives each partition's entry |
| GptReader.NameReadsBack | ImageCreator/src/gpt.cpp:135-137 | a name in 16-bit characters followed by zeros reads back |
| GptReader.EntryFields | ImageCreator/src/gpt.cpp:126-140 | type, identifier, first and last sector, the attribute bit of a required partition and the first 32 characters of the name read back from an entry |
| GptReader.ChecksDependOnArray | ImageCreator/src/gpt.cpp:189-201 | on any finished disk the primary header passes exactly when the table, cut as the checksum routine sees it, has the checksum of the whole table |
| GptReader.DiskAnnounces | ImageCreator/src/gpt.cpp:160-212 | whatever the checksums, the primary header announces the planned positions, its entries describe every partition, and the backup table is a copy |
| GptReader.PrimaryHeaderVerifies | ImageCreator/src/gpt.cpp:179-208 | below 131072 partitions both checksums of the primary header are right, and the disk announces what was planned |
| GptReader.WriteDisk | ImageCreator/src/main.cpp:59-61 | planning and writing give a disk with every structure in place, a protective MBR, both headers announcing what was planned (below 2^32 partitions), and zero bytes in the usable area, for any number of partitions; the reader accepts it below 131072 |
| GptReader.DiskIsProtected | ImageCreator/src/gpt.cpp:107-124 | a reader of sector 0 finds 55 AA, one record of type 0xEE that starts at sector 1 and claims 0xFFFFFFFF sectors, and three empty records |
| GptReader.SecondaryHeaderChecks | ImageCreator/src/gpt.cpp:214-220 | the secondary header announces its own sector, the primary one as alternate, the usable area, and the first table, not its copy; it passes exactly when the primary header does and its own checksum happens to be 0 |
| GptLimits.WindowChangesChecksum | ImageCreator/src/crc32.cpp:267-285 | byte sequences that differ only within four consecutive places have different checksums |
| GptLimits.NotBothVerify | ImageCreator/src/gpt.cpp:187-201 | from 131072 partitions on, of two disks that differ only in the first four bytes of the last identifier at most one passes the reader's checks |
| GptLimits.ExactLimit | ImageCreator/src/gpt.cpp:187-201 | all disks of n partitions verify exactly when n is below 131072, for every n that fits on a disk |
| GptLimits.SecondariesNotBothVerify | ImageCreator/src/gpt.cpp:214-220 | of two disks with the same partitions that differ only in the first four bytes of the disk's identifier at most one has a secondary header that passes |
| GptDisk.NothingBetween | ImageCreator/src/gpt.cpp:203-220 | the writes leave the usable area zero |
| GptDisk.Disk.GetPartition | ImageCreator/src/gpt.cpp:229-241 | the first partition of a name, once the disk is written |
| DiskImage.FillKeepsDisk | ImageCreator/src/fat.cpp:122-132 | writing an extent of the usable area leaves headers, checksums and both tables as they were |
| DiskImage.NextIsMade | ImageCreator/src/main.cpp:63-105 | making one file system leaves those made before, the disk's structures and the partitions not yet used |
| DiskImage.WhatIsRead | ImageCreator/src/main.cpp:59-105 | starting from nothing but the file, the reader finds in each finished partition exactly what was asked for |
| DiskImage.CreateDiskImage | ImageCreator/src/main.cpp:56-107 | the main program: all file systems are made exactly when each names a partition and fits in it; otherwise it stops at the first that does not, with the items before the failing one in place; unused partitions stay zero, the protective MBR stays in place, and below 131072 partitions the reader finds every finished one |
| Runtime.AssignAddresses | UefiBootloader/src/runtime.c:20-36 | the loop assigns each runtime descriptor its address, leaves everything else, and counts them |
| Runtime.RuntimeIsTopBit | UefiBootloader/src/runtime.c:32 | a descriptor is chosen exactly when its 64-bit attribute is at least 2^63 |
| Runtime.CountIsSize | UefiBootloader/src/runtime.c:32-36 | the count is the number of places whose descriptor is chosen |
| Runtime.SwitchToVirtualAddressingMode | UefiBootloader/src/runtime.c:11-52 | base and count are reported exactly when the firmware accepts the map |
| Runtime.ConsecutiveIffFits | UefiBootloader/src/runtime.c:30-35 | ranges follow each other without wrap-around exactly when their total fits above the base |
| Runtime.RangesTile | UefiBootloader/src/runtime.c:26-36 | when they fit, they tile the addresses from the base to the base plus the total, without gap or overlap |
| CommitBitmap.DumpBursts | HalDbg/hal_vmm.py:96-119 | the bursts cover the bits in order, neighbours differ, each bit has its burst's value; reading behind the buffer raises an error after the bursts so far |
| CommitBitmap.ByteFromBits | HalDbg/hal_vmm.py:109-111 | bits are taken from the least significant one up: each byte is the sum of its eight bits times 1, 2, 4, ..., 128 |
| CommitBitmap.ExpandGivesBits | HalDbg/hal_vmm.py:109-117 | expanding the bursts gives back every bit |
| CommitBitmap.BurstsAreUnique | HalDbg/hal_vmm.py:109-117 | the bursts are the only such decomposition, so they are the maximal runs |

## Left out

- Host files, `mmap`, JSON and UTF conversion: sources are byte sequences, the mapped image is an array, texts are bytes.
- Clocks: time stamps are parameters with two opaque 16-bit fields.
- FatImage.Fat.PartitionBytes: the original's structures are parts of one mapped file, here they are separate arrays; this function says how they lie side by side, and `DiskImage` writes these bytes into the file when the file system is finished, not while it grows.
- DiskImage.CreateDiskImage: each file system has a partition of its own, since formatting relies on zero bytes; volume labels, which the original derives from partition names by UTF conversion, are parameters.
- FatImage.Fat.constructor: volumes whose data area exceeds 4 GiB are excluded, because there the 32-bit cluster offset makes two clusters share an address (`ClusterOffsetsAreDistinct` is exact).
- FatImage.Fat.FindDirectory: the returned pointer is modelled by the directory's state and its path; the tree of directories is a value that the caller writes back.
- FatImage.Fat.CreateFile: after the assertion on an empty file the original stops; the model also says what memory holds then.
- FatRuns.ReaderFindsWhatWasCreated: targets are distinct, since a second entry with the same name would hide behind the first; lookup is case-sensitive.
- FatEntries.BuildEntry: bytes above 127 are stored as the original does, one unit per byte, not as UTF-16.
- Paging.PageMapper.MapPage: addresses below a 1 GiB page are excluded, because the original then takes the page for a table.
- Paging.PageMapper.MapGigabyte: the physical address is a multiple of 1 GiB, since other bits of a large-page entry are reserved.
- The firmware's page allocator: it grants pages that are aligned, inside memory, below 4 GiB and not in use, or refuses.
- GptReader.DiskAnnounces: fewer than 2^32 partitions, as many as the header can count; names hold no NUL character, where a reader would stop.
- The disk identifier, which the original never sets, and the conversion of identifier texts: identifiers are parameters.
- Runtime.AssignAddresses: descriptors are an array of records; the stride between them in the firmware's buffer is not modelled.
- CommitBitmap.DumpBursts: bursts are bit numbers; the addresses printed for them are the numbers times the page size above the reservation's start.
- UEFI console, graphics, file loading, the memory map's retrieval, ACPI headers, `HAL9000.py`, `ConfigGen` and the rest of `HalDbg`.
