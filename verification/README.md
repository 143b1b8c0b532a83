# Verification of the CarlOS storage, memory and loader code

This project models the stateful core of the kernel in Dafny 4.11 and proves what that code is
for: a FAT16 volume that a `mkdir` may be interrupted in at any sector write, a page allocator and
heap that never hand the same byte to two owners, two ELF loaders that put the right byte at every
address, path text that means the same before and after it is rewritten, and two small
calculations (GPT lookup, timer ticks) with exact results.

`dafny verify dfyconfig.toml` checks everything.

## What is modelled

**The FAT16 volume.** `Disk` is a medium of 512-byte sectors whose reads and writes may fail at any
time; it keeps the history of every image it has held, so "the power fails after some sector write"
is a statement about that history. `FatVolume` gives an image its meaning (FAT copies as tables of
cells, root region, clusters of sectors) and settles all sector and byte arithmetic. `FatTree`
defines chains, live entries, path lookup as a fold over the components, the volume invariant
`WellFormedVolume`, and `Keeps`: every chain, file and findable name of one volume is still there in
another. The driver's code is in `FatMount`, `DirIter`, `FatStat` (reading), `FatWrite`,
`FatStages`, `FatMkdir`, `FatMkdirPath` (writing) and `FatRead` (file contents), as methods over the
disk, each proved against those definitions. `FatSteps`, `FatInsert`, `FatTreeChange`, `FatCrash`,
`FatLongParent`, `FatUnreserved`, `FatRun` and `FatShipped` hold the theorems about single writes,
whole calls, crashes and runs, and the concrete volumes where a promise fails.

The catalog that accompanies a volume (which chains are live, which of them are directories, and the
one place each directory is entered from) is ghost: the code never computes it. The code never reads
how many clusters the medium really has; that figure, and everything else `fat16_mount` does not
check, is the predicate `FatVolume.Laid`.

**The memory stack.** `Heapsort`, `PageList` and `Pmm` are the page allocator over its sorted array.
`Ownership` is a ledger that gives every page exactly one use; `Kmem.Heap` is the kernel heap, with
its headers in a word memory, and each of its methods moves the ledger and keeps it sound. `Elf`,
`Reloc`, `ExecElf` and `BootElf` are the two loaders over a common meaning of "loaded".
`FsFile` and `Exec` compose file system, heap and loader into `fs_read_file` and `exec_run_path`.

**Text.** `Names83` (8.3 names), `Path83` (`norm_path83`), `PathAbs` (`path_normalize_abs`),
`FsLayer` (the `fs_*` calls that use them).

**Two compact pieces.** `Guid` and `Gpt`; `Hpet`. (`Bytes` and `Arith` are the arithmetic underneath.)

**Formats.** What the code reads from bytes is also stated apart from the reader: every boot sector,
directory slot, ELF file header, program header, dynamic entry and relocation, GPT header and GPT
entry, written down field by field and little-endian, is read back as what it says (the lemmas named
`...Layout`), and names and paths are compared by letter case and separator without the code's own
folding (`Names83.EncodeFoldsCase`, `FatStat.ResolveAlike`).

Buffers are arrays rewritten in place, loops are loops, and the source's objects (`Disk`, `Fat16`,
`FatDirIter`, the allocator, the heap, the timer) are classes. Values the source passes through
64-bit sums are wrapped where the wrap can be reached, and excluded by a named precondition where
the code would leave its own buffers (`ExecElf.Tame`, `BootElf.Sane`).

## Where code and promise differ

Each of these is the code as it stands; the members named state the exact condition.

- `fat16_read_file_by_clus` never moves on to the next cluster. It is right, whatever the clusters
  hold, exactly when the range stays inside the cluster it starts in
  (`FatShipped.ShippedIsRightExactly`; `FatRead.ShippedAcrossClusters` is a two-cluster file).
  `FatRead.ReadFile` is the loop with the missing step, and the calls built on file contents use it.
- `split_parent_leaf` cuts the parent text at 127 characters, and nothing then tests that the leaf
  is unused in the directory of what is left. The new entry goes into the first free slot; if the
  leaf was in use behind that slot, an old path leads to the new directory afterwards.
  `FatLongParent.LongParentShadows` is a volume and a path of 131 characters for it.
  `FatMkdirPath.Mkdir` proves, for every path and under any faults, that a successful `mkdir` keeps
  all earlier paths exactly when `SparesAll` holds, which a caller can test beforehand: the leaf is
  unused in the directory its parent text resolves to, or found before the first free slot, or
  starts with byte 0xE5. With a parent text of at most 127 characters and no fault it always holds
  (`FatMkdirPath.ParentFitsExactly`). The same condition covers a read fault during the test
  whether the path exists, which reads as "does not exist".
- `fat16_mount` accepts a reserved sector count of 0. The FAT then begins in the boot sector: cell 7
  is the count itself and so always free to take, and marking a free cell keeps the geometry exactly
  if it is none of 5, 7 and 9 (`FatMount.UnreservedIsLost`). `FatUnreserved` has a medium where the
  first `mkdir` of any name succeeds and leaves one that no longer mounts
  (`FatUnreserved.MkdirUnmounts`). With a reserved sector, the boot sector is outside what the driver ever writes
  (`FatMount.BootIsOutside`, both directions), so every image since the mount mounts again to the
  same geometry (`FatMount.MountsAgain`, `FatCrash.SurvivorMounts`).
- `fat_next_clus` does not test that the FAT has a cell for the cluster; beyond its end the link is
  whatever word lies there (`FatMount.Fat16.NextClus`).
- A leaf starting with byte 0xE5 makes `mkdir` report success, but its slot reads as deleted: the
  tree is unchanged and a cluster is lost (the first case of `FatMkdir.Landed`).
- A failed `mkdir` may leave clusters allocated, because the name is encoded after the allocation;
  but it never changes the tree (`FatMkdirPath.Mkdir`). Only a disk error between linking a cluster
  to a full parent and zeroing it can leave the invariant broken: then zeros in that cluster are all
  that it lacks (`FatStages.Pending`). A parent that is reached through ".." of a
  top-level directory has cluster 0, and `mkdir` under it fails after allocating.
- The name encoder makes ".." components resolve only by accident of the decoder: the theorem about
  the whole tree is about components other than "." and "..".
- Decoding undoes encoding except for names with spaces or with an empty extension after the dot
  (`Names83.DecodeEncode`).
- `norm_path83` keeps the components exactly when their canonical text fits (`Path83.NormKeepsComponents`).
- `fs_listdir` returns 1 for a missing path, as for a directory with one entry, and rejects "//"
  while it lists "/" (`FsLayer.ListDir`).
- `path_normalize_abs` can cut a component down to "..", which a second call then resolves
  (`PathAbs.CutToDots`); it is idempotent exactly when the stack it keeps, names cut to the
  buffer's budget, does not end in such a name (`PathAbs.Idempotent`), so whenever the result leaves
  the buffer unfilled.
- `kfree` tells a page-backed block by the word 32 bytes before it, which for a small block belongs
  to someone else. `Kmem.Heap.Kfree` says what happens either way: the heap stays sound if that word
  is not the magic number, and if it is, exactly when the run named there has base 0 or an unaligned
  base, is free already as a whole, or the free list is full.
  `Kmem.StaleHeader` is a run of five allocations, with a header left from an earlier block, after
  which two pages are free and in use. A file of at most 4064 bytes is read into such a block, which
  is never given back (`FsFile.ReadWhole`, `Exec.RunPath`).
- `pmm_free_page_phys` does not notice a page that is free, or one that someone else holds; the list
  or the heap is sound afterwards exactly as `Pmm.Pmm.FreePage` and `Kmem.Heap.FreeStray` say. The
  interface for programs passes any address on (`Exec.RunApp`).
- `kmalloc` of a size within 32 bytes of 2^64 gets a block that is too small (`Kmem.BigPagesFit`).
- `exec_elf_load_pie` stores image base plus addend, which is what the ABI asks for exactly when
  the lowest segment is at address 0 (`Reloc.MeetsAbi`).
- `Elf64LoadKernel` tests the entry inside the growing loop, so it accepts exactly the files whose
  entry lies in the first segment with memory (`BootElf.Measure`).
- `part_gpt_find_by_partuuid` computes its sector count in 32 bits, so a table of nearly 2^32
  entries is not looked at (`Gpt.ScansAll`); entry sizes that do not divide a sector are looked up
  at other places than index times size (`Gpt.FlatPlace`).

## Model

| member | source | states |
|---|---|---|
| `FatMount.Mount` | Kernel/src/fat16.c:206-252 | the code of the first check that fails, else the regions laid out from the boot sector; the driver's assumptions hold of them exactly when `Handled` does |
| `FatMount.BootLayout` | Kernel/src/fat16.c:218-239 | for every boot sector with its parameters little-endian in their places: the regions those parameters describe, one behind the other, and the code of the first of five checks that fails |
| `FatMount.Fat16.NextClus` | Kernel/src/fat16.c:64-101 | for every cluster number: the link of copy 0, or of copy 1 where copy 0 reads zero; beyond the table the word that lies there; a fault shows as an error or as a zero link |
| `FatMount.BootIsOutside` | Kernel/src/fat16.c:231-246 | the boot sector lies outside the driver's regions exactly when there is a reserved sector |
| `FatMount.MountsAgain` | Kernel/src/fat16.c:206-252 | with a reserved sector, every image since a mount mounts again, to the same geometry |
| `FatMount.UnreservedIsLost` | Kernel/src/fat16.c:225-238 | without one, cell 7 lies in the boot sector and reads as free, and marking a free cell of that sector leaves a medium that mounts to the same geometry exactly if it is none of 5, 7 and 9 |
| `FatUnreserved.MediumMounts` | Kernel/src/fat16.c:206-252 | a concrete medium without a reserved sector mounts, and the driver's assumptions hold of it |
| `FatUnreserved.MkdirUnmounts` | Kernel/src/fat16.c:736-799 | on it, the mkdir of any encodable name succeeds unless a disk error occurs, and when it has succeeded the medium no longer mounts |
| `FatVolume.ViewAfterFatWrite` | Kernel/src/fat16.c:516-538 | rewriting the sector of one cell of one copy changes that cell of that copy and nothing else of the volume |
| `FatVolume.ViewAfterDataWrite` | Kernel/src/fat16.c:53-56 | the sector address of a cluster belongs to that cluster alone: writing it changes one sector of one cluster |
| `FatTree.ChainIsAcyclic` | Kernel/src/fat16.c:103-106 | a chain that reaches its end mark visits no cluster twice, so every chain walk ends |
| `FatTree.ChainIsUnique` | Kernel/src/fat16.c:64-106 | the first cluster determines the chain |
| `FatTree.EndMarks` | Kernel/src/fat16.c:103-106 | a cluster is a chain by itself exactly if its link is one of the eight end marks 0xFFF8 to 0xFFFF |
| `FatTree.SlotLayout` | Kernel/src/fat16.c:34-47 | a 32-byte slot is read as an entry exactly when it holds name, attribute, cluster and 32-bit size in their places, little-endian, whatever its other bytes are |
| `FatTree.AttrBits` | Kernel/src/fat16.c:49-51 | bit 3 of the attribute marks the volume label and bit 4 a directory |
| `FatTree.ListedExactly` | Kernel/src/fat16.c:282-318 | a directory shows exactly the entries that its live slots ahead of the first 0x00 hold |
| `FatTree.KeptPathResolves` | Kernel/src/fat16.c:379-445 | if one volume keeps another, every path that resolved still resolves, to the same entry |
| `FatTree.KeptFileBytes` | Kernel/src/fat16.c:447-508 | and a file's chain still leads to the same sectors |
| `DirIter.FatDirIter.Root` | Kernel/src/fat16.c:179-187 | an iterator over all slots of the root region |
| `DirIter.FatDirIter.Sub` | Kernel/src/fat16.c:189-198 | an iterator over all slots of a chain of clusters, or over none for cluster 0, 1 or an end mark |
| `DirIter.FatDirIter.LoadSector` | Kernel/src/fat16.c:170-177 | the sector of the next slot is in the buffer, across calls and region ends, and no slot is lost |
| `DirIter.FatDirIter.GetNext` | Kernel/src/fat16.c:259-328 | the entry returned followed by what is left is what was left before: exactly the live entries up to the first 0x00, once and in order; a slot ahead holds its name, attribute, cluster and size byte for byte; the end is reported only when none is left |
| `Names83.MakeName11` | Kernel/src/fat16.c:108-140 | the padded upper-case name, or the code for a stem or extension that is too long |
| `Names83.Name11ToName83` | Kernel/src/fat16.c:142-168 | the two fields up to their first space, joined by a dot if the extension is not blank, NUL-terminated within 13 bytes |
| `Names83.DecodeEncode` | Kernel/src/fat16.c:108-168 | decoding an encoded component gives its upper-cased text exactly when it has no space and does not end in its first dot |
| `Names83.EncodeDecode` | Kernel/src/fat16.c:108-168 | encoding a decoded name gives it back exactly when the 11 bytes are well formed |
| `Names83.KeyIsInjective` | Kernel/src/fat16.c:358-365 | on well-formed names the case-blind text comparison decides the raw 11 bytes |
| `Names83.EncodeIgnoresCase` | Kernel/src/fat16.c:108-140 | a component and its upper-cased text encode alike |
| `Names83.Letters` | Kernel/src/fat16.c:30-31 | the letters a to z become A to Z and no other byte changes; "/" and "\\" separate and no other byte does |
| `Names83.EncodeFoldsCase` | Kernel/src/fat16.c:108-140 | no byte of an encoded name lies in 0x61 to 0x7A, and components that differ in the case of letters alone encode alike |
| `Names83.AlikeIsUpper` | Kernel/src/fat16.c:31 | two components have the same upper-cased text exactly when they differ in the case of letters alone |
| `FatStat.LookupIsByName` | Kernel/src/fat16.c:345-372 | in a directory of well-formed names and the two dot names, what a well-formed target finds is the first entry with exactly its 11 bytes, and nothing is found exactly when there is none; the one target that finds other bytes than its own is ".." |
| `FatStat.SameName` | Kernel/src/fat16.c:358-364 | the byte loop decides equality of the two C strings ignoring case |
| `FatStat.FindInDir` | Kernel/src/fat16.c:330-377 | the first live entry whose printed name matches, "not found" only if there is none, an error only after a read fault |
| `FatStat.StatPath` | Kernel/src/fat16.c:379-445 | the left fold of directory lookup over the components: same entry, or the same code, unless a read failed |
| `FatStat.ResolveAlike` | Kernel/src/fat16.c:379-445 | two path texts that differ in the case of letters, or in which of the two separators they use, lead to the same entry or fail alike |
| `FatStat.WellFormedTravels` | Kernel/src/fat16.c:422-434 | on a well-formed volume every directory a lookup passes through is a live chain, so each step can be read |
| `FatWrite.SetFatEntry` | Kernel/src/fat16.c:516-538 | copies are written in order: at any stop the first n copies hold the new cell and the rest of every copy is as before; 0 is returned exactly without faults |
| `FatWrite.AllocClus` | Kernel/src/fat16.c:540-578 | the lowest cluster from 2 on that reads zero in copy 0, marked as end of chain in every copy; nothing is written exactly when there is none, and without faults that gives -3 |
| `FatWrite.WriteDirent` | Kernel/src/fat16.c:620-629 | one slot of one sector is replaced, in one write, or nothing happens |
| `FatWrite.FindFreeRoot` | Kernel/src/fat16.c:631-656 | the first slot of the root region that is unused or deleted; without faults, -10 exactly if every slot is taken |
| `FatWrite.FindFreeChain` | Kernel/src/fat16.c:658-696 | the first such slot along the chain, or the chain's last cluster if every slot is taken |
| `FatInsert.NewDirEntries` | Kernel/src/fat16.c:698-734 | the bytes of a new directory's cluster list exactly "." and "..", and nothing after them |
| `FatInsert.DirSlotLayout` | Kernel/src/fat16.c:778-783 | the 32 bytes of a new directory's entry: name, attribute 0x10, cluster, size 0, and zeros everywhere else |
| `FatInsert.FilledSlots` | Kernel/src/fat16.c:648-649 | filling the first free slot adds one entry to the listing where the slot is and disturbs no other; the end mark stays an end mark |
| `FatInsert.FilledLookup` | Kernel/src/fat16.c:645-649 | after a slot is filled its own name finds what it found before if that is spared, and the new entry otherwise; every other name finds what it found |
| `FatInsert.InsertedLookup` | Kernel/src/fat16.c:330-377 | after the insertion the new name finds the new entry and every other name finds what it found |
| `FatInsert.InsertStep` | Kernel/src/fat16.c:786-798 | writing the entry of an initialised cluster restores the whole volume invariant, with one directory more |
| `FatInsert.DeadInsertStep` | Kernel/src/fat16.c:645-649 | a name starting with 0xE5 leaves every listing as it was |
| `FatSteps.AllocStep` | Kernel/src/fat16.c:524-535 | marking a free cell in the first n copies, for every n, keeps the invariant, all listings and all files |
| `FatSteps.ScratchStep` | Kernel/src/fat16.c:719-731 | rewriting a cluster no chain owns keeps the invariant, all listings and all files |
| `FatSteps.LinkStep` | Kernel/src/fat16.c:806-808 | linking the extension cluster in before it is zeroed, in the first n copies, for every n, loses no path and no file |
| `FatSteps.LinkDone` | Kernel/src/fat16.c:810-817 | once it is zeroed the invariant holds again and no listing has changed |
| `FatStages.InitDirCluster` | Kernel/src/fat16.c:698-734 | the cluster holds the new directory's bytes; every image on the way differs only in that cluster |
| `FatStages.NewDirCluster` | Kernel/src/fat16.c:764-771 | success exactly with a free cluster and no fault, -3 for want of a cluster; however far it gets, the tree is as before and at most one free cluster is taken |
| `FatMkdir.LinkAndZero` | Kernel/src/fat16.c:806-817 | every image between the first link write and the last zeroed sector still holds every path and file, and lacks nothing of the invariant but the zeros of that cluster |
| `FatMkdir.ExtendDir` | Kernel/src/fat16.c:801-817 | a full parent gets one zeroed cluster whose first slot is its first free one, with the invariant restored; a failure leaves tree and invariant as they were unless it was torn after the first link write |
| `FatMkdir.PutEntry` | Kernel/src/fat16.c:786-797 | the last write turns the volume into one with the new directory, or nothing is written |
| `FatMkdirPath.SplitParentLeaf` | Kernel/src/fat16.c:580-614 | parent and leaf texts, cut to their buffers; refused exactly for an empty leaf, with -2 or -3 by whether there is a separator |
| `FatMkdirPath.SplitComponents` | Kernel/src/fat16.c:580-614 | if both fit, the components of the path are those of the parent followed by the leaf |
| `FatMkdirPath.ParentFitsExactly` | Kernel/src/fat16.c:602-605 | the parent text is used whole exactly up to 127 characters, and then a mkdir that can succeed spares every earlier path |
| `FatLongParent.LongParentShadows` | Kernel/src/fat16.c:602-605 | a medium that mounts, its well-formed volume and a path of 131 characters that `fs_mkdir` hands on unchanged, whose mkdir can succeed, is not spared, and makes an old path lead to the new directory |
| `FatMkdirPath.Mkdir` | Kernel/src/fat16.c:736-823 | for every path, faults or not: every image but the last holds all earlier paths and files, in a volume that satisfies the invariant or lacks only the zeros of a cluster just linked, both FAT copies in step, at most two free clusters taken; on failure the last one too, and unless the run was torn between link and zeroing, tree and invariant are as they were; on success the invariant holds with one directory more, and the last image holds all earlier paths exactly when `SparesAll`; without faults it succeeds exactly when `CanMkdir`, and its code is `MkdirCode`, which says which refusal comes first |
| `FatMkdirPath.MkdirCodes` | Kernel/src/fat16.c:741-808 | each code of a mkdir without faults, both ways: -2 exactly if the path resolves; else -3 exactly for an empty leaf or when no cluster is left for the directory or a full parent; -4 if the parent's text does not resolve, -5 if it is a file, -6 for a leaf that cannot be encoded, -10 for a full root, -11 for a parent whose cluster is below 2, 0 exactly when `CanMkdir` |
| `FatTreeChange.PathToDirIsUnique` | Kernel/src/fat16.c:379-445 | on a well-formed volume two plain paths to one directory are the same path up to case |
| `FatTreeChange.MkdirTree` | Kernel/src/fat16.c:773-823 | after the insertion every plain path resolves as before, except that the new path finds the new directory and nothing lies beyond it |
| `FatCrash.SurvivorServes` | Kernel/src/fat16.c:764-821 | on any image that survives, read with the geometry in use, every earlier path leads to the same entry, and files have the same sectors |
| `FatCrash.SurvivorMounts` | Kernel/src/fat16.c:206-252 | with a reserved sector, mounting that image succeeds, gives a geometry the driver handles, and shows exactly this |
| `FatCrash.MkdirSeen` | Kernel/src/fat16.c:736-823 | a finished mkdir seen through any plain path text: the new directory there, elsewhere what was there before |
| `FatRun.BlankIsWellFormed` | Kernel/src/fat16.c:282-301 | a formatted volume satisfies the whole invariant and lists nothing |
| `FatRun.BlankTakesAny` | Kernel/src/fat16.c:736-791 | in a formatted volume with a free cluster, any encodable name can be made a directory |
| `FatRun.FsMkdir` | Kernel/src/fs.c:295-304 | everything `Mkdir` guarantees, for the normalised text; unless torn, the invariant holds afterwards, errors or not, and every path is kept if it fails or spares all; without faults the code is `MkdirCode` of the normalised text, so it succeeds exactly when it can |
| `FatRun.MkdirAll` | Kernel/src/fs.c:295-304 | a run of calls through disk errors, up to one that is torn: each does its step; if all steps are harmless, whatever a path led to at one point it leads to at every later one, and every image the medium has held, after any sector write of any step, holds all the start held; with parents that fit, a step is harmless unless it both meets an error and succeeds |
| `FatRun.RunKeeps` | Kernel/src/fs.c:295-304 | at every point of such a run the invariant holds, and between two points whose steps are harmless every path, file and chain is kept |
| `FatRead.ReadFile` | Kernel/src/fat16.c:447-508 | with the step to the next cluster: exactly bytes [offset, offset + size) of the chain; failure without a fault only if the chain is too short or broken, with the code that says whether it ends (-4, -7) or breaks (-5, -8), before the range or in it |
| `FatRead.RangeSplits` | Kernel/src/fs.c:264-293 | reading a range in two consecutive pieces gives the bytes of reading it at once |
| `FatRead.ReadFileShipped` | Kernel/src/fat16.c:447-508 | as shipped: the start cluster over and over from the start offset on, and where that fails, with the same codes |
| `FatRead.ShippedWithinCluster` | Kernel/src/fat16.c:476-500 | within one cluster the shipped loop delivers the range |
| `FatRead.ShippedAcrossClusters` | Kernel/src/fat16.c:502-506 | on a file of two clusters it does not |
| `FatRead.TwoClustersIsMounted` | Kernel/src/fat16.c:206-252 | that file lies on a medium that mounts |
| `FatShipped.ShippedIsRightExactly` | Kernel/src/fat16.c:476-506 | it delivers the range whatever the clusters hold exactly when the range stays in the cluster it starts in |
| `FatShipped.ChainsDoNotLoop` | Kernel/src/fat16.c:103-106 | no cluster of a chain links to itself, so that theorem covers every file |
| `Path83.NormPath83` | Kernel/src/fs.c:41-69 | the in-place loop delivers the specified text, NUL-terminated within any capacity |
| `Path83.NormIdempotent` | Kernel/src/fs.c:41-69 | normalising twice is normalising once, for every text and capacity |
| `Path83.NormKeepsComponents` | Kernel/src/fs.c:41-69 | the upper-cased components come through exactly when their canonical text fits |
| `Path83.NormRenders` | Kernel/src/fs.c:41-69 | with room, the result is the canonical rendering of the upper-cased components |
| `Path83.ResolveNorm` | Kernel/src/fs.c:357-375 | lookup of the normalised text is lookup of the raw text: same code, cluster, attributes and size |
| `FsLayer.Stat` | Kernel/src/fs.c:357-375 | kind and size of what the raw path resolves to, or its code; a live slot of the volume holds that entry, its four size bytes included |
| `FsLayer.FileRange` | Kernel/src/fs.c:281-288 | any range inside a catalogued file's size is there on its chain and is that part of the file's bytes |
| `FsLayer.ReadFileAt` | Kernel/src/fs.c:264-293 | the file's bytes from the offset on, as many as asked for or left by the size that a live slot of the volume holds; each refusal has its cause |
| `FsLayer.ListDir` | Kernel/src/fs.c:306-355 | for any callback: of the entries but "." and "..", in order, the longest beginning it refuses none of, and their number |
| `FsLayer.TakenAll` | Kernel/src/kapi.c:63-66 | for a callback that refuses nothing that is every entry, and for one with room for `max` the first `max` |
| `FsFile.ReadWhole` | Kernel/src/fs.c:225-262 | the block holds the file's bytes, all of them, and so does memory; on every other way out the heap is as it was but for the block of a file of at most 4064 bytes |
| `Heapsort.SiftDown` | Kernel/src/pmm.c:53-65 | the heap property is extended by one place and only elements below the end are permuted; no index leaves the array |
| `Heapsort.HeapSort` | Kernel/src/pmm.c:67-80 | an ascending permutation for every length, 0 and 1 included |
| `Pmm.MapPagesAre` | Kernel/src/pmm.c:125-148 | on aligned descriptors that do not overlap, the pages collected are exactly the conventional ones at or above 16 MiB outside the three reserved ranges, each once |
| `Pmm.Pmm.Init` | Kernel/src/pmm.c:101-152 | nothing without a valid record and a map; else, with the ranges the record gives reserved, an ascending permutation of the pages collected, cut at 131072 in map order; a strictly ascending list of aligned pages on a good map |
| `Pmm.InitExact` | Kernel/src/pmm.c:101-152 | if they all fit, the free pages are exactly the usable conventional ones |
| `Pmm.FreeExactly` | Kernel/src/pmm.c:101-148 | in bytes and numbers: a page counts exactly if a descriptor of type 7 covers it, it is at or above 16 MiB, and it shares no byte with kernel, map or the record's address |
| `Pmm.Pmm.AllocPage` | Kernel/src/pmm.c:154-159 | the highest free page leaves the list, 0 exactly for the empty list |
| `Pmm.Pmm.InsertSorted` | Kernel/src/pmm.c:83-99 | binary search finds the place that keeps the order; a full list drops the page |
| `Pmm.Pmm.FreePage` | Kernel/src/pmm.c:161-166 | a page that was not free is free again; the list stays proper exactly if nothing is inserted, or a page other than 0 that is not in it |
| `Pmm.Pmm.AllocContig` | Kernel/src/pmm.c:173-204 | the lowest base whose whole run is free, with exactly that run removed; 0 exactly when no run of that length is free |
| `Pmm.Pmm.FreeContig` | Kernel/src/pmm.c:206-249 | the run joins the free pages, pages already free are skipped, and the list stays proper whatever is freed; it adds nothing exactly if the whole run is free already or the list is full |
| `PageList.RunIsConsecutive` | Kernel/src/pmm.c:183-189 | in a strictly ascending aligned list a run that is present stands at consecutive places, so looking at neighbours misses none |
| `Ownership.OneUse` | Kernel/src/pmm.c:101-152 | every collected page has exactly one use |
| `Ownership.BlocksApart` | Kernel/src/kmem.c:36-82 | live blocks are 16-byte aligned, lie in pages in use and are pairwise disjoint |
| `Ownership.TakeBigKeeps` | Kernel/src/kmem.c:41-42 | an idle run that becomes a block leaves a sound ledger with exactly that run no longer idle |
| `Ownership.GiveBigKeeps` | Kernel/src/kmem.c:86-96 | a block given back leaves a sound ledger with exactly its run idle again |
| `Kmem.BigPagesFit` | Kernel/src/kmem.c:36-39 | the rounded-up block holds header and size exactly below 2^64 - 32; where the count wraps to zero nothing is allocated |
| `Kmem.Headroom` | Kernel/src/pmm.c:83-84 | pages put back that are not idle always have room: the overflow branches are unreachable |
| `Kmem.Heap.constructor` | Kernel/src/kmem.c:19-22 | an initialised page allocator gives a sound heap that owns all its pages |
| `Kmem.Heap.Kmalloc` | Kernel/src/kmem.c:58-82 | a new block of its own from the bump page, a fresh page or an idle run; 0 exactly when none of these is there |
| `Kmem.Heap.Kfree` | Kernel/src/kmem.c:86-96 | a page-backed block gives back exactly its pages, each once; a small block stays if the word before it is not the magic number, and if it is, the heap stays sound exactly when the run named there is not one of pages, is free already, or the list is full |
| `Kmem.StaleHeader` | Kernel/src/kmem.c:58-96 | two pages, a page-backed block freed and four small ones: freeing the last puts both pages into the free list while they are in use |
| `Kmem.Heap.GivePage` | Kernel/src/pmm.c:161-166 | a page given back by its holder is idle again, in the list exactly once |
| `Kmem.Heap.FreeStray` | Kernel/src/pmm.c:161-166 | a page given back by someone who does not hold it leaves the heap sound exactly if the address is 0 or the list is full |
| `Kmem.Heap.Store` | Kernel/src/kmem.c:46-51 | a word written inside a live block or a page one holds leaves every header intact |
| `Kmem.Heap.StoreBytes` | Kernel/src/kmem.c:46-51 | bytes written to a live block, up to its last, are what memory holds there; no other word changes, and every header stays intact |
| `Elf.OverlayIsUnique` | Kernel/src/exec_elf.c:114-125 | the overlay meaning fixes every byte, whatever range it is seen through |
| `Elf.CopySegment` | Kernel/src/exec_elf.c:124 | copying one segment extends the overlay by that segment and writes nothing outside the image |
| `Elf.EhdrLayout` | Kernel/src/exec_elf.c:10-27 | every 64-byte file header, its fields one after another and little-endian, is read as what it says |
| `Elf.PhdrLayout` | Kernel/src/exec_elf.c:29-38 | so is every 56-byte program header, wherever in the file it lies |
| `ExecElf.HeaderCodes` | Kernel/src/exec_elf.c:71-91 | the refusals -11 to -18 by the header's fields, in order |
| `ExecElf.FileLayout` | Kernel/src/exec_elf.c:88-124 | for every file laid out as header and table, the segments, the dynamic header and the entry are those its fields name |
| `ExecElf.Measure` | Kernel/src/exec_elf.c:93-107 | the exact span of the segments with memory; -19 exactly if one lies outside the file, -20 exactly if there is none |
| `ExecElf.Overlay` | Kernel/src/exec_elf.c:114-125 | each image byte is the file byte of the last segment covering it with file data, else 0; -22 exactly if some file part sticks out |
| `ExecElf.TwoLoads` | Kernel/src/exec_elf.c:71-173 | two successful loads of one file have the same span, overlay and place of entry; the images are the same without a relocation table, and if the targets miss the table they differ at targets only, by the distance of their bases |
| `ExecElf.LoadPie` | Kernel/src/exec_elf.c:71-173 | on success the overlay, linked at an aligned base inside its own block, in memory too, with the entry inside; the result is the code of the earliest trouble, linking being refused at the base the block really gives; on failure the heap is as it was; memory changes in the block's header and the image's place alone |
| `ExecElf.LoadSpares` | Kernel/src/exec_elf.c:109-125 | the image ends a header's length before its block's pages do, so the word before a small block is never one the loader writes |
| `Reloc.ScanDynamic` | Kernel/src/exec_elf.c:134-139 | the last value of each tag before the closing entry |
| `Reloc.DynLayout` | Kernel/src/exec_elf.c:40-43 | a dynamic entry, two little-endian words, is read as its tag and value |
| `Reloc.RelaLayout` | Kernel/src/exec_elf.c:45-49 | every 24-byte relocation, wherever it lies, is read as its offset, its type from the low half of the second word, and its addend |
| `Reloc.OneRelocation` | Kernel/src/exec_elf.c:127-159 | an image given byte for byte, at any lowest address and base: one entry of type 8 stores base plus addend in the eight bytes it points to and nowhere else, one of another type nothing |
| `Reloc.Relocate` | Kernel/src/exec_elf.c:147-159 | the entries are applied in order, each read from the image as it then is, or the run stops at the first target outside |
| `Reloc.OnlyTargets` | Kernel/src/exec_elf.c:150-159 | if targets miss the table, no byte but those of the targets changes |
| `Reloc.TargetHolds` | Kernel/src/exec_elf.c:157-158 | a target no later entry touches holds base plus addend |
| `Reloc.PositionIndependent` | Kernel/src/exec_elf.c:127-159 | at two bases the images agree off the targets, and settled targets differ by the distance of the bases |
| `Reloc.MeetsAbi` | Kernel/src/exec_elf.c:155-158 | the stored word is the ABI's exactly when the lowest segment address is 0 |
| `BootElf.InBounds` | CarlPkg/Boot/uefi_elf.c:44-46 | the test without a sum means offset + size <= limit, for all sizes |
| `BootElf.HeaderStatuses` | CarlPkg/Boot/uefi_elf.c:53-81 | which headers are refused, and how, by their fields |
| `BootElf.FileLayout` | CarlPkg/Boot/uefi_elf.c:83-141 | for every file laid out as header and table, the segments go to their physical addresses, or to the virtual one where that is 0 |
| `BootElf.Measure` | CarlPkg/Boot/uefi_elf.c:83-114 | accepted are exactly the files whose sized segments are in order and whose entry lies in the first of them |
| `BootElf.LoadKernel` | CarlPkg/Boot/uefi_elf.c:48-146 | whole pages around the segments hold the overlay, no other memory changes, and the entry is inside; the status is that of the first step that fails, and then nothing changes |
| `BootElf.BothLoadersAgree` | CarlPkg/Boot/uefi_elf.c:131-146 | where both loaders place the segments alike, bytes that stand for one address are equal |
| `Exec.RunApp` | Kernel/src/kapi.c:44-52 | whatever sequence of page calls a program makes, exactly the pages it still holds are missing, up to the first call that gives back a page it does not hold and makes the heap unsound |
| `Exec.RunPath` | Kernel/src/exec.c:28-87 | unless the program gives back a page it does not hold: on every way out the heap is the heap before but for the pages the program kept and, for a file of at most 4064 bytes, its block; else, with none kept, free pages and blocks are exactly as found; a program is entered only in its own file's loaded image, and if none is entered the code says why, in terms of the ledger with the file's and the image's real blocks |
| `PathAbs.NormalizeAbs` | Kernel/src/path.c:5-74 | the in-place rewriting delivers the specified text, NUL-terminated, for every capacity |
| `PathAbs.NormAbsIsClean` | Kernel/src/path.c:19-73 | for every capacity from 2 on the result fits, is rooted, and has no doubled or trailing slash |
| `PathAbs.NormAbsIsBudget` | Kernel/src/path.c:29-67 | for every path and capacity the result is the rendering of a stack machine with a budget of characters; all names but the last are whole, and if the last was cut to a dot name the buffer is full |
| `PathAbs.NormAbsRenders` | Kernel/src/path.c:29-67 | with room, the result is the rendering of the stack that pushes names, skips "." and pops at ".." |
| `PathAbs.AbsoluteHasRoom` | Kernel/src/path.c:13-17 | a text that starts with a separator never needs more room than its own length |
| `PathAbs.FixedPoints` | Kernel/src/path.c:5-74 | a text that fits is left alone exactly when it is canonical |
| `PathAbs.Idempotent` | Kernel/src/path.c:5-74 | idempotent exactly when that machine does not end with a name cut to "." or ".."; so on every path with room, and wherever the result leaves the buffer unfilled |
| `PathAbs.CutToDots` | Kernel/src/path.c:58-60 | a path and capacity for which it is not |
| `Guid.GuidParse` | Kernel/src/part_gpt.c:91-129 | the raw bytes, or the code of the first deviation in hyphen, digit or tail |
| `Guid.ParseInvertsPrint` | Kernel/src/part_gpt.c:91-129 | a text is accepted as r exactly when, but for an opening brace, it prints r in either case and ends or has a closing brace there |
| `Gpt.FindByPartuuid` | Kernel/src/part_gpt.c:138-202 | the first used entry in index order with that identifier, its extent, or the code of what went wrong |
| `Gpt.HeaderLayout` | Kernel/src/part_gpt.c:145-160 | every header sector, its fields little-endian in their places, is read as what it says, and the code is that of the first of four checks that fails |
| `Gpt.EntryLayout` | Kernel/src/part_gpt.c:181-195 | every entry matches by its second identifier unless the first is all zero; it starts at its first sector and ends with its last, and is broken exactly if they are the wrong way round |
| `Gpt.ReportedExtent` | Kernel/src/part_gpt.c:190-195 | so what the search reports is the extent that the bytes of the entry found give |
| `Gpt.ScanSector` | Kernel/src/part_gpt.c:175-198 | the entries of one sector continue the search without gap or repetition |
| `Gpt.SlotIsFlat` | Kernel/src/part_gpt.c:166-180 | for sizes 128, 256 and 512 the entry looked at is the one at byte index * size of the table |
| `Gpt.FlatPlace` | Kernel/src/part_gpt.c:166-180 | for other sizes that is so exactly for the entries of the first sector |
| `Gpt.ScansAll` | Kernel/src/part_gpt.c:169 | all entries are looked at exactly when the rounded-up count does not wrap |
| `Hpet.RemaindersFit` | Kernel/src/hpet.c:96-102 | no remainder overflows exactly up to 18446744074 Hz |
| `Hpet.SplitIsExact` | Kernel/src/hpet.c:96-103 | whenever the result is in range, the 64-bit split form is floor(ticks * 10^9 / hz) |
| `Hpet.Monotone` | Kernel/src/hpet.c:90-104 | more ticks never give fewer nanoseconds |
| `Hpet.DriftIsBounded` | Kernel/src/hpet.c:65-104 | against true time T from the period, floor(T) <= result <= T + T/hz |
| `Hpet.Timer.InitFromAcpi` | Kernel/src/hpet.c:47-88 | success exactly with a table in memory space, an address and a period; the frequency is the period's, and the zero-frequency code is unreachable |
| `Hpet.Timer.NowNs` | Kernel/src/hpet.c:90-104 | 0 before initialisation, then the split form with its exactness and drift bound |

## Left out

- Device registers and CPU state (AHCI, PCI, PIC, PIT, UART, keyboard, IDT/GDT, assembly stubs): `Disk` stands for everything below `disk_read` and `disk_write`, with faults at any call; the test for 512-byte sectors is built in.
- The UEFI boot flow except `Elf64LoadKernel`; `AllocatePages` is a status the firmware chooses, with success only for memory that exists.
- Shell, `kapi` (apart from its page calls), console, logging, ACPI table walking, MBR parsing, `fs_mount_esp`, `fs_mount_root`, the older `fs_list_dir`.
- Null-pointer checks: every argument is there. Argument codes for them are not modelled.
- Timestamps, long file names, clusters marked bad, FAT32, concurrent or interrupt-time calls.
- Addresses are unbounded numbers: page addresses and sector numbers near 2^64 are not wrapped.
- FatMount.Mount: takes the true number of data clusters as a parameter, since the driver never learns it.
- FatWrite.AllocClus: for at most 256 sectors per FAT copy; beyond that the source would cut the cluster number to 16 bits.
- FatRead.ReadFile: has the step to the next cluster that the source lacks; the source's own loop is `FatRead.ReadFileShipped`.
- FsLayer.ReadFileAt: uses the read loop with that step, as do `FsFile.ReadWhole` and `Exec.RunPath`.
- FatMkdirPath.Mkdir: the result `torn` is added; the source returns the write's code alone.
- FatRun.MkdirAll: ends at a torn step, one that a disk error stops between linking a cluster and zeroing it; what later calls make of such a directory is not followed.
- FatTreeChange.MkdirTree: for components other than "." and "..".
- FsFile.ReadWhole: uses the read loop with the added step; for a file of at most 4064 bytes, needs that the word before the place of the next small block is not the magic number; without that, giving the block back after a read fault can free pages in use.
- Kmem.Heap.Kfree: pointers below 32, which `kmalloc` never returns, are not modelled.
- Kmem.Heap.Store: writes are whole aligned words; `Kmem.Heap.StoreBytes` covers bytes, from an aligned address on. What a program writes to its own memory is not modelled.
- Pmm.Pmm.Init: takes the memory map as a list of descriptors, and the kernel's bounds as numbers.
- Pmm.Pmm.FreePage: after a page is listed twice the list is not followed further.
- ExecElf.Measure: segments whose 64-bit sums wrap are excluded, since the source would then read outside the file.
- ExecElf.Overlay: the same.
- ExecElf.HeaderCodes: for a table of program headers whose end does not wrap at 64 bits, as `ExecElf.FileLayout` and `ExecElf.LoadPie`.
- ExecElf.LoadPie: files whose 64-bit sums wrap, whose dynamic section is never closed inside the image, or with file bytes in a segment without memory are excluded by `Tame`.
- BootElf.Measure: segments whose rounded end wraps, or with file bytes but no memory, are excluded by `Sane`.
- BootElf.LoadKernel: the same; the second bounds check is shown to be redundant rather than modelled as a branch.
- Exec.RunApp: the account of a program ends with the first call that gives back a page it does not hold; the source does not notice it and goes on.
- Exec.RunPath: the file is one the loader's preconditions admit, and a small one as `FsFile.ReadWhole` needs it; the account ends where that of `Exec.RunApp` does; `kapi_set_cwd` and the console are left out, and the program is a sequence of page calls with an exit code.
- Gpt.FindByPartuuid: sector numbers are not wrapped at 2^64.
