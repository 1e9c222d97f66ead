# rasOS: memory, program loading and storage

rasOS is a small 32-bit x86 kernel written in C. This project models the parts of it that stack one table-driven
mechanism on another, and proves what the upper layers owe to the lower ones.

* **Heap** (`BlockTable`, `Heap`, `Kernel`): a first-fit allocator of 4 KiB blocks over a table with one byte a block,
  and zeroed allocations on top of it.
* **Address spaces** (`AddressSpaces`, `Paging`, `Chunks`): two-level page tables that live in heap blocks. Table
  pointers are recovered by masking directory entries, which is sound because blocks are page-aligned and disjoint. Each
  address space refines a flat map from 2^20 pages to entries.
* **Tasks and programs** (`Strings`, `Tasks`, `TaskSpaces`, `Loader`, `Processes`, `Programs`, `LoadRuns`, `Images`, `Elf`):
  making and freeing a task's address space, copying a string out of it through a scratch page, and loading any number
  of programs, down to the words of their headers.
* **Storage** (`Disk`, `Fat16`, `FatFiles`, `FatExamples`): reading bytes sector by sector, and a file as the contents of
  its chain of clusters.
* **Paths** (`Paths`, `PathParser`, `PathLists`, `PathTrees`): a path parsed into a linked list of heap blocks.
* **Keyboard** (`Keyboard`) and **segment descriptors** (`Gdt`).

Physical memory is one sequence of 2^30 words (`Memory`). Heap blocks, page tables, task records, path nodes, strings and
program images all lie in it, so that every store has to be shown to miss everything else. Page frames are written as
numbers, addresses as 32-bit values that wrap. `Machine` holds the memory, the heap, the directory that the processor
walks and, as ghost state, the address spaces in use.

Where the code departs from what it evidently means to do, the code is modelled as it is. The exact condition under which
it does what it means is proved, and the meant form is stated next to it under a name of its own:

* Freeing clears an entry before looking at its HAS_NEXT bit, so it always frees one block (`ReleaseUndoesTakeIff`,
  `FreeStrands`; meant form `ReleaseMeant`, `MeantRunSafe`).
* A chunk of a file read is bounded by the size of a cluster, not by what is left of it (`ReadIsFile`,
  `MidClusterReadGoesWrong`; meant form `MeantPositions`, `MeantReadIsFile`, `MeantReadGivesContents`).
* Reading a FAT chain tests for the marks of the 12-bit format (`WalkFollowsChain`, `WalkPassesEnd`,
  `ReadBehindEndSucceeds`).
* Reading a file does not move its position (`ReadTwice`, `SecondReadFollowsIff`).
* Reading from an empty keyboard buffer moves the head, and storing into a full one overwrites (`HoldsThroughoutIff`,
  `EmptyReadDelays`).
* Backspace does not undo a character whose storing wrapped the tail around (`BackspaceUndoesIff`).
* A virtual base of 0 counts as unset while the bounds of an image are collected (`BaseIsLeastIff`).
* A path whose first name is empty loses its root block (`Outcome`, case `Lost`, and `NoPathIff`).
* A program with a segment that is not accepted keeps its stack block allocated (`Outcome`, case `Refused`, and
  `EndsIff` for when this happens; `RefusedExample` is such a program).
* Program headers of every kind are mapped, although only those to load are meant to be (compare src/task/process.c:111-127
  with src/loader/formats/elfloader.c:107-116). Where their pages overlap, the last header with a page decides where it
  leads and whether it is writable (`SegmentsMap`, `LoadedProgram`, and `BytesInPlace` for when a segment is still seen as
  the file has it).

Layouts and encodings that both the code and its specification go by are fixed on their own, in the terms of the format:
words of memory for page tables, program headers and path nodes, positions on the disk for sectors and clusters, bits for
descriptors and block entries, with literal examples next to them.

Names follow the source where it has one (`FirstFit` is the specification of `GetStartBlock`, `Take` of
`MarkBlocksTaken`). A method that changes state is proved against a function of the old state; the lemmas beside it say
what that function means.

## Model

| member | source | states |
|---|---|---|
| `BlockTable.FirstFitLeast` | src/memory/heap/heap.c:65-88 | first fit is the least start of a free run of n >= 1 blocks; it fails exactly when there is none, and always for n = 0 |
| `BlockTable.EntryBits` | src/memory/heap/heap.h:8-19 | the entry of a block: 0x41 alone, 0xc1 as the first of several, 0x81 in the middle, 0x01 as the last; 0 when free |
| `BlockTable.ReleaseUndoesTakeIff` | src/memory/heap/heap.c:131-139 | freeing as written restores the table exactly when the allocation is one block |
| `BlockTable.FreeStrands` | src/memory/heap/heap.c:131-139 | freeing an n-block extent as written frees one block and strands n - 1 |
| `BlockTable.ReleaseMeantUndoesTake` | src/memory/heap/heap.c:131-139 | with the bit tested before the entry is cleared, freeing undoes every allocation entry for entry |
| `BlockTable.TakeDescribes` | src/memory/heap/heap.c:90-121 | handing out a free run keeps the table in step with the live extents: disjoint, inside the arena, FIRST on the first block alone, HAS_NEXT on all but the last |
| `BlockTable.ReleaseDescribes` | src/memory/heap/heap.c:131-143 | freeing a live extent as written keeps that, with the rest of the extent stranded |
| `BlockTable.ReleaseMeantDescribes` | src/memory/heap/heap.c:131-143 | freeing as meant keeps it with nothing stranded |
| `BlockTable.FirstIffLive` | src/memory/heap/heap.c:93-104 | an entry shows FIRST exactly when a live extent starts there |
| `BlockTable.Conservation` | src/memory/heap/heap.c:90-139 | free blocks, blocks of live extents and stranded blocks add up to the whole arena |
| `BlockTable.RunSafe` | src/memory/heap/heap.c:65-143 | both hold in every state of every run of allocations and frees of live extents |
| `BlockTable.MeantRunSafe` | src/memory/heap/heap.c:65-143 | in every run that frees as meant nothing is ever stranded: each block is free or live |
| `Heap.BlocksForCapacity` | src/memory/heap/heap.c:55-63 | a size that rounds to at least one block gets room for all its bytes and less than a block more; the sizes that give none are 0 and those whose rounding wraps |
| `Heap.AddressBlockInverse` | src/memory/heap/heap.c:17-23 | block to address and address to block are inverse exactly on the blocks of the first 2 GiB of the arena |
| `Heap.AddressInsideBlock` | src/memory/heap/heap.c:17-19 | an address anywhere in the first 2 GiB of the arena leads to its block |
| `Heap.Heap.Create` | src/memory/heap/heap.c:27-51 | a misaligned arena is refused with the table untouched; otherwise the heap is the fresh one |
| `Heap.Heap.GetStartBlock` | src/memory/heap/heap.c:65-88 | the one-pass search with its counter finds what first fit finds |
| `Heap.Heap.MarkBlocksTaken` | src/memory/heap/heap.c:90-105 | the entries of the run become those of an extent; all others stay |
| `Heap.Heap.MallocBlocks` | src/memory/heap/heap.c:107-121 | the first fit is handed out, or nothing changes |
| `Heap.Heap.Malloc` | src/memory/heap/heap.c:123-127 | the same for a size in bytes; a result that is not null has room for the size |
| `Heap.Heap.MarkBlocksFree` | src/memory/heap/heap.c:131-139 | the first block of a live extent is free again, the others are stranded |
| `Heap.Heap.FreeExtent` | src/memory/heap/heap.c:141-143 | the same by address |
| `Kernel.Machine.Memset` | src/memory/memory.c:3-9 | exactly the given bytes are filled |
| `Kernel.Machine.Kzalloc` | src/memory/heap/kheap.c:22-29 | the first fit for the size, zeroed, with no byte outside its own extent touched; null and nothing changed when there is none |
| `Kernel.Machine.KzallocOne` | src/memory/heap/kheap.c:22-29 | an allocation of up to one block succeeds while a block is free, in the first free one |
| `Kernel.Machine.Kfree` | src/memory/heap/kheap.c:31-33 | the first block of the allocation is free again and no other entry changes |
| `AddressSpaces.DirectoryPointsToTable` | src/memory/paging/paging.c:70-75 | masking a directory entry gives back the address of its table |
| `AddressSpaces.TranslateWords` | src/memory/paging/paging.c:44-79 | the walk in words of memory: the ten highest bits of an address select the directory entry, the next ten the table entry, the twelve lowest are kept |
| `AddressSpaces.StoreMaps` | src/memory/paging/paging.c:58-79 | a store through the masked pointer sets the entry of the named page: the flat map changes there and nowhere else, and memory in one word |
| `AddressSpaces.OnlyTablesApart` | src/memory/paging/paging.c:58-79 | a change confined to the tables of one address space leaves every other address space as it was |
| `AddressSpaces.UpdatesRefineFlatMaps` | src/memory/paging/paging.c:58-79 | over all sequences of entry writes to any number of address spaces in one memory, each refines its own flat map |
| `AddressSpaces.UpdatesLeaveOtherFrames` | src/memory/paging/paging.c:58-79 | a frame that is a table of none of them, directories and heap blocks included, keeps its contents over all such sequences |
| `Paging.AlignmentBounds` | src/memory/paging/paging.c:94-100 | aligning gives the nearest page boundary below and above, and 0 past the last page |
| `Paging.GetIndexes` | src/memory/paging/paging.c:44-53 | the two indexes of an aligned address name its page; an unaligned one is refused |
| `Paging.Set` | src/memory/paging/paging.c:58-79 | exactly the named page of the flat map changes, by one word of memory; an unaligned address changes nothing |
| `Paging.GetTableEntry` | src/memory/paging/paging.c:149-156 | the entry of the flat map; for an unaligned address that of page 0 |
| `Paging.Map` | src/memory/paging/paging.c:102-108 | the page gets the frame and the flags, by one word of memory, or nothing changes |
| `Paging.PerformAll` | src/memory/paging/paging.c:58-108 | any sequence of set and map calls on any number of address spaces leaves memory as after their updates alone, and each still refines its own flat map |
| `Paging.MapRange` | src/memory/paging/paging.c:110-122 | count pages are mapped one after the other, addresses wrapping; an unaligned range changes nothing |
| `Paging.MapTo` | src/memory/paging/paging.c:123-147 | all or nothing: the whole range is mapped exactly when all three addresses are aligned and in order |
| `Paging.MapPagesAt` | src/memory/paging/paging.c:110-122 | a range in closed form for every length: the pages less than count steps from the start, around the end of memory, map as many steps from the frame, and no other page changes |
| `Paging.DistanceUnique` | src/memory/paging/paging.c:116-117 | the pages of a range of at most 2^20 pages are distinct, even when it wraps |
| `Chunks.FillTable` | src/memory/paging/paging.c:15-19 | the inner loop writes the identity entries of one table and touches nothing else |
| `Chunks.BuildTables` | src/memory/paging/paging.c:13-22 | 1024 distinct tables in blocks that were free, all entries the identity, each linked into the directory |
| `Chunks.New4gb` | src/memory/paging/paging.c:10-27 | with 1026 free blocks: every page of the fresh address space maps to itself with the flags, and exactly 1026 free blocks were taken |
| `Chunks.Free4gb` | src/memory/paging/paging.c:81-92 | exactly the 1026 blocks of the address space become free |
| `Chunks.MapAll` | src/memory/paging/paging.c:123-147 | any number of map calls alters no directory entry and no record |
| `Chunks.Lifecycle` | src/memory/paging/paging.c:10-92 | building an address space, mapping anything into it, and freeing it restores the block table entry for entry |
| `Strings.CStringAt` | src/string/string.c:77-88 | the string seen at a virtual address: its bytes are the ones before the first NUL, cut at the limit |
| `Strings.CStringOf` | src/string/string.c:77-88 | a memory that shows given bytes and then a NUL shows that string |
| `Strings.Strncpy` | src/string/string.c:77-88 | under the address space in use the destination gets the string and a NUL, and no other byte changes |
| `Tasks.Switch` | src/memory/paging/paging.c:29-32 | the processor walks the directory that the record names |
| `Tasks.FetchString` | src/task/task.c:176-188 | save, overwrite, copy, restore: the scratch frame holds the string and the task's whole flat map is as before |
| `Tasks.CopyStringFromTask` | src/task/task.c:162-196 | the caller gets the NUL-terminated string, at most max - 1 bytes, as the task saw it before; every address space, the block table and all memory but the destination and the free scratch frame are as before; each error leaves everything unchanged. Excluded are sources at the scratch page, in the scratch frame or in the one table word that is rewritten meanwhile |
| `Tasks.ScratchPageHidesString` | src/task/task.c:168-180 | why the scratch page and frame must hold no source: a string at that page, or reached in that frame through any other page, is taken to be empty |
| `Tasks.GetStackItem` | src/task/task.c:199-208 | with the pages of the word present, the value whose bytes are those seen from the address at the index above the stack pointer on, low one first; with an aligned stack pointer the word of memory there; and the kernel's directory is back in use |
| `Tasks.SeenWordIs` | src/task/task.c:204 | the value seen at any address has the four bytes seen there in order, and at an aligned one is the word of memory behind it |
| `TaskSpaces.TaskNew` | src/task/task.c:43-74 | a record and a fresh read-only identity address space in blocks that were free; all other address spaces and all frames in use are as before |
| `TaskSpaces.TaskFree` | src/task/task.c:96-103 | the blocks of the address space and of the record become free, the other address spaces stay in order |
| `TaskSpaces.TaskRoundTrip` | src/task/task.c:43-103 | making a task and freeing it restores the block table |
| `Loader.SegmentMaps` | src/task/process.c:118-123 | a segment whose address and offset agree within a page, and which does not run over the end of memory, is accepted and maps exactly its own pages, if it has any |
| `Loader.AcceptedIff` | src/task/process.c:118-123 | a segment is refused exactly when its last page ends, after wrapping, before its first one starts |
| `Loader.SegmentsAcceptedIff` | src/task/process.c:111-127 | mapping the segments succeeds exactly when none of them is refused |
| `Loader.RefusedExample` | src/task/process.c:118-126 | a concrete image that is refused: a segment of 4080 MiB whose end wraps to 0 |
| `Loader.SegmentsMap` | src/task/process.c:106-129 | every well-formed image is accepted, whether or not its headers overlap; each page has the entry of the last header that has it, and a page of no header keeps its entry |
| `Loader.SegmentByte` | src/task/process.c:106-129 | in the flat map of a loaded program a byte of a segment is where the image has it exactly when the last header with its page has the same distance from file to memory; that header decides whether it is writable |
| `Loader.CoveredByte` | src/task/process.c:106-129 | every byte on a page of a header is as far from the header's address as in the file, by the last header with that page, and writable exactly when that one has PF_W |
| `Loader.DisjointCovering` | src/task/process.c:111-127 | when no two headers share a page, the header that decides about a page is the one that has it |
| `Loader.StackByte` | src/task/process.c:227-232 | and every byte of the stack area is in the stack block, writable |
| `Loader.OtherPage` | src/task/process.c:106-129 | and every page of no header keeps its identity entry |
| `Processes.SameHeaders` | src/loader/formats/elfloader.c:47-57 | the program headers of a file that is not changed are not changed |
| `Processes.MapElf` | src/task/process.c:106-129 | the segments are mapped in order up to the first that is not accepted, whose error is the result; mapping never alters the headers that are still to be read |
| `Processes.MapSegmentTo` | src/task/process.c:112-123 | one segment, with the write flag exactly when PF_W is set |
| `Processes.AllocStack` | src/task/process.c:169-173 | four blocks in a row, zeroed, at the first fit; nothing changes without them |
| `Processes.MakeProcess` | src/task/process.c:169-179 | the stack block and the task, disturbing nothing; without four free blocks in a row nothing at all, however few are free |
| `Processes.Abandon` | src/task/process.c:194-201 | freeing the task leaves the table as it was after the stack was allocated |
| `Processes.MapStack` | src/task/process.c:227-232 | the stack is mapped and nothing else of the load changes |
| `Programs.Load` | src/task/process.c:146-235 | the outcome of loading: nothing changed, or only the stack block left behind, or the program mapped; always with every older address space and every frame in use as before. Free blocks for a task are asked for only when there is room for a stack |
| `Programs.EndsIff` | src/task/process.c:169-201 | when which: without memory exactly when there are no four free blocks in a row, refused with the stack block left behind exactly when there are but some segment runs over, and ready otherwise |
| `Programs.WellFormedAccepted` | src/task/process.c:106-129 | a well-formed image, its headers overlapping or not, is never refused: loading it fails only without four free blocks in a row |
| `Programs.SegmentsInPlace` | src/task/process.c:106-129 | the processor's walk of the task's tables translates every address on a page of a header as the last header with that page says, for user code, writable exactly when that one has PF_W |
| `Programs.StackInPlace` | src/task/process.c:227-232 | and every byte of [0x3fb000, 0x3ff000) to the stack block, writable by user code |
| `Programs.RestInPlace` | src/task/process.c:106-129 | and every address outside of headers and stack to itself, for user code to read but not to write |
| `Programs.BytesInPlace` | src/task/process.c:106-129 | byte k of segment i is translated to its place in the image, and reads as the image did before loading, exactly when the last header with its page has the same distance from file to memory |
| `Programs.LoadedProgram` | src/task/process.c:106-235 | put together: loading a well-formed image succeeds whenever there is room for a stack; then the walk of the new task's tables translates every address on a page of a header by the last header with that page and with its access, every stack byte to the stack block and every other page to itself, the file keeps its bytes, and nothing else is disturbed |
| `Programs.DisjointInPlace` | src/task/process.c:106-129 | in a loaded program whose headers share no page every byte of every segment is translated to its place in the image, reads as before loading, and is writable exactly when its own segment has PF_W |
| `Images.HeaderWords` | src/loader/formats/elf.h:42-118 | the headers that the loader reads from an aligned file: e_phoff is its word 7, e_phnum the low half of word 11, headers are 8 words apart, with p_offset, p_vaddr, p_filesz and p_flags in words 1, 2, 4 and 6 |
| `Images.SegmentSeen` | src/task/process.c:111-127 | in a loaded program whose headers share no page, every byte of the segment that eight words describe is seen at its address where the file has it, unchanged, and can be written by user code exactly when bit 1 of the flags word is set |
| `Images.AccessBits` | src/memory/paging/paging.h:12-14 | what two entries allow, by their bits 0, 1 and 2 |
| `Images.CoveredValue` | src/task/process.c:111-123 | the table entry of a page of a header as a number: the frame as far from the file's as the page from the header's first, plus 7 with PF_W and 5 without |
| `Images.StackValue` | src/task/process.c:227-232 | the entries of the pages 0x3fb to 0x3fe: the stack block's frames plus 7 |
| `Images.OtherValue` | src/task/process.c:106-129 | the entries of all other pages: their own address plus 5 |
| `Images.ExampleHeaders` | src/loader/formats/elf.h:109-118 | the headers of a concrete file, read-only code and writable data, given by its words |
| `Images.ExampleLoaded` | src/task/process.c:106-129 | and its page table entries around its segments after loading |
| `LoadRuns.RunKeeps` | src/task/process.c:146-235 | in every run of loads, however they end, and allocations in between, each state keeps every flat map and every frame in use of every earlier one, and no address space or block in use is lost |
| `LoadRuns.ProgramsStayReady` | src/task/process.c:146-235 | so every program of a well-formed image that was loaded is in place, as in `Programs.LoadedProgram`, in every later state of the run |
| `Programs.MapBinary` | src/task/process.c:95-104 | a flat binary is mapped at 0x400000 or, when it runs over the end of memory, silently not at all; the result is 0 either way |
| `Programs.BinaryByte` | src/task/process.c:95-104 | every byte of a mapped binary is seen from 0x400000 on, writable |
| `Programs.BinaryExtent` | src/task/process.c:95-104 | and it has as many pages as its bytes need |
| `Elf.ElfFile.ProcessLoad` | src/loader/formats/elfloader.c:92-105 | the four bounds after one segment |
| `Elf.ElfFile.ProcessHeaders` | src/loader/formats/elfloader.c:107-129 | the bounds over all headers to load: the virtual ones as below, the physical ones those of segments with these virtual bounds |
| `Elf.EndIsGreatest` | src/loader/formats/elfloader.c:98-102 | the virtual end is the greatest of the ends, as 32-bit sums, of all segments of type 1 |
| `Elf.BaseIsLeastIff` | src/loader/formats/elfloader.c:93-96 | the virtual base is the least start exactly when no segment starts at 0 or the last one does |
| `Disk.DiskStream.Seek` | src/disk/streamer.c:18-21 | the position is set |
| `Disk.DiskStream.ReadBlock` | src/disk/disk.c:51-57 | one sector of the system disk; another disk is refused |
| `Disk.DiskStream.ReadPart` | src/disk/streamer.c:23-43 | the part of a read in the current sector, and whether to go on |
| `Disk.DiskStream.Read` | src/disk/streamer.c:23-48 | reading ends for every position and length; the buffer gets exactly the disk's bytes from the position on, over any number of sectors, and the position moves on by as many |
| `Fat16.FileSystem.GetFatEntry` | src/fs/fat/fat16.c:273-296 | the two bytes of the entry, low one first |
| `Fat16.FileSystem.GetClusterForOffset` | src/fs/fat/fat16.c:391-428 | the cluster as many links on as the offset has whole clusters, or an error at the first rejected entry |
| `Fat16.FileSystem.ReadFromStream` | src/fs/fat/fat16.c:430-463 | the buffer gets the bytes at the positions of the read, up to a cluster that is not found; the result says whether one was not |
| `Fat16.FileSystem.Read` | src/fs/fat/fat16.c:593-611 | the items are read one after the other from the file's position, which stays, starting with the cluster in the low half of the entry's number; the result is their number or the error of the first that fails |
| `Fat16.FileSystem.GetTotalItems` | src/fs/fat/fat16.c:159-193 | the entries before the one that starts with 0, without those that start with 0xe5 |
| `Fat16.Resolve` | src/fs/fat/fat16.c:302-383 | a disk is mounted exactly when its header has the signature, as the volume whose root directory lies behind the reserved sectors and the copies of the table and whose data area follows it, its size rounded down to sectors |
| `Fat16.LayoutInOrder` | src/fs/fat/fat16.c:255-307 | where things are on a mounted disk: behind the reserved sectors all copies of the table, each right behind the one before, then the root directory of 32-byte entries, and cluster 2 where it ends |
| `Fat16.FirstClusterStart` | src/fs/fat/fat16.c:255-258 | cluster 2 starts where the root directory ends; with `Fat16.NextClusterStart` this fixes every cluster |
| `FatExamples.KernelFileRead` | src/boot/boot.asm:19-37 | with the boot sector of the kernel, two tables and 200 reserved sectors, the root directory is at sector 712 and the data at 716, and reading a file of clusters 2 and 5 returns the bytes of sectors 716 and 1100 |
| `Fat16.CountIsNumberInUse` | src/fs/fat/fat16.c:172-189 | that count is the number of entries in use |
| `Fat16.NextClusterStart` | src/fs/fat/fat16.c:255-258 | a cluster starts where another ends exactly when its number is the next |
| `Fat16.ReadResultRange` | src/fs/fat/fat16.c:430-463 | a read that finds all its clusters reads all its bytes |
| `FatFiles.WalkFollowsChain` | src/fs/fat/fat16.c:391-428 | following the table gives the n-th cluster of a chain exactly when no link up to it is one of the rejected values |
| `FatFiles.WalkPassesEnd` | src/fs/fat/fat16.c:399-417 | the walk sees the end of a chain exactly when its last entry is 0, 0xff0, 0xff6, 0xff7, 0xff8 or 0xfff, and otherwise follows it; no 16-bit mark of the end is among them |
| `FatExamples.ReadBehindEndSucceeds` | src/fs/fat/fat16.c:396-434 | a concrete disk that is mounted, with one file that ends with the usual mark, where a read behind its capacity returns no error |
| `FatFiles.FileDataAt` | src/fs/fat/fat16.c:430-463 | byte k of the concatenated clusters is on the disk at the position of its cluster |
| `FatFiles.FileByte` | src/fs/fat/fat16.c:255-258 | in numbers: with size bytes a cluster, byte size * q + r of a file is on the disk at 512 * rootEnd + (c - 2) * size + r, where c is the q-th cluster of its chain |
| `FatFiles.ReadFound` | src/fs/fat/fat16.c:430-463 | a read inside the capacity of an accepted chain finds all its clusters |
| `FatFiles.ReadIsFile` | src/fs/fat/fat16.c:430-463 | the positions read are those of the file exactly when every chunk that runs over the end of its cluster runs into the file's next cluster |
| `FatFiles.ItemsAreFile` | src/fs/fat/fat16.c:593-611 | the same for any number of items in a row |
| `FatFiles.ReadGivesContents` | src/fs/fat/fat16.c:593-611 | then the buffer holds exactly bytes [pos, pos + size * nmemb) of the concatenated clusters |
| `FatFiles.AlignedContiguous` | src/fs/fat/fat16.c:441-445 | a read from a cluster boundary always meets the condition |
| `FatExamples.MidClusterReadGoesWrong` | src/fs/fat/fat16.c:445-451 | a concrete disk that is mounted, with one file in its root directory, and a read of it that does not, and returns bytes that are not the file's |
| `FatFiles.ReadTwice` | src/fs/fat/fat16.c:593-611 | two reads in a row return the same bytes and result; the position does not move |
| `FatFiles.PositionsDistinct` | src/fs/fat/fat16.c:443-444 | different bytes of a file whose clusters are all different are in different places |
| `FatFiles.SecondReadFollowsIff` | src/fs/fat/fat16.c:593-611 | so where reading gives the file both calls return the bytes from the same position on, and the positions of the second are those of the part that follows exactly when both are empty |
| `FatFiles.MeantReadIsFile` | src/fs/fat/fat16.c:430-463 | with chunks bounded by the rest of the cluster the positions are those of the file for every offset and length |
| `FatFiles.MeantReadGivesContents` | src/fs/fat/fat16.c:593-611 | and any number of items read in that form are exactly the bytes of the concatenated clusters, for every position |
| `Paths.NamesAreLongestPrefix` | src/fs/pparser.c:44-61 | the names found are the longest prefix of the parts between slashes without an empty one |
| `Paths.NoPathIff` | src/fs/pparser.c:92-114 | parsing gives nothing exactly when the path does not start with a digit, a colon and a slash, is longer than 128 bytes, or has an empty first part |
| `Paths.RoundTrip` | src/fs/pparser.c:92-122 | parsing a printed path of at most 128 bytes gives its drive and its names back |
| `Paths.PrintOfParse` | src/fs/pparser.c:92-122 | printing what a path was parsed to gives a prefix of the path |
| `Paths.ParsedExample` | src/fs/pparser.c:92-122 | a concrete path of two names byte by byte |
| `PathParser.Strlen` | src/string/string.c:3-9 | the length of the text in memory |
| `PathParser.IsValidPath` | src/fs/pparser.c:10-23 | exactly the texts of 3 to 128 bytes that start with a digit, a colon and a slash |
| `PathParser.CopyName` | src/fs/pparser.c:46-54 | the buffer gets the bytes up to the slash or the end, and the pointer moves behind the slash |
| `PathParser.GetNextPathPart` | src/fs/pparser.c:44-61 | the name in a zero-filled block of its own; for an empty name the block is free again and the table as before |
| `PathLists.ListMore` | src/fs/pparser.c:69-75 | linking a node after the last one makes a list longer by one name, all others as they were |
| `PathLists.ParsePathPart` | src/fs/pparser.c:63-78 | one name more at the end of the list, in two blocks that were free, or nothing for an empty one |
| `PathTrees.ParsePath` | src/fs/pparser.c:92-122 | the root, with the drive, leads to a list of exactly the names, every node in blocks of its own; without names the result is null, with the root block lost if the path was valid |
| `PathTrees.ParsedSeen` | src/fs/pparser.h:5-13 | whoever follows the pointers of the result, first and next being the second words and the drive and the text the first, finds exactly the drive and the names, and then the end |
| `PathTrees.FreeList` | src/fs/pparser.c:80-87 | every node and its name are freed once and in order, and the walk ends |
| `PathTrees.FreeTree` | src/fs/pparser.c:80-90 | exactly the blocks of the tree become free |
| `PathTrees.ParseAndFree` | src/fs/pparser.c:80-122 | parsing a path and freeing the result restores the block table, and no frame in use changes |
| `Keyboard.Buffer.Backspace` | src/keyboard/keyboard.c:36-44 | the slot before the tail is cleared and becomes the tail, which stops at 0 |
| `Keyboard.Push` | src/keyboard/keyboard.c:46-62 | a character that is not 0 is stored at the tail of the current process, if there is one |
| `Keyboard.Pop` | src/keyboard/keyboard.c:65-78 | the slot at the head is returned and cleared and the head moves on, even past the tail |
| `Keyboard.ReadsInTurn` | src/keyboard/keyboard.c:71-76 | of 1024 reads in a row exactly one looks at a given slot, the one whose number is the slot's distance from the head |
| `Keyboard.SlotIsReturned` | src/keyboard/keyboard.c:46-78 | that read returns what the slot held, whatever is stored and read meanwhile, unless the slot is overwritten before |
| `Keyboard.Delivered` | src/keyboard/keyboard.c:46-78 | a character is returned by the read whose number is the distance from head to tail when it is stored, if less than 1024 others are stored before that |
| `Keyboard.NotTwice` | src/keyboard/keyboard.c:71-72 | and not again by the next read of its slot |
| `Keyboard.RunsAsQueue` | src/keyboard/keyboard.c:46-78 | every run that reads only outstanding characters, at most 1024 of them, returns what a queue returns and leaves what it leaves |
| `Keyboard.HoldsThroughoutIff` | src/keyboard/keyboard.c:46-78 | the ring holds the plain queue after every event of a run exactly when the run never reads from the empty queue nor stores in a full one |
| `Keyboard.EmptyReadDelays` | src/keyboard/keyboard.c:71-76 | after a read from the empty ring the next character waits for the 1024th read |
| `Keyboard.BackspaceUndoesIff` | src/keyboard/keyboard.c:36-62 | backspace undoes a character exactly when the tail did not wrap and the slot was empty |
| `Gdt.DecodesIff` | src/gdt/gdt.c:4-30 | the processor reads an encoded descriptor back as the 32-bit segment with its base, limit and access byte exactly when the limit is at most 65536 or ends on a page boundary |
| `Gdt.Always32Bit` | src/gdt/gdt.c:14-18 | encodable or not, every slot is that of a 32-bit segment with the descriptor's base and access byte, with neither the 64-bit nor the spare flag |
| `Gdt.EncodedExamples` | src/kernel.c:41-45 | the eight bytes of the kernel's code segment, and of a descriptor whose bytes all differ |
| `Gdt.EncodeEntry` | src/gdt/gdt.c:4-30 | the eight bytes of a slot, or a stop with nothing written |
| `Gdt.EncodeTable` | src/gdt/gdt.c:32-36 | every slot before the first descriptor that is not encodable decodes to its 32-bit segment, and the kernel stops exactly when there is one |

## Left out

- The block table is an array of its own, not the memory at 0x7e00 that it occupies; that no allocation reaches it is part of the layout, not of the model. The fields of the heap record are fixed when it is made.
- Kernel code is taken to run where virtual and physical addresses are equal. Only the copy of a string and the read of a stack word are translated through the directory in use; where the kernel's own stack and code lie meanwhile is not modelled.
- The out-of-memory paths that the code does not check (tables, directories, records, path nodes): enough free blocks are required.
- The process record and its slots, and reading the file before it is mapped. `Programs.Load` starts with the image in memory.
- Programs.Load: the paging flags of the new tables are those of `task_init`; the entry point is not modelled.
- Tasks.GetStackItem: the pages of the word are present, since reading others faults, and faults are not modelled; a word that spans two pages is read byte by byte, each byte through its own page.
- TaskSpaces.TaskNew: the registers of the task and its links in the list of tasks are not modelled, only its record's first field, which names its address space.
- TaskSpaces.TaskFree: removing the task from the list of tasks is not modelled.
- Fat16.FileSystem.Read: positions and lengths are below 2^31 and the first cluster is a 16-bit number, as on a FAT16 volume; the size in the directory entry is not looked at, as in the code.
- Fat16.FileSystem.GetTotalItems: a directory without an entry that ends it is read without end by the code, and excluded here.
- Fat16.Resolve: the root directory's entries are not read into memory here, and the streams and the memory for them are taken to be there.
- Disk.DiskStream.Read: the disk is total: the sector after the last byte, which a read that ends on a boundary also reads, exists.
- PathTrees.ParsePath: the path lies in frames in use, so that no new block overlaps it.
- Heap.Heap.FreeExtent: only addresses of allocations are freed; the code does not check.
- Elf.ElfFile.ProcessHeaders: the headers are given as a sequence; the checks of the file's signature and class are one-branch code.
- FAT names and lookup by name, seek and stat, the descriptor table, system calls, the terminal, port and disk commands, interrupts, and everything written in assembly.
- The bytes of a segment beyond p_filesz, and sections, symbols and dynamic structures: the loader does not implement them.
