# Page tables, user loading and device trees

This project models two parts of a small RISC-V kernel that keep a mathematical object in flat memory, and proves that
they do.

**Address spaces.** The kernel builds Sv39 page tables (three levels of 512 entries, `src/kernel/Paging.cpp`) in
physical memory handed out by a bump allocator. It walks them on raw physical memory until `paging_init` writes satp,
and from then on through the direct map that the tables themselves define. The tables, the allocator and the loader of
the first user program are modelled on a memory of 64-bit words; the tables stand for a partial map from virtual page
numbers to frames and flags. Hardware translation is written out separately from the privileged architecture (version
20211203, sections 4.3.2 and 4.4.1), and the two walks are proved equal.

**Flattened device trees.** libfdt (`lib/libfdt`) keeps a tree as a stream of aligned tokens and a table of shared
strings in one buffer (Devicetree Specification v0.4, sections 5.2 to 5.6). The sequential writer fills the buffer from
both ends; readers walk it; the read-write functions splice bytes; the write-in-place functions overwrite with NOPs; an
overlay is renumbered in place and merged into a base tree. Every operation is proved against an operation on token
streams, and these against an operation on trees.

## How the files fit together

| files | content |
|---|---|
| `Words`, `PageTables`, `PageTableProofs` | machine words; the tables as functions on memory; what one `paging_map` keeps and changes |
| `Sv39`, `DirectMap`, `Machine` | the hardware algorithm; the direct map; memory behind the MMU, where every access must be shown not to fault |
| `PageAllocator`, `Paging`, `PageRanges`, `PagingInit` | the allocator; single pages, before and after satp; ranges and what they cost; the kernel's own map |
| `UserMemory`, `UserCopy`, `UserAccess`, `ProcessLoader`, `AddressSpace` | user regions, copying, permissions, the loader, and results about whole runs |
| `FdtTokens`, `FdtStrings`, `FdtMemory`, `FdtBlob`, `FdtEvents` | decoding, the strings block, byte loops, `fdt_next_tag`, what a stream says |
| `FdtSw`, `FdtCheck`, `FdtTree`, `FdtRoundTrip`, `FdtWrite` | the sequential writer as a class, the full check, trees, the round trip, and when a tree fits into a buffer |
| `FdtRead`, `FdtLookup`, `FdtChildren`, `FdtPaths`, `FdtPathLookup` | walks, lookups, ancestors and paths |
| `FdtEdit`, `FdtItems`, `FdtPlaces`, `FdtSplice`, `FdtRw`, `FdtRwTree` | edits: on trees, on token streams, on bytes; the editable blob as a class; the refinement between them |
| `FdtRelocate` | resizing, packing and opening into another buffer, under overlap |
| `FdtAccepted` | what acceptance by `fdt_check_full` gives to readers and editors, and that edits keep it |
| `FdtMerge`, `FdtOverlay` | the merge on trees and `overlay_apply_node` |
| `FdtPhandles`, `FdtReferences`, `FdtRenumber`, `FdtFixups` | phandles and local references: on trees, and in place |

Conventions: a method models the C or C++ function named in its comment; its `ensures` equates the new state with a
function of the old one, and lemmas state what that function means. Ghost arguments give a method the token index and
the tree that belong to an offset; they carry no data. `result` and `err` hold the negated error codes of libfdt.
`InPlace`, `Rewritten` and `Updating` are the frame conditions of the edits: the tokens in front of and behind the node
are the old ones, and so are the strings.

Where code and documentation differ, the model follows the code. Three places: the room test of `fdt_add_string_`
subtracts without a check (`FdtSw.RoomTestExact` says when it is right, `NameInFrontOfBuffer` gives an input for which it
is not); `process_memory_layout_init` does not check its sums (`ProcessLoader.LayoutSoundIff` says when its success means
a sound layout, `HugeStackAccepted` gives an input for which it does not); and a phandle of value 0, which the overlay code shifts like any other, lands on a phandle of the
base: `FdtPhandles.CollidesExactly` says that this is the only collision, `ZeroCollides` gives an input.

## Model

| member | source | states |
|---|---|---|
| `PageTableProofs.PteRoundTrip` | src/kernel/Paging.cpp:36-46 | packing a 44-bit frame number and ten flag bits into an entry loses nothing: frame, flags and validity are read back |
| `PageTableProofs.VpnDigits` | src/kernel/Paging.cpp:21-34 | the three 9-bit indices are the digits of the virtual page number |
| `PageTableProofs.SameIndicesSamePage` | src/kernel/Paging.cpp:21-34 | two addresses have the same three indices exactly when they lie in the same page modulo 2^39 |
| `PageTableProofs.LinkStep` | src/kernel/Paging.cpp:98-117 | linking a zeroed, unused frame as a table keeps the tree sound, adds exactly one table, and changes no level-0 entry of any page |
| `PageTableProofs.DescendCorrect` | src/kernel/Paging.cpp:97-117 | one level of the descent either follows an existing table or links a new one; in every outcome, allocation failure included, no page translates differently and the frames used equal the tables added |
| `PageTableProofs.DescendBothCorrect` | src/kernel/Paging.cpp:97-138 | both levels together: on success the level-0 table of the address exists and the number of frames used is exactly the number of tables that were missing |
| `PageTableProofs.StoreEntry` | src/kernel/Paging.cpp:139-144 | writing the level-0 entry changes the entry of that page number and of no other, and leaves every table in place |
| `PageTableProofs.MapPageCorrect` | src/kernel/Paging.cpp:75-145 | paging_map as a partial-map insertion: exact success condition (aligned, unmapped, enough frames for the missing tables), exactly one entry added, and any failure leaves all entries unchanged while the tree stays sound |
| `PageTableProofs.TablesStay` | src/kernel/Paging.cpp:97-144 | the tables on the way to a page never go away |
| `Sv39.QueryReadsEntry` | src/kernel/Paging.cpp:177-211 | the software walk answers exactly from the level-0 entry of the page: frame, page offset and flags, or nothing |
| `Sv39.HardwareAgrees` | src/kernel/Paging.cpp:177-211 | on sound tables and canonical addresses the Sv39 translation algorithm (sections 4.3.2 and 4.4.1 of the privileged architecture) succeeds exactly when the software walk does and the leaf permits the access, with the same physical address |
| `DirectMap.DirectAddress` | include/utility/AddressMapping.hpp:4-14 | for physical addresses below 2^38 phys_to_virt does not wrap, virt_to_phys undoes it, the result is canonical, and its page number is the direct-map page plus the frame number |
| `DirectMap.DirectTranslate` | src/kernel/Paging.cpp:386-403 | supervisor loads and stores at a direct-map address reach the physical address it was made from |
| `MachineModel.PutByteBytes` | src/kernel/ProcessMemory.cpp:119-130 | storing one byte of a little-endian word changes that byte and no other |
| `MachineModel.PointerReaches` | include/utility/AddressMapping.hpp:15-25 | in a hosted state the pointer the kernel forms for a frame (identity before satp is written, direct map after) resolves to that frame for every word of it |
| `MachineModel.Machine.LoadWord` | include/utility/AddressMapping.hpp:15-25 | a load through a pointer that resolves returns the word at the physical address it resolves to; no fault can occur |
| `MachineModel.Machine.StoreWord` | include/utility/AddressMapping.hpp:15-25 | a store changes exactly the word its pointer resolves to |
| `MachineModel.Machine.StoreByte` | src/kernel/ProcessMemory.cpp:119-130 | a byte store changes exactly the byte its pointer resolves to |
| `PageAllocator.AllocStepSound` | src/kernel/PhysicalPageAllocator.cpp:28-39 | from a sound allocator a page is handed out exactly when a whole page is left; it is the page at current, aligned and not 0, and current moves past it |
| `PageAllocator.AllocRunPages` | src/kernel/PhysicalPageAllocator.cpp:28-39 | over any number of calls the successful ones return consecutive pages from current, never one twice, and after the first failure every call fails |
| `PageAllocator.PhysicalPageAllocator.Init` | src/kernel/PhysicalPageAllocator.cpp:13-26 | free memory starts page-aligned behind the kernel and the device tree and ends at the end of RAM; where no sum wraps it succeeds exactly when some page boundary lies behind both and below the end of RAM |
| `PageAllocator.PhysicalPageAllocator.AllocPage` | src/kernel/PhysicalPageAllocator.cpp:28-39 | one call is one step of the specification, and end never changes |
| `Paging.ZeroTable` | src/kernel/Paging.cpp:48-52 | all 512 entries of the frame become 0 through the current translation, which the stores themselves do not disturb |
| `Paging.LinkTable` | src/kernel/Paging.cpp:98-117 | zeroing a new table and storing its pointer, in that order, through the kernel pointers |
| `Paging.DescendEarly` | src/kernel/Paging.cpp:97-117 | one level on raw physical memory equals the specification step, in memory and in the allocator |
| `Paging.DescendMapped` | src/kernel/Paging.cpp:235-255 | one level whose loads, stores and zeroing go through the MMU computes the same memory as on raw physical memory |
| `Paging.PagingMapEarly` | src/kernel/Paging.cpp:75-145 | the result, the memory and the allocator are those of the specification; a null root fails without any effect |
| `Paging.PagingMap` | src/kernel/Paging.cpp:213-283 | with translation on, through the tables it is changing, the result, the memory and the allocator are those of the same specification |
| `Paging.PagingQueryEarly` | src/kernel/Paging.cpp:177-211 | answers the specification of the walk; the out-parameters are 0 when nothing is found |
| `Paging.PagingQuery` | src/kernel/Paging.cpp:406-440 | the walk through the direct map answers what the walk on raw memory answers |
| `Paging.MapPageReady` | src/kernel/Paging.cpp:213-283 | after any call of paging_map, successful or not, the tables are sound and all of RAM is still reached through the direct map |
| `Paging.DirectPagesStay` | src/kernel/Paging.cpp:276-279 | no call of paging_map changes an entry of the direct map |
| `PageRanges.MapPagesCorrect` | src/kernel/Paging.cpp:147-175 | a range mapping adds exactly the linear map of the pages counted as mapped, a prefix of the range, all of which were unmapped; success means the whole range, and failure leaves whole pages only |
| `PageRanges.RangeWithinCost` | src/kernel/Paging.cpp:285-313 | a range, wrapping past 2^39 or not, succeeds exactly when it is empty or both addresses are aligned, it has at most 2^27 pages, none of them is mapped, and as many frames are left as tables are missing for all its pages; success uses exactly these frames, and failure no more |
| `PageRanges.RangeLinks` | src/kernel/Paging.cpp:97-138 | a range that has been mapped has got exactly the tables that were missing for it, and no others |
| `PageRanges.RangeMissingBound` | src/kernel/Paging.cpp:147-175 | the tables missing for a range are at most one for every group of 512 pages and one for every group of 2^18 pages that it touches, around the wrap too |
| `PageRanges.RangeFrames` | src/kernel/Paging.cpp:147-175 | in every outcome the frames used equal the tables linked, and n contiguous pages link at most (n+510)/512+1 level-0 and (n+2^18-2)/2^18+1 level-1 tables; with that many frames left an aligned, unmapped range of at most 2^27 pages succeeds, wherever it starts |
| `PageRanges.MapAllCorrect` | src/kernel/Paging.cpp:315-384 | if a list of range requests all succeed, every one of them is in force at the end and no page outside them has changed |
| `PageRanges.MapAllProgress` | src/kernel/Paging.cpp:315-384 | also after a failure: the requests before the failed one are in force, and no page outside these and the failed one has changed |
| `PageRanges.MapAllWithinCost` | src/kernel/Paging.cpp:315-384 | a list of range requests succeeds exactly when each is aligned, at most 2^27 pages long and unmapped, no two of them meet, and a frame is left for every table missing for all of them together; it uses exactly these |
| `PagingInit.PagingMapRangeEarly` | src/kernel/Paging.cpp:147-175 | the loop maps align_up(size) bytes page by page on raw memory as the specification of ranges says |
| `PagingInit.PagingMapRange` | src/kernel/Paging.cpp:285-313 | the same loop through the direct map |
| `PagingInit.CreateRootTable` | src/kernel/Paging.cpp:54-63 | a zeroed frame is a sound tree with no mapping; 0 when no frame is left |
| `PagingInit.DirectFromMapping` | src/kernel/Paging.cpp:386-400 | the RAM request of paging_init is the direct map that all later table accesses use |
| `PagingInit.MapKernel` | src/kernel/Paging.cpp:324-396 | the seven ranges of paging_init in order, up to the first failure: result, memory and allocator are those of the list of requests, also when one fails |
| `PagingInit.KernelMapped` | src/kernel/Paging.cpp:324-404 | the seven ranges are mapped exactly when they are compatible and their tables fit; then satp may be written: every frame of RAM, tables included, stays reachable, and the hardware grants what the kernel needs |
| `PagingInit.MappedKernelAccess` | src/kernel/Paging.cpp:324-396 | in hardware terms, for every byte of each section and every access and mode: text is read and executed, rodata read, data, bss, the UART page and the device tree pages read and written at their own address, all of RAM read and written at its direct-map address; nothing else is granted there, and user mode gets nothing |
| `PagingInit.PagingInit` | src/kernel/Paging.cpp:315-404 | succeeds exactly when the seven ranges are aligned and do not meet and frames are left for the root and every table they need; then translation is on, the tables are sound and reach themselves through the direct map they define, the seven ranges and nothing else are mapped, and every byte of the kernel can be accessed as its section asks and not otherwise; failure: translation stays off |
| `AddressSpace.MapThenQuery` | src/kernel/Paging.cpp:213-283 | paging_map against paging_query for every address: exactly the new page translates differently, with V, A and D added, and after any failure nothing does |
| `AddressSpace.MappedPageRefused` | src/kernel/Paging.cpp:276-279 | a page that translates cannot be mapped again |
| `AddressSpace.KernelTextExecutes` | src/kernel/Paging.cpp:323-330 | after satp is written an instruction fetch from kernel text reaches the same address as before, and stores to it fault |
| `AddressSpace.UserRegionAccess` | src/kernel/ProcessMemory.cpp:72-109 | user mode gets exactly the accesses of the region flags at the byte the software walk finds; supervisor mode gets none |
| `AddressSpace.LoadedTextRuns` | src/kernel/ProcessLoader.cpp:9-47 | a loaded program, in hardware terms: user mode reads and executes every byte of text from 0x400000 on, finds the image there, and cannot store; supervisor mode gets nothing |
| `AddressSpace.LoadedDataWorks` | src/kernel/ProcessLoader.cpp:9-47 | user mode reads and writes every byte of the bss behind the text and of the stack page below 0x3FFFFFF000, and cannot execute them; supervisor mode gets nothing |
| `AddressSpace.EveryRunIsHosted` | src/kernel/Paging.cpp:213-313 | over every sequence of mapping operations after paging_init the walk stays self-hosted: tables sound, RAM reachable, no translation lost |
| `UserAccess.LeafFlagBits` | src/kernel/Paging.cpp:139-144 | the bits of a leaf entry: V, A and D set, R, W, X and U as asked |
| `UserAccess.MappedAccess` | src/kernel/Paging.cpp:139-144 | the hardware permits exactly the accesses granted by the flags that were passed |
| `UserMemory.MapFreshCorrect` | src/kernel/ProcessMemory.cpp:72-109 | on success every page of the region has a cleared frame of its own that is no table; a failure leaves such a prefix; on success the frames used are the tables linked plus the pages; earlier translations stay |
| `UserMemory.MapFreshWithinCost` | src/kernel/ProcessMemory.cpp:72-109 | map_region succeeds exactly when the region is aligned, at most 2^27 pages long and unmapped, and a frame is left for each page and each missing table; it uses exactly these |
| `UserCopy.PokeRegion` | src/kernel/ProcessMemory.cpp:119-130 | a byte stored into a region changes that byte of the region only, and neither a translation nor another frame |
| `UserCopy.CopyRegion` | src/kernel/ProcessMemory.cpp:111-132 | copying into a region succeeds, changes exactly the bytes copied, and the per-byte query is never disturbed by earlier stores |
| `ProcessLoader.LayoutSoundIff` | src/kernel/ProcessMemory.cpp:12-70 | an accepted layout is sound (aligned, adjacent, large enough and no whole page larger, an empty heap, below a stack that ends at the stack top) exactly when no size lies in the last page and nothing wraps around |
| `ProcessLoader.LayoutAcceptedIff` | src/kernel/ProcessMemory.cpp:25-38 | where nothing wraps around a layout is accepted exactly when the regions and the stack leave a gap between them |
| `ProcessLoader.LayoutFlags` | src/kernel/ProcessMemory.cpp:40-45 | the flags of an accepted layout, bit by bit: text is read and executed, rodata read, data, bss, heap and stack read and written, all by user mode |
| `ProcessLoader.HugeStackAccepted` | src/kernel/ProcessMemory.cpp:25-38 | a concrete stack size that is accepted although the stack then wraps around the address space |
| `ProcessLoader.MapRegion` | src/kernel/ProcessMemory.cpp:72-109 | the loop of allocate, clear and map equals its specification in result, memory and allocator; misaligned regions and a null root are refused without effect |
| `ProcessLoader.CopyIntoRegion` | src/kernel/ProcessMemory.cpp:111-132 | the query-and-store loop equals its specification and succeeds exactly when every address translates; a null root fails unless nothing is to be copied |
| `ProcessLoader.CopySucceedsIff` | src/kernel/ProcessMemory.cpp:111-132 | no store of the copy disturbs a later query, so the copy succeeds exactly when every address translated at the start |
| `ProcessLoader.ProgramMapsIff` | src/kernel/ProcessLoader.cpp:30-37 | the three regions of the program are mapped exactly when their pages are free and a frame is left for each page and each missing table |
| `ProcessLoader.ImageInPlace` | src/kernel/ProcessLoader.cpp:30-47 | from three freshly mapped regions and the copy to a loaded program: image and zeros in text, zeros in bss and stack, frames distinct and no tables |
| `ProcessLoader.LoadInitialProgram` | src/kernel/ProcessLoader.cpp:9-47 | returns true exactly when the image leaves a gap below the stack, the pages of the program are free, and frames are left for them and their tables; then the program is loaded as above and every earlier translation survives; in every case the tables stay sound and reachable |
| `FdtTokens.ReadTagLength` | lib/libfdt/fdt.c:170-229 | a decoded token takes exactly its aligned length, never runs past the block by more than padding, and a node name has no NUL |
| `FdtTokens.ReadTagLocal` | lib/libfdt/fdt.c:170-229 | a complete token is decoded the same whatever follows it |
| `FdtTokens.ReadTagErrors` | lib/libfdt/fdt.c:170-229 | a block that ends before a tag is truncated, and anything else that is no token is a bad structure |
| `FdtTokens.FormatBytes` | lib/libfdt/fdt.h:19-61 | a root with one property, byte by byte: the values of the tags, big-endian words, and the padding to four bytes |
| `FdtTokens.EncodeBegin` | lib/libfdt/fdt_sw.c:219-234 | the bytes written for a node begin decode to that node, whatever its name without NUL |
| `FdtTokens.EncodeProp` | lib/libfdt/fdt_sw.c:293-335 | the bytes written for a property decode to that name offset and value, whatever the padding |
| `FdtTokens.DecodesUnique` | lib/libfdt/fdt.c:170-229 | a structure block cannot be two different token streams |
| `FdtTokens.TokenAtOffset` | lib/libfdt/fdt.c:170-229 | the token found at the offset of token i is token i |
| `FdtTokens.ReplaceTokens` | lib/libfdt/fdt_rw.c:88-100 | replacing the bytes of some tokens by the encoding of others replaces these tokens and no others |
| `FdtTokens.PatchName` | lib/libfdt/fdt_sw.c:360-372 | overwriting the name offset of a property in place changes that token only |
| `FdtStrings.MatchesIsStringAt` | lib/libfdt/fdt.c:323-333 | for a name without NUL the comparison of the search holds exactly where that name is the string that starts there, the tails of longer names included |
| `FdtStrings.FindString` | lib/libfdt/fdt.c:323-333 | finds the first place where the name can be shared, exactly when there is one |
| `FdtStrings.StringAtAppend` | lib/libfdt/fdt_rw.c:132-160 | strings keep their offsets when the block grows at its end |
| `FdtStrings.StringAtPrepend` | lib/libfdt/fdt_sw.c:250-265 | strings keep their distance from the end when the block grows at its front |
| `FdtMemory.Memcpy` | src/utility/memory.cpp:6-15 | writes the source at the destination and nothing else |
| `FdtMemory.Memmove` | src/utility/memory.cpp:41-58 | the destination receives the bytes the source had before the call, for every overlap, and nothing else changes |
| `FdtBlob.OffsetPtrInside` | lib/libfdt/fdt.c:148-168 | the 32-bit overflow tests amount to "inside the structure block" on every placed blob |
| `FdtBlob.NextTag` | lib/libfdt/fdt.c:170-229 | decodes the token at an offset or reports the exact error; a result that is no error lies strictly ahead and within the aligned block size |
| `FdtEvents.EventsOfSaid` | lib/libfdt/fdt_ro.c:472-503 | tokens that say a list of calls, read with their names looked up, give back exactly that list |
| `FdtSw.RoomTestExact` | lib/libfdt/fdt_sw.c:250-265 | for all unsigned values: the room test for a new string is right exactly when the strings block with the new string is not larger than the buffer, or the wrapped difference is still too small |
| `FdtSw.RoomGuardExact` | lib/libfdt/fdt_sw.c:250-265 | with the structure block inside the buffer the room test is right exactly when the strings block with the new name is not larger than the buffer |
| `FdtSw.NameInFrontOfBuffer` | lib/libfdt/fdt_sw.c:250-265 | an input for which it is wrong: a buffer of 64 bytes, ready for its first node, lets through a name of 64 bytes |
| `FdtSw.NamesReadBack` | lib/libfdt/fdt_sw.c:293-335 | while a blob is being written the name offset of every property, counted back from the end, finds the name it was given |
| `FdtSw.CreateWithFlags` | lib/libfdt/fdt_sw.c:109-141 | a buffer below the header size or an unknown flag is refused, each with its error, otherwise an empty blob in the reservation state |
| `FdtSw.SwBuffer.AddReservemapEntry` | lib/libfdt/fdt_sw.c:188-206 | appends the entry exactly when in the reservation state with room, and otherwise changes nothing: bad state or no space |
| `FdtSw.SwBuffer.FinishReservemap` | lib/libfdt/fdt_sw.c:208-217 | closes the map with a zero entry and enters the structure state, only from the reservation state with room: bad state or no space otherwise |
| `FdtSw.SwBuffer.BeginNode` | lib/libfdt/fdt_sw.c:219-234 | appends the node begin exactly when in the structure state with room below the strings, and otherwise changes nothing: bad state or no space; the strings stay as they are |
| `FdtSw.SwBuffer.EndNode` | lib/libfdt/fdt_sw.c:236-248 | the same for the node end |
| `FdtSw.SwBuffer.AddString` | lib/libfdt/fdt_sw.c:250-265 | under that guard the name is written in front of the others exactly when there is room, and every name offset already issued still resolves to its string |
| `FdtSw.SwBuffer.FindAddName` | lib/libfdt/fdt_sw.c:276-291 | shares an existing string or adds the name in front of the strings block; every name offset already issued still resolves to its string; the guard is asked for only when a string must be added |
| `FdtSw.SwBuffer.DelLastString` | lib/libfdt/fdt_sw.c:267-274 | taking back the name just added leaves a valid buffer that holds everything written before it |
| `FdtSw.SwBuffer.Property` | lib/libfdt/fdt_sw.c:293-335 | appends the named value exactly when name and value fit, the name shared or in front of the other strings, and otherwise leaves both sizes as they were, a new name being rolled back; a new name must pass the guard sizeStrings + length + 1 <= totalsize |
| `FdtSw.SwBuffer.Renumber` | lib/libfdt/fdt_sw.c:357-372 | turns every negative name offset into the positive one that names the same string |
| `FdtSw.SwBuffer.Finish` | lib/libfdt/fdt_sw.c:337-384 | only from the structure state with room for the end tag, with the error otherwise: the blocks become contiguous, the blob complete, and it still says the same calls |
| `FdtCheck.HeaderPlaces` | lib/libfdt/fdt.c:52-146 | a header that passes has both blocks inside the blob: the unsigned range tests miss nothing |
| `FdtCheck.HeaderAnswers` | lib/libfdt/fdt.c:52-146 | what each answer of fdt_check_header means, in plain arithmetic: wrong magic number, incompatible version, misaligned offset, a size or a block out of range, or none of them |
| `FdtCheck.ProbeAnswers` | lib/libfdt/fdt.c:18-50 | what each answer of the probe means |
| `FdtCheck.HeaderProbe` | lib/libfdt/fdt.c:18-50 | a header that passes the full header check also passes the probe of the read-only functions |
| `FdtCheck.GetString` | lib/libfdt/fdt_ro.c:34-98 | on a complete blob: the NUL-terminated string at the offset inside the strings block, or the exact error, that of the probe included |
| `FdtCheck.GetStringUnfinished` | lib/libfdt/fdt_ro.c:34-98 | on an unfinished blob: the string counted back from the end of the buffer, or the exact error |
| `FdtCheck.NumMemRsv` | lib/libfdt/fdt_ro.c:189-199 | the index of the first entry of size 0, or the truncation error |
| `FdtCheck.CheckFull` | lib/libfdt/fdt_check.c:13-96 | returns 0 exactly when size, header and map are right and the structure walk accepts, and otherwise the error of the first check that fails |
| `FdtCheck.CheckWalk` | lib/libfdt/fdt_check.c:38-95 | the loop terminates and its verdict is that of the recursive walk over the rest of the block |
| `FdtCheck.CheckAccepts` | lib/libfdt/fdt_check.c:38-95 | the walk accepts exactly the blocks that decode to a token stream and are well nested |
| `FdtCheck.CheckAnswers` | lib/libfdt/fdt_check.c:38-95 | for a block that decodes, the answer is that of the first token that is not allowed where it stands: the error of its name, or bad structure |
| `FdtCheck.AcceptedShape` | lib/libfdt/fdt_check.c:38-95 | acceptance means: depth never negative and 0 at the end, at most one outermost node, every property name a terminated string in the block |
| `FdtTree.ParseFlatten` | lib/libfdt/fdt_sw.c:219-248 | a tree can be read back from the calls that describe it |
| `FdtTree.NestedIff` | lib/libfdt/fdt_check.c:38-95 | tokens that say some calls are well nested exactly when the calls are |
| `FdtRoundTrip.EntryReadsBack` | lib/libfdt/fdt_ro.c:175-199 | reservation entries read back as they were added |
| `FdtRoundTrip.FinishedSaysTheCalls` | lib/libfdt/fdt_sw.c:337-384 | a finished blob passes the header checks, decodes to one token per call, says exactly the calls made, and is accepted by the full check exactly when these were nested |
| `FdtRoundTrip.TreeRoundTrip` | lib/libfdt/fdt_sw.c:219-384 | any tree that was written is recovered exactly from the bytes of the finished blob, through shared strings and their relocation |
| `FdtWrite.WriteCall` | lib/libfdt/fdt_sw.c:219-335 | one call succeeds exactly when the structure block and the strings with it fit |
| `FdtWrite.WriteCalls` | lib/libfdt/fdt_sw.c:219-335 | a whole list of calls succeeds exactly when the sum of their sizes and the strings they leave, sharing counted, fit |
| `FdtWrite.WriteTree` | lib/libfdt/fdt_sw.c:109-384 | create, write, finish: a whole tree fits into a buffer exactly when the buffer is as large as the blob, the blob then has that size, and the tree is read back from its bytes |
| `FdtRead.TokenHere` | lib/libfdt/fdt.c:170-229 | in a token stream the offset of token i decodes to it and the next aligned offset is that of token i+1 |
| `FdtRead.CheckNodeOffset` | lib/libfdt/fdt.c:231-241 | the offset behind the tag and name of a node, an error for every offset where no node begins |
| `FdtRead.NextNode` | lib/libfdt/fdt.c:255-293 | the next node with its depth, the end of the enclosing node, or not found, as a scan of the token stream says; a bad-offset error where no node begins |
| `FdtRead.EnumerateNodes` | lib/libfdt/fdt.c:255-293 | the loop that starts at a negative offset visits every node exactly once, in order |
| `FdtLookup.SubnodeOffset` | lib/libfdt/fdt_ro.c:225-242 | the first direct subnode whose name is the one asked for, or that with a unit address behind it, or not found; the exact error for a blob that fails the probe and for an offset where no node begins |
| `FdtLookup.NameEqMeans` | lib/libfdt/fdt_ro.c:14-32 | the comparison accepts exactly the name itself, and a name that continues with an at sign when none was asked for |
| `FdtLookup.UnitAddressOptional` | lib/libfdt/fdt_ro.c:26-29 | so a node is found without its unit address |
| `FdtLookup.NodeEndOffset` | lib/libfdt/fdt_wip.c:73-81 | the offset just behind the matching end tag; the exact error for an offset where no node begins |
| `FdtLookup.GetProperty` | lib/libfdt/fdt_ro.c:397-425 | the first leading property of that name with its length, or the exact error, also for an offset where no node begins; no name is found in a blob that fails the probe |
| `FdtChildren.FirstSubnode` | lib/libfdt/fdt.c:295-304 | the first direct subnode; not found where no node begins |
| `FdtChildren.NextSubnode` | lib/libfdt/fdt.c:306-321 | the next sibling, over everything inside the node; not found where no node begins |
| `FdtAccepted.TokensDecode` | lib/libfdt/fdt_check.c:38-95 | where the walk of the full check reaches an end tag, the bytes up to there are the encoding of the tokens it saw |
| `FdtAccepted.AcceptedGood` | lib/libfdt/fdt_check.c:13-96 | a blob that fdt_check_full accepts is a stream of tokens under a good header, as every reader and editor here asks for, and its nodes are nested |
| `FdtAccepted.GoodTokens` | lib/libfdt/fdt.c:170-229 | a blob has only one such stream |
| `FdtAccepted.GoodAccepted` | lib/libfdt/fdt_check.c:13-96 | a blob with a stream and a closed map is accepted exactly when its nodes are nested |
| `FdtAccepted.NodeHasItems` | lib/libfdt/fdt_check.c:38-95 | every node of a nested stream has a tree below it |
| `FdtAccepted.CheckThenEnumerate` | lib/libfdt/fdt_check.c:13-96 | fdt_check_full, then the node loop: exactly the accepted blobs pass, and then every node is visited exactly once, in order |
| `FdtAccepted.FinishedGood` | lib/libfdt/fdt_sw.c:337-384 | a blob that the writer finished has the stream of the tokens written; it is accepted exactly when the calls were nested |
| `FdtAccepted.FinishedTree` | lib/libfdt/fdt_sw.c:219-384 | a tree that was written is the tree that lookups and edits see in the finished blob |
| `FdtEdit.ItemsSay` | lib/libfdt/fdt.c:170-293 | the tokens of a node say exactly its items and its end |
| `FdtEdit.ItemsEnd` | lib/libfdt/fdt_wip.c:73-81 | the end of a node found by the walk is the end of its items |
| `FdtItems.FindPropItem` | lib/libfdt/fdt_ro.c:397-425 | the property lookup on tokens is the lookup on the tree |
| `FdtItems.GetItemFirst` | lib/libfdt/fdt_ro.c:397-425 | a property is read from the first one of that name in front of the first subnode, exactly when there is one |
| `FdtItems.FindSubItem` | lib/libfdt/fdt_ro.c:225-242 | the subnode lookup on tokens is the lookup on the tree |
| `FdtItems.FindItemFirst` | lib/libfdt/fdt_ro.c:225-242 | the lookup on the tree finds the first subnode that the name or the name without unit address names, exactly when there is one |
| `FdtItems.FindSubFirst` | lib/libfdt/fdt_ro.c:225-242 | and so does the lookup in a blob, for the node of any tree |
| `FdtItems.SetThenGet` | lib/libfdt/fdt_rw.c:286-300 | after setting, the property reads back as the new value and every other name reads as before |
| `FdtItems.SetKeepsSubnodes` | lib/libfdt/fdt_rw.c:286-300 | setting a property leaves all subnodes, in order |
| `FdtItems.AddThenFind` | lib/libfdt/fdt_rw.c:345-387 | an added subnode is found under its name, is empty, and without it the items are the old ones |
| `FdtPlaces.SpliceNode` | lib/libfdt/fdt_rw.c:394-406 | replacing the tokens of a node anywhere below another one replaces the node at one path of the tree and nothing else |
| `FdtSplice.MisorderedExact` | lib/libfdt/fdt_rw.c:13-23 | under a header that passes, the unsigned layout test is exactly the order of the blocks |
| `FdtSplice.EditGood` | lib/libfdt/fdt_rw.c:88-100 | a splice of whole tokens with its header updates gives a valid blob again, with the edited stream, the same strings and the same bytes in front of the structure block |
| `FdtSplice.InPlaceGood` | lib/libfdt/fdt_wip.c:51-94 | tokens overwritten by others of the same length give a valid blob again, with the same strings, when the two blocks have no byte in common, whichever comes first |
| `FdtSplice.WriteKeepsStrings` | lib/libfdt/fdt_wip.c:51-57 | without that: a write leaves the strings block as it was exactly when it changes no byte of it |
| `FdtSplice.NopsTakeTheName` | lib/libfdt/fdt_wip.c:59-71 | a blob that the header checks accept, with its strings inside a property value: overwriting that property takes the name of another one away |
| `FdtRw.RwBlob.Probe` | lib/libfdt/fdt_rw.c:25-45 | accepts exactly ordered blocks and lowers a newer version to 17 |
| `FdtRw.RwBlob.Splice` | lib/libfdt/fdt_rw.c:59-73 | moves the tail, or refuses without effect, with the exact condition for each error |
| `FdtRw.RwBlob.FindAddString` | lib/libfdt/fdt_rw.c:132-160 | the offset of a shared or newly added name, or no space; a failure changes nothing |
| `FdtRw.RwBlob.ResizeProperty` | lib/libfdt/fdt_rw.c:191-209 | an existing property gets its new length and value, every other token stays |
| `FdtRw.RwBlob.AddProperty` | lib/libfdt/fdt_rw.c:211-242 | a new first property; without room the tokens, the strings and the header are as before, a new name being rolled back |
| `FdtRw.RwBlob.SetProp` | lib/libfdt/fdt_rw.c:267-300 | exact error for every outcome; on success only that property and possibly one appended string change; on failure nothing does |
| `FdtRw.RwBlob.AppendProp` | lib/libfdt/fdt_rw.c:302-328 | sets the property to the old value followed by the new bytes, with the same error conditions |
| `FdtRw.RwBlob.DelProp` | lib/libfdt/fdt_rw.c:330-343 | cuts out exactly the token of the property |
| `FdtRw.RwBlob.AddSubnode` | lib/libfdt/fdt_rw.c:345-387 | an empty node after the leading properties, at the returned offset; exists, no space and layout errors exactly when they apply; the used bytes around the new node are unchanged |
| `FdtRw.RwBlob.DelNode` | lib/libfdt/fdt_rw.c:394-406 | cuts out exactly the tokens of the node |
| `FdtRw.RwBlob.NopRegion` | lib/libfdt/fdt_wip.c:51-57 | fills the region, rounded up to words, with NOP tags and writes nothing else |
| `FdtRw.RwBlob.NopProperty` | lib/libfdt/fdt_wip.c:59-71 | overwrites the property by NOPs; no other byte, no string and no header field changes, with the strings block in front of the structure block or behind it |
| `FdtRw.RwBlob.NopNode` | lib/libfdt/fdt_wip.c:83-94 | overwrites the node by NOPs; no other byte, no string and no header field changes, with the strings block in front of the structure block or behind it |
| `FdtSplice.NopsKeepOffsets` | lib/libfdt/fdt_wip.c:51-57 | every token behind overwritten ones keeps its offset |
| `FdtRwTree.SetPropRefines` | lib/libfdt/fdt_rw.c:267-300 | fdt_setprop is "set this property" on the tree of the node, with everything around the node unchanged |
| `FdtRwTree.AppendPropRefines` | lib/libfdt/fdt_rw.c:302-328 | fdt_appendprop sets the property to its old value with the new bytes behind it, or to the new bytes |
| `FdtRwTree.DelPropRefines` | lib/libfdt/fdt_rw.c:330-343 | fdt_delprop and fdt_nop_property both remove the property: the same items |
| `FdtRwTree.AddSubnodeRefines` | lib/libfdt/fdt_rw.c:345-387 | fdt_add_subnode adds an empty subnode to the tree |
| `FdtRwTree.AddThenLookUp` | lib/libfdt/fdt_rw.c:345-387 | the lookup after adding returns the new node, its end is where the edit ended, and taking it out gives the old stream |
| `FdtRwTree.DelNodeRefines` | lib/libfdt/fdt_rw.c:394-406 | fdt_del_node (no NOPs) and fdt_nop_node take the node, wherever it is, out of the tree at its path |
| `FdtRwTree.DeletionsAgree` | lib/libfdt/fdt_wip.c:83-94 | fdt_nop_node and fdt_del_node leave the same tree: the one without the node at its path |
| `FdtRwTree.NopsSayNothing` | lib/libfdt/fdt_wip.c:51-94 | overwriting and cutting out give streams that say the same |
| `FdtRwTree.RewrittenInTree` | lib/libfdt/fdt_rw.c:267-406 | rewriting a node rewrites the whole tree at the path of that node and nowhere else |
| `FdtRwTree.AddThenDelete` | lib/libfdt/fdt_rw.c:345-406 | deleting the node just added restores header sizes, tokens and every used byte |
| `FdtAccepted.RewrittenNested` | lib/libfdt/fdt_rw.c:267-387 | an edit that rewrites one node keeps the nesting of the whole stream |
| `FdtAccepted.CutNested` | lib/libfdt/fdt_rw.c:394-406 | so does taking a node out or overwriting it with NOPs |
| `FdtAccepted.EditKeepsAccepted` | lib/libfdt/fdt_rw.c:267-387 | an accepted blob is still accepted by fdt_check_full after setting or deleting a property or adding a subnode |
| `FdtAccepted.CutKeepsAccepted` | lib/libfdt/fdt_rw.c:394-406 | and after deleting a node or overwriting it |
| `FdtRelocate.MoveHeadAndTail` | lib/libfdt/fdt_sw.c:148-186 | head and tail arrive intact for every overlap of the two buffers, in the order chosen |
| `FdtRelocate.Resize` | lib/libfdt/fdt_sw.c:148-186 | a blob under construction says the same reservations, tokens and calls in the new buffer, with the new total size and in the same state, or no space exactly when head and tail do not fit |
| `FdtRelocate.PackedBlocks` | lib/libfdt/fdt_rw.c:408-429 | the three moves deliver every block whole when none overwrites a block still to be moved |
| `FdtRelocate.Pack` | lib/libfdt/fdt_rw.c:499-512 | in place: the same reservation map, structure block and strings, contiguous and of minimal total size; packing a packed blob changes nothing |
| `FdtRelocate.OpenInto` | lib/libfdt/fdt_rw.c:431-497 | both branches keep the three blocks, for every position of the buffers; no space exactly when there is no room in the place the code chooses |
| `FdtMerge.SetPropsGet` | lib/libfdt/fdt_overlay.c:774-791 | a property of the overlay node overrides that of the base, others stay |
| `FdtMerge.MergeSubsAt` | lib/libfdt/fdt_overlay.c:793-810 | under every name the merged node finds the merge of what the two nodes found, when no two names of this level can be taken for one another |
| `FdtMerge.MergeLookUp` | lib/libfdt/fdt_overlay.c:768-813 | the merge is right-biased at every path: the value of the overlay if it gives one, else that of the base; only the names met at the levels along the path have to be distinct |
| `FdtOverlay.RewrittenSub` | lib/libfdt/fdt_overlay.c:793-810 | rewriting the subnode found by name rewrites its parent in that item only |
| `FdtOverlay.ApplyProps` | lib/libfdt/fdt_overlay.c:774-791 | the property loop sets the leading properties of the overlay node, in order; it succeeds when there is room for all of them and their names |
| `FdtOverlay.ApplySub` | lib/libfdt/fdt_overlay.c:793-810 | finds or adds the subnode and merges into it; it succeeds when there is room for all that can be added |
| `FdtOverlay.ApplyNode` | lib/libfdt/fdt_overlay.c:768-813 | on success the target has become the recursive merge, and with room for every node, property and name of the overlay it does succeed; in every outcome the tokens in front of and behind its items and all strings are unchanged, so offsets held by enclosing calls stay valid |
| `FdtOverlay.RoomBound` | lib/libfdt/fdt_overlay.c:768-813 | the room that is enough for a merge is no more than what the overlay's own items take in a structure block, with the name of every property counted unshared |
| `FdtRenumber.GetPhandle` | lib/libfdt/fdt_ro.c:511-526 | phandle if it is one word, else linux,phandle if that is one word, else 0 |
| `FdtRenumber.FindMaxPhandle` | lib/libfdt/fdt_ro.c:114-140 | no node of the blob has a larger phandle, and some node has it unless it is 0 |
| `FdtRenumber.BoundInTree` | lib/libfdt/fdt_ro.c:114-140 | that maximum bounds every phandle of every tree in the blob |
| `FdtRenumber.MaxInTree` | lib/libfdt/fdt_ro.c:114-140 | and it is one of the phandles of a tree that has all nodes of the blob |
| `FdtRenumber.PhandleAddOffset` | lib/libfdt/fdt_overlay.c:101-120 | no such property: not found; not one word: bad phandle; a sum that wraps or is the reserved number: no phandles; otherwise the property is shifted in place |
| `FdtRenumber.AdjustNode` | lib/libfdt/fdt_overlay.c:137-158 | succeeds exactly when every phandle property of every node below is one word whose sum stays below 0xffffffff, and then all of them are shifted, in place |
| `FdtPhandles.CanShiftIff` | lib/libfdt/fdt_overlay.c:101-158 | the condition of the recursion, put as one statement about all nodes |
| `FdtPhandles.OnePhandleShifts` | lib/libfdt/fdt_overlay.c:115-118 | for a single phandle: it is shifted exactly when the sum is below 0xffffffff, whether or not it equals one of the base |
| `FdtPhandles.ShiftRenumbers` | lib/libfdt/fdt_overlay.c:137-180 | every node of the overlay ends with its old phandle plus the offset, nodes without one stay without |
| `FdtPhandles.NoCollision` | lib/libfdt/fdt_overlay.c:1049-1052 | after the first pass, with the largest base phandle as offset, no nonzero overlay phandle equals a base phandle, different ones stay different, none becomes 0xffffffff |
| `FdtPhandles.CollidesExactly` | lib/libfdt/fdt_overlay.c:1049-1052 | for every base, overlay and node with a phandle: its new phandle is one of the base exactly when the old one was 0 |
| `FdtPhandles.ZeroCollides` | lib/libfdt/fdt_overlay.c:101-120 | the concrete input: a phandle property of value 0 is shifted onto the largest base phandle |
| `FdtReferences.FixedWord` | lib/libfdt/fdt_overlay.c:238-248 | when no two listed words overlap, each listed word grows by the offset exactly once |
| `FdtReferences.UpdateLookUp` | lib/libfdt/fdt_overlay.c:201-269 | the update changes exactly the properties the fixups list, each in the words listed for it; only the names met at the levels along the path have to be distinct |
| `FdtReferences.AllThereIff` | lib/libfdt/fdt_overlay.c:201-269 | the update succeeds exactly when every fixup is for a property that exists, in words inside it, and every subnode it names exists; it changes nothing but values |
| `FdtReferences.ReferencesFollow` | lib/libfdt/fdt_overlay.c:1054-1061 | after both passes a listed reference holds the new phandle of the node whose old phandle it held, without wrapping; only the names along the two paths have to be distinct |
| `FdtReferences.UpdateKeepsPhandles` | lib/libfdt/fdt_overlay.c:201-269 | the second pass changes no phandle anywhere in the tree when no fixup is for one |
| `FdtReferences.PassesKeepApart` | lib/libfdt/fdt_overlay.c:1049-1061 | after both passes: a phandle collides with one of the base exactly when it was 0 and the offset is a base phandle; equal ones stay equal and different ones different; none is 0xffffffff |
| `FdtFixups.FixProperty` | lib/libfdt/fdt_overlay.c:238-248 | the loop over the words of one fixup, in place |
| `FdtFixups.UpdateNodeReferences` | lib/libfdt/fdt_overlay.c:201-269 | succeeds exactly when every property, word and subnode the fixups name is there; then the tree node is updated as they say and the fixups themselves are untouched |
| `FdtFixups.UpdateLocalReferences` | lib/libfdt/fdt_overlay.c:288-306 | the same from the root of the overlay; without a fixups node nothing happens |
| `FdtFixups.RenumberOverlay` | lib/libfdt/fdt_overlay.c:1041-1061 | the first three steps of applying an overlay, in place: succeeds exactly when every phandle property is one word whose sum with the largest base phandle stays below 0xffffffff and everything the fixups name is there; then the phandles of the result are kept apart from those of every tree of the base blob, and every listed reference holds the new phandle of its target |
| `FdtFixups.RenumberedKeepsApart` | lib/libfdt/fdt_overlay.c:1041-1061 | the theorem behind it: the maximum found in the tokens of the base, the shift, and the update of the references, put together |
| `FdtFixups.RenumberedFollows` | lib/libfdt/fdt_overlay.c:1041-1061 | the second theorem behind it, for all fixups listed and all targets |
| `FdtPaths.SupernodeAtDepth` | lib/libfdt/fdt_ro.c:623-659 | the enclosing node at that depth, or not found; the error of the probe |
| `FdtPaths.OpenNodeEnds` | lib/libfdt/fdt_ro.c:623-659 | the enclosing nodes are those that begin before and end behind the place, each inside the one before |
| `FdtPaths.NodeDepth` | lib/libfdt/fdt_ro.c:661-671 | the number of enclosing nodes; the error of the probe |
| `FdtPaths.ParentOffset` | lib/libfdt/fdt_ro.c:673-681 | the innermost enclosing node; the root has none; the error of the probe |
| `FdtPaths.GetPath` | lib/libfdt/fdt_ro.c:571-621 | no space exactly when the path and its NUL do not fit or the buffer has less than two bytes; otherwise the buffer holds the path and the NUL; the error of the probe |
| `FdtPaths.PathOfRoot` | lib/libfdt/fdt_ro.c:571-621 | the path of an unnamed root is a slash |
| `FdtPaths.PathOfChild` | lib/libfdt/fdt_ro.c:571-621 | the path of any other node is that of its parent, a slash and its name, without a second slash below an unnamed root |
| `FdtPathLookup.PathOffset` | lib/libfdt/fdt_ro.c:250-301 | an absolute path is resolved name by name, repeated and trailing slashes ignored; the error of the probe |
| `FdtPathLookup.SlashIgnored` | lib/libfdt/fdt_ro.c:276-282 | further slashes in front of a name are ignored |
| `FdtPathLookup.TrailingSlashIgnored` | lib/libfdt/fdt_ro.c:276-282 | so is one at the end |
| `FdtPathLookup.NameLeadsOn` | lib/libfdt/fdt_ro.c:283-291 | a name leads to the subnode that the lookup finds, and the rest of the path goes on from there |
| `FdtPathLookup.PathRoundTrip` | lib/libfdt/fdt_ro.c:250-301 | the path written for a node leads back to it when names have no slash and are not empty and no earlier sibling on the way matches |

## Left out

- UART, panic output, the system call loops, trap and entry assembly, PMP and delegation, TLB timing: device and hardware effects; the satp write is modelled as "from now on accesses are translated".
- DTB.cpp: a client of the readers; the enumeration of nodes covers its walk.
- The heap region and ELF loading: the layout reserves a heap of size 0 and nothing grows it.
- Physical addresses of RAM are below 2^38 and page flags below 0x400: the direct map and the entry format rely on both.
- LoadInitialProgram: images are at most 2^38 bytes, and RAM is page-aligned with the kernel inside it.
- Blobs of a version below 17 and the ASSUME_* variants: every check is active, and the header is that of version 17 or later.
- The header is modelled as fields beside the buffer; the alignment test on the address of a blob is not modelled.
- Offsets passed to the editing functions are those of nodes. For walks and lookups an offset is that of a node or one where no node begins; an offset at which the bytes of a property value look like a node is not covered.
- FdtSw.SwBuffer.Property: a new name must pass the guard `sizeStrings + length + 1 <= totalsize`, because of the unchecked subtraction that FdtSw.RoomTestExact describes; FdtSw.NameInFrontOfBuffer is an input that fails it.
- FdtRw.RwBlob.SetProp: the length of the name is that of the C string, as the rollback of a new name assumes; lengths are those of a C int.
- FdtRw.RwBlob.NopProperty: requires that no byte belongs to both the structure block and the strings block; FdtSplice.WriteKeepsStrings and FdtSplice.NopsTakeTheName say what happens otherwise.
- FdtRw.RwBlob.NopNode: requires the same, as do the in-place writes of FdtRenumber and FdtFixups.
- FdtRelocate.Pack: requires that the reservation map is closed in front of the structure block; the layout test only makes room for one entry.
- FdtRelocate.OpenInto: requires a closed reservation map; boot_cpuid_phys is not modelled, since the reordering branch reads it from a blob that it may have overwritten.
- fdt_add_mem_rsv, fdt_del_mem_rsv and fdt_set_name: splices of the same kind as those modelled.
- FdtFixups.UpdateLocalReferences: requires that no fixup lies outside its property, where the code would write to whatever is there, and that no fixup is for the fixups node itself.
- FdtReferences.ReferencesFollow: requires that on the way along the two paths no name of a level can be taken for another one without its unit address, and fixups without duplicates.
- FdtMerge.MergeLookUp: requires that on the way along the path no name of a level can be taken for another one without its unit address, and overlays without duplicates; FdtOverlay.ApplyNode has no such condition.
- overlay_merge, overlay targets, `__fixups__`, overlay_prevent_phandle_overwrite and overlay_symbol_update: text parsing and loops around the functions modelled.
- FdtPathLookup.PathOffset: absolute paths; alias paths are not modelled.
- FdtPaths.GetPath: nodes inside the root node at offset 0, with names that have no slash.
- FdtAccepted.EditKeepsAccepted: requires that the reservation map is closed in front of the structure block.
- FdtFixups.RenumberOverlay: that the phandles are kept apart is stated for fixups of which none is for a phandle property.
- FdtWrite.WriteCalls: requires that the names alone fit into the buffer, because of the same unchecked subtraction; FdtWrite.WriteTree likewise.
- FdtOverlay.ApplyNode: the room it asks for is an upper bound; a merge that replaces values by shorter ones may succeed with less.
