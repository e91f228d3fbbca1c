# AION: memory, actions and runtime state

AION is a small kernel that boots a language model and gives it a persistent memory and an action language. This project
models the parts of it that compute with state, and proves what they keep over whole runs.

- **Memory manager** (`kernel/memory/memory.c`). `Bits` and `Frames` hold the word operations, the byte-packed frame
  bitmap, the two allocation orders and the firmware's memory map (section 7.2 of the UEFI specification,
  `GetMemoryMap`). `PageTables` holds the four-level walk over raw memory (section 4.5 of the Intel 64 and IA-32
  Architectures Software Developer's Manual, volume 3A), mapping, unmapping, translation and the swap-in step;
  `KernelMap` the tables that the kernel builds for itself; `Heap` the bump heap. `System` puts them together as a state
  machine over runs: the tables are a tree in memory whose frames come from the same allocator, and they refine a flat
  page map. `Boot` shows that the boot sequence reaches a state from which every run may start. `Kernel` is the class
  that holds the statics of the C file, each method proved against those functions.
- **Persistent memory** (`consciousness/memory/aion_memory.c`). `Records` is the disk format, `MemorySpec` the store as
  functions, `Persistence` its refinement of a log with a saved prefix, `Eviction` what a full store does, `StoreRuns`
  what all reachable states keep, and `MemoryStores` the class with the array, the counters and the loops.
- **Action language** (`consciousness/core/action.c`, with decimal printing from `kernel/drivers/serial.c`). `CStrings`
  and `Digits` are the string search, number parsing and printing; `Scanner` the token scan for any table of names;
  `Actions` the dispatch table and the parameters; `Handlers` the hexadecimal decoder and the memory handlers, with the
  end-to-end store and recall, and the file handler; `ActionMethods` the loops.
- **Loudness** (`consciousness/senses/senses.c`) in `Senses`, and the **token window**
  (`consciousness/runtime/llm.c`) in `Llm`.

Files and memory blocks from outside are values: the file system is a map from path to bytes, physical memory a map from
(frame, index) to words, and every answer of the language model, every heap grant to the store and every byte of
uninitialised stack that reaches the disk is a parameter over which the theorems quantify. Characters stand for bytes.

Where the code and what is said about it differ, the model follows the code:

- The header comment of `aion_memory.c` gives a record format without flags and time stamp; the structure has both. The
  time stamp is never set by a store, so it is no part of an entry here.
- Flushed files are named after positions and clean entries are not written again, so files and memory disagree after
  most evictions, also by stores that are then refused: `StoreRuns.ReachedEvictionIff` gives the exact condition in
  every full state that stores, flushes, boots and writes to other files can reach, and
  `Eviction.EvictionLosesAgreement` and `StoreRuns.RefusedStoreInput` give inputs.
- The file action accepts every absolute path without "..", also those of the store: `Handlers.FileCallKeepsRepIff` and
  `Handlers.FileTokenForgets`.
- `phys_free_pages` is off by the number of low pages that were not usable, and the page total counts overlapping regions
  twice: `Frames.InitialCounters` and `Frames.CountExactIffDisjoint` give the exact conditions, and
  `Frames.LowHoleMiscounts` and `Frames.OverlapMiscounts` inputs. The reported use is right all the same:
  `Boot.RunFromBoot`.
- The direct map's base has zero bits 12 to 47, so the direct map replaces the identity map and leaves its pages
  no-execute: `KernelMap.KernelPagesNoExecute`.
- A heap request that wraps is granted, and so is one with alignment 0, at address 0: `Heap.KmallocFits`,
  `Heap.KmallocAlignedFits`, `Heap.WrappingRequest` and `Heap.ZeroAlignmentRequest`.
- The rows for `ACT:DISPLAY_PIXEL` and `ACT:DISPLAY_CLEAR` are never selected: `Actions.ShadowedRows`.
- The sound buffer has 2048 bytes, but a token holds at most 1013: `Handlers.PcmPlaysIff`.
- A file token whose path and data have more than 2017 bytes loses its data to the token buffer, and its file is written
  empty: `Handlers.FileTokenYields` and `Handlers.FileFromText`.
- Generation past a full window puts tokens into the model's cache that the window does not hold:
  `Llm.ThinkSyncedIff` and `Llm.LongThoughtLosesAgreement`; the next feed always compresses and restores agreement: `Llm.RunAgrees`.

## Model

| member | source | states |
|---|---|---|
| `Frames.SetFreeAdds` | kernel/memory/memory.c:62-65 | Setting a frame's bit in the byte-packed bitmap adds exactly that frame to the free set |
| `Frames.SetUsedRemoves` | kernel/memory/memory.c:67-70 | Clearing a frame's bit removes exactly that frame, no neighbour in the same byte |
| `Frames.ListedStep` | kernel/memory/memory.c:111-119 | Each page number of a descriptor, with its 64-bit wrap, names one new tracked page or none |
| `Frames.UsablePagesMeaning` | kernel/memory/memory.c:103-121 | The usable pages are exactly the tracked pages that some descriptor lists, of a type that the next row names |
| `Frames.UsablePagesAre` | kernel/memory/memory.c:103-121 | A frame number is usable if and only if it is below 2^25 and some descriptor of type 7, 3 or 4 has a page p below its count with i = (start / 4096 + p) mod 2^64 |
| `Frames.CountExactIffDisjoint` | kernel/memory/memory.c:112-118 | The page count equals the number of usable pages if and only if the usable regions are pairwise disjoint; it never falls short |
| `Frames.OverlapMiscounts` | kernel/memory/memory.c:112-118 | The same region listed twice is counted twice |
| `Frames.InitialCounters` | kernel/memory/memory.c:96-127 | For every memory map: phys_total_pages is exact if and only if the usable regions are pairwise disjoint; phys_free_pages is the population of the bitmap plus the pages counted twice less the unusable low pages, and exact if and only if these are as many |
| `Frames.DisjointCounters` | kernel/memory/memory.c:96-127 | For disjoint regions phys_total_pages is the number of usable pages, and phys_free_pages is the population of the bitmap less 512 - k, with k usable low pages; it is exact if and only if k = 512 |
| `Frames.LowHoleMiscounts` | kernel/memory/memory.c:96-127 | With only the n pages from 1MB on usable, n at least 256, the free counter is 256 below the number of free frames |
| `PageTables.IndexArithmetic` | kernel/memory/memory.c:203-207 | The indices into the four tables are bits 39 to 47, 30 to 38, 21 to 29 and 12 to 20 of the address |
| `PageTables.SamePage` | kernel/memory/memory.c:203-207 | Two addresses have the same four table indices if and only if they agree in bits 12 to 47 |
| `PageTables.WalkFollows` | kernel/memory/memory.c:211-225 | Without create, the walk ends at the leaf slot of the tree if there is one, returns nothing otherwise, and changes nothing |
| `PageTables.LinkKeepsTree` | kernel/memory/memory.c:215-220 | Linking a cleared free frame below a table keeps the tree: no shared child, every table one level down and not free |
| `PageTables.LinkKeepsLeaf` | kernel/memory/memory.c:217-220 | A table linked after it was cleared changes no leaf word of any address |
| `PageTables.WalkCreates` | kernel/memory/memory.c:202-226 | With create, the walk keeps the tree and all leaves, takes frames only for tables, and succeeds if and only if there is a frame for each missing table |
| `PageTables.LeafEntryFields` | kernel/memory/memory.c:234 | A leaf entry is present, and its address is that of the request joined with the address bits of the flags |
| `PageTables.FlagsMustAvoidAddress` | kernel/memory/memory.c:230-234 | Every request is mapped to its own frame if and only if the flags have no bits in the address mask |
| `PageTables.WriteLeafLocal` | kernel/memory/memory.c:234 | Writing a leaf keeps the tree and changes the leaf of exactly the addresses on one page |
| `PageTables.MapRefines` | kernel/memory/memory.c:229-237 | vmm_map returns 0 and changes exactly the page of the address, or returns -1 and changes no translation even if it linked tables; it fails if and only if frames run out. `PageTables.MappedBits` says which word the page gets |
| `PageTables.MappedBits` | kernel/memory/memory.c:229-237 | After a successful vmm_map, bit k of the entry is set if and only if k is 0, or bit k of the flags is set, or k is from 12 to 51 and bit k of the physical address is set; no other bit is |
| `PageTables.MappedNeverSwapsIn` | kernel/memory/memory.c:229-237 | A page mapped with bit 9 of its flags clear is never taken for a swapped one: a fault on it is unexpected |
| `PageTables.UnmapRefines` | kernel/memory/memory.c:240-247 | vmm_unmap clears exactly the page of the address if it is present and otherwise changes nothing |
| `PageTables.TranslateRefines` | kernel/memory/memory.c:250-255 | vmm_virt_to_phys gives the frame of the leaf word and the offset of the address, or 0 where nothing is present |
| `PageTables.PageFaultRefines` | kernel/memory/memory.c:326-365 | The handler swaps in if and only if the entry is marked swapped and a frame f is available; then only that page changes, to the word 4096 f + 3, on a frame that was free; in all other cases nothing changes |
| `PageTables.PageFaultEnds` | kernel/memory/memory.c:326-357 | Which way the handler goes, in all cases: no entry if and only if there is no last table, unexpected if bit 9 of the leaf is clear, no frame if it is set and none is available, and otherwise a swap-in on the least available frame |
| `PageTables.SwapInBalance` | kernel/memory/memory.c:340-359 | A swap-in takes exactly the faulting page off the set of swapped pages |
| `KernelMap.KernelTablesLeaves` | kernel/memory/memory.c:259-281 | With 2054 frames every address below 4GB, and its alias at the direct-map base, translates to itself, and every page carries the flags of the direct map, NX included |
| `KernelMap.DirectWord` | kernel/memory/memory.c:276-281 | Page n of the direct map gets the word 4096 n + 0x8000000000000103 |
| `KernelMap.KernelWords` | kernel/memory/memory.c:259-281 | With 2054 frames the leaf of every address below 4GB is that word |
| `KernelMap.KernelPagesNoExecute` | kernel/memory/memory.c:271-281 | After vmm_init, with however few frames, every present page under any address is no-execute |
| `KernelMap.PresentIsMapped` | kernel/memory/memory.c:229-237 | Mapping over a present page never fails, as its tables are there |
| `KernelMap.KernelTablesCost` | kernel/memory/memory.c:259-281 | The first 4GB are mapped if and only if 2054 frames were available, and then exactly 2054 are gone |
| `KernelMap.KernelTablesGrown` | kernel/memory/memory.c:259-281 | With too few frames vmm_init still leaves a well-formed tree and takes frames for tables only |
| `Heap.KmallocFits` | kernel/memory/memory.c:404-411 | A granted block lies inside the heap if and only if no 64-bit sum wrapped |
| `Heap.KmallocGrants` | kernel/memory/memory.c:404-411 | A request that does not wrap is granted, at the pointer, if and only if the pointer plus the size rounded up to 16 does not pass the end; the pointer then moves by just that, and else not at all |
| `Heap.KmallocAlignedFits` | kernel/memory/memory.c:413-417 | A granted aligned block lies in what was left of the heap if and only if the alignment is at least 1 and neither its sum nor the request's wraps |
| `Heap.KmallocAlignedGrants` | kernel/memory/memory.c:413-417 | For a power-of-two alignment that does not wrap the same holds from the pointer rounded up to a multiple of it, where the pointer stays if the request is refused |
| `Heap.WrappingRequest` | kernel/memory/memory.c:406-409 | A concrete request that wraps is granted and moves the pointer back over earlier blocks |
| `Heap.ZeroAlignmentRequest` | kernel/memory/memory.c:413-417 | An alignment of 0 grants a block at address 0 from any heap |
| `Heap.AlignPtrToPow2` | kernel/memory/memory.c:415 | A power-of-two alignment yields a multiple of it |
| `Heap.AlignPtrKeeps16` | kernel/memory/memory.c:415 | Any alignment, power of two or not, keeps the pointer a multiple of 16 |
| `Heap.WraplessIff` | kernel/memory/memory.c:404-417 | The guard of the run theorem is exact: for either kind of request, the pointer does not move down and what is granted lies in what was left of the heap if and only if the guard holds |
| `Heap.BlocksDisjoint` | kernel/memory/memory.c:404-417 | Over any run of requests under that guard, refused ones included, granted blocks are disjoint, in increasing order, inside the heap and aligned as asked, also after a failed aligned request |
| `System.StepRefines` | kernel/memory/memory.c:135-255 | Every operation keeps the tree, one owner for each frame and the drift of the free counter, and acts on the flat page map as its result says |
| `System.AllocReturns` | kernel/memory/memory.c:135-145 | An allocation returns the address of the least free frame from 512 up to the page total and takes just that frame, or returns 0 and changes nothing if and only if there is none |
| `System.AllocRunReturns` | kernel/memory/memory.c:148-167 | A contiguous allocation takes the least run of n such frames, or returns 0 and changes nothing if and only if there is no run |
| `System.FreeReturns` | kernel/memory/memory.c:169-176 | Freeing moves the frame from the outstanding to the free ones and counts it, unless it is free already |
| `System.FaultKeepsSwapBalance` | kernel/memory/memory.c:340-359 | swap_used less the number of swapped entries is the same before and after a page fault |
| `System.RunRefines` | kernel/memory/memory.c:135-255 | After any run of map, unmap, fault, alloc, contiguous alloc, free of outstanding frames and writes outside the tables, translation agrees with the flat map for every address |
| `System.HeapStaysOwned` | kernel/memory/memory.c:388-402 | Over any legal run the heap's frames stay apart from free frames, tables and frames handed out |
| `System.UsedFrames` | kernel/memory/memory.c:424-431 | Whatever the drift of the free counter, total less counted free pages are the 512 low pages and the frames in use, as the total is off by as much |
| `Boot.BootedInv` | kernel/memory/memory.c:439-446 | The state after boot satisfies the invariant from which all runs start, whether or not the frames sufficed |
| `Boot.BootedAgrees` | kernel/memory/memory.c:259-281 | With 2054 frames the booted system implements the flat map of the direct map |
| `Boot.BootDrift` | kernel/memory/memory.c:96-127 | The drift of the free counter at boot is the number of usable low pages less 512 |
| `Boot.RunFromBoot` | kernel/memory/memory.c:424-446 | From boot on any memory map whose pages the bitmap tracks, with holes, overlaps and a negative counter or without: every legal run keeps frame ownership, reports as used exactly 4096 times 512 plus the frames in use, and translates as the flat map of the booted tables says, which is the direct map if there were 2054 frames |
| `Boot.BlocksInHeapFrames` | kernel/memory/memory.c:393-417 | Every byte of every granted block lies in one of the heap's frames |
| `Boot.HeapIs` | kernel/memory/memory.c:388-402 | The heap is the 16MB from its first frame on, at the direct-map base plus its address |
| `Kernel.MemoryManager.BitmapSetFree` | kernel/memory/memory.c:62-65 | The free set gains exactly the frame |
| `Kernel.MemoryManager.BitmapSetUsed` | kernel/memory/memory.c:67-70 | The free set loses exactly the frame |
| `Kernel.MemoryManager.BitmapIsFree` | kernel/memory/memory.c:72-75 | The bit read tells membership in the free set |
| `Kernel.MemoryManager.PmmInit` | kernel/memory/memory.c:96-132 | The free set is the usable pages less the first 512; both counters are what the descriptors offer, less 512 for the free one |
| `Kernel.MemoryManager.AddDescriptor` | kernel/memory/memory.c:107-120 | One descriptor adds its tracked pages to the free set and counts each once |
| `Kernel.MemoryManager.TakeLowPages` | kernel/memory/memory.c:123-127 | The first 512 frames leave the free set, and the counter falls by 512 whether or not they were in it |
| `Kernel.MemoryManager.PmmAlloc` | kernel/memory/memory.c:135-145 | Returns the least free frame from 512 on and marks exactly it, or 0 and changes nothing if there is none |
| `Kernel.MemoryManager.PmmAllocContiguous` | kernel/memory/memory.c:148-167 | Returns the least start of n consecutive free frames and marks exactly those, or 0 and changes nothing if there is no such run or n is 0 |
| `Kernel.MemoryManager.PmmFree` | kernel/memory/memory.c:169-176 | The frame becomes free, and is counted if it was not; freeing twice changes nothing |
| `Kernel.MemoryManager.VmmGetPte` | kernel/memory/memory.c:201-226 | The loop computes the specified walk, slot and all memory effects, and without create changes nothing |
| `Kernel.MemoryManager.VmmMap` | kernel/memory/memory.c:229-237 | New memory, bitmap and result are those of the specified map operation |
| `Kernel.MemoryManager.VmmUnmap` | kernel/memory/memory.c:240-247 | New memory is that of the specified unmap operation |
| `Kernel.MemoryManager.VmmVirtToPhys` | kernel/memory/memory.c:250-255 | Returns the specified translation and changes nothing |
| `Kernel.MemoryManager.VmmInit` | kernel/memory/memory.c:259-286 | Builds the kernel tables in the first free frame, or leaves kernel_pml4 zero and all else as it was |
| `Kernel.MemoryManager.SwapPageFault` | kernel/memory/memory.c:326-365 | State and outcome are those of the specified fault step; swap_used falls by one, modulo 2^64, exactly on a swap-in |
| `Kernel.MemoryManager.KmallocInit` | kernel/memory/memory.c:393-402 | Takes the first run of 4096 free frames as heap, or leaves the heap as it was |
| `Kernel.MemoryManager.Kmalloc` | kernel/memory/memory.c:404-411 | Pointer and result are those of the specified word arithmetic |
| `Kernel.MemoryManager.KmallocAligned` | kernel/memory/memory.c:413-417 | The pointer is rounded up first, and stays so when the request fails |
| `Kernel.MemoryManager.GetStatus` | kernel/memory/memory.c:424-435 | All six fields, with the reported use tied to the free counter |
| `Kernel.MemoryManager.MemoryInit` | kernel/memory/memory.c:439-446 | From a memory map to the booted state whose runs System and Boot speak of, with the heap on the very run of frames taken for it |
| `Kernel.MemoryManager.Apply` | kernel/memory/memory.c:135-365 | Each operation of the class takes its statics from those of a system state to those of the state after the step, and returns what the step returns; so runs of the class are runs of `System` |
| `Digits.DecimalParses` | kernel/drivers/serial.c:19-24 | The decimal digits of a number, followed by anything but a digit, parse back to it |
| `Digits.DigitsStandFor` | kernel/drivers/serial.c:19-24 | In every base from 2 to 16 the digits printed stand for the number, most significant first, in lower case and without a leading zero |
| `Digits.ParseIsValue` | consciousness/core/action.c:97-101 | The parser reads any run of decimal digits, leading zeros included, as the number they stand for, and stops after it; no digit gives 0 |
| `Digits.DecimalInjective` | kernel/drivers/serial.c:19-24 | Different numbers print differently |
| `Digits.ParseGrows` | consciousness/core/action.c:97-101 | No intermediate value of the parser exceeds the result, so a number below 2^63 is parsed without overflow |
| `Digits.DigitsOfWord` | kernel/drivers/serial.c:20-22 | The digits of a 64-bit number fit the 64-byte buffer in every base from 2 to 16 |
| `Digits.PrintUint` | kernel/drivers/serial.c:19-24 | Sends exactly the digits of the number, most significant first, and "0" for zero |
| `CStrings.StrStrFirst` | consciousness/core/action.c:78 | The string search finds the first occurrence, or there is none |
| `CStrings.StrChrFirst` | consciousness/core/action.c:81 | The character search finds the first occurrence, or there is none |
| `CStrings.ClipKeeps` | consciousness/core/action.c:83-86 | A copy into a buffer of n bytes keeps the first n - 1 |
| `Records.PathsDistinct` | consciousness/memory/aion_memory.c:84-91 | File names of entries at different positions differ, and none is the index |
| `Records.RecordPathText` | consciousness/memory/aion_memory.c:229-232 | The path of the i-th entry: the directory of its kind, i in decimal, and ".mem" |
| `Records.RecordLayout` | consciousness/memory/aion_memory.c:234-246 | Every byte of a record: "MEMA", kind, importance, two zero bytes, tick and a zero time stamp in eight bytes each and the length in four, least byte first, and the text from byte 28 on |
| `Records.DecodeRecord` | consciousness/memory/aion_memory.c:143-158 | Whatever follows a record in the loader's buffer, its type, importance, tick and content are read back |
| `Records.IndexIsIndex` | consciousness/memory/aion_memory.c:211-256 | The index written by a flush holds the count and each entry's path, whatever else the path buffers held |
| `Records.IndexCount` | consciousness/memory/aion_memory.c:211-213 | The index begins with the number of its rows in eight bytes, least first, and has 256 bytes for each |
| `Records.IndexRowLayout` | consciousness/memory/aion_memory.c:216-224 | The row of an entry has its path, a zero byte, and its importance in the last byte |
| `MemorySpec.WorstScanFinds` | consciousness/memory/aion_memory.c:170-178 | The scan finds the earliest episodic entry of least importance below 255, or entry 0, and that is the only such entry |
| `MemorySpec.SearchDown` | consciousness/memory/aion_memory.c:284-297 | The newest entry whose text contains the key, or none contains it |
| `MemorySpec.MatchesIff` | consciousness/memory/aion_memory.c:284-297 | A text matches if and only if the key occurs in it before its first NUL |
| `MemorySpec.StoredLast` | consciousness/memory/aion_memory.c:186-198 | After a store that finds room, into whatever memory, the last entry has the kind, importance and tick given and the first 4096 bytes of the text |
| `MemorySpec.StoreBatches` | consciousness/memory/aion_memory.c:197-204 | Up to nine unsaved entries a store only counts; the tenth writes the index and leaves nothing dirty; a refused store does neither |
| `MemorySpec.ReadRecordIff` | consciousness/memory/aion_memory.c:140-147 | For any files and any buffer: a row yields an entry if and only if its file exists, has at least 28 bytes, begins with 0x4D 0x45 0x4D 0x41, and has a stored length of at most 4096 |
| `MemorySpec.ReadRecordFields` | consciousness/memory/aion_memory.c:140-157 | The entry has the kind, importance and tick of the file's bytes 4, 5 and 8 to 15, and the stored number of bytes from byte 28 on, past the file's end those that the buffer held before |
| `MemorySpec.LoadRowAdds` | consciousness/memory/aion_memory.c:132-159 | A row adds one clean entry, behind the others, if and only if its file yields one and its text finds room |
| `MemorySpec.LoadAppends` | consciousness/memory/aion_memory.c:116-163 | A load only appends to what RAM holds, and changes neither the files nor the dirty counter |
| `Persistence.FlushKeepsRep` | consciousness/memory/aion_memory.c:208-260 | A flush within the index buffer saves every entry: each has its record in its own file, and the index lists them all |
| `Persistence.StoreKeepsRep` | consciousness/memory/aion_memory.c:166-205 | A store appends one unsaved entry, and saves everything at the tenth |
| `Persistence.RebootKeepsRep` | consciousness/memory/aion_memory.c:101-163 | A boot stays inside the loader's buffers and brings back exactly the saved entries |
| `Persistence.RunKeepsRep` | consciousness/memory/aion_memory.c:101-260 | Any run of stores, flushes and boots that does not fill the store, with texts that find room and at most 4095 entries, behaves as a log with a saved prefix |
| `Persistence.RoundTrip` | consciousness/memory/aion_memory.c:115-260 | After any such run, a flush and any number of boots give back the same sequence of type, importance, tick and content |
| `Persistence.BootSkipsSpoiled` | consciousness/memory/aion_memory.c:132-160 | After any unacceptable text over one record file of a store that follows its log, a boot gives back exactly the other saved entries, in order |
| `Persistence.ShortTextSpoils` | consciousness/memory/aion_memory.c:141 | So it does after any text of fewer than 28 bytes |
| `Persistence.WriteKeepsRepIff` | consciousness/memory/aion_memory.c:208-260 | A text written by other code leaves the store in agreement with its log if and only if it goes neither to the index nor to any entry's file |
| `Persistence.IndexOverwritten` | consciousness/memory/aion_memory.c:116-163 | One letter written over the index, and a machine with blank buffers boots with an empty store |
| `Eviction.StoreEvicts` | consciousness/memory/aion_memory.c:166-205 | A store into a full memory, whose flush if any has at most 4095 entries, drops exactly the worst entry, keeps the order of the others, puts the new one last and never exceeds the capacity |
| `Eviction.StoreAppends` | consciousness/memory/aion_memory.c:186-205 | Below capacity a store, whose flush if any has at most 4095 entries, appends the clipped entry and changes no other, or changes nothing if its text finds no room |
| `Eviction.StoreAccounts` | consciousness/memory/aion_memory.c:168-204 | Every store, whose flush if any has at most 4095 entries, keeps mem_dirty at least the number of dirty entries and below 10, also across the eviction of a dirty entry |
| `Eviction.FlushCleans` | consciousness/memory/aion_memory.c:208-259 | A flush of at most 4095 entries leaves none dirty, and neither does one that returns early |
| `Eviction.LoadAccounts` | consciousness/memory/aion_memory.c:116-163 | Loading adds no dirty entry, whatever the files hold and whichever allocations fail |
| `Eviction.EvictSyncedIff` | consciousness/memory/aion_memory.c:179-183 | In any state, an eviction leaves files and RAM in step if and only if each clean entry that stays has its record in the file of its new position |
| `Eviction.RepeatsIff` | consciousness/memory/aion_memory.c:179-183 | In a store that represents a log, as before its first eviction, that is so if and only if each clean entry after the evicted one repeats the entry before it |
| `Eviction.FlushReloadIff` | consciousness/memory/aion_memory.c:116-260 | In any state with good entries and record files that hold records, a flush that writes and a boot give back RAM if and only if files and RAM were in step |
| `Eviction.EvictionRoundTripIff` | consciousness/memory/aion_memory.c:166-260 | In any such full state, however often it has evicted before, and for a store that finds room or one that is refused with something to flush: store, flush and boot give back RAM if and only if each clean entry that stays has its record in the file of its new position |
| `Eviction.EvictionLosesAgreement` | consciousness/memory/aion_memory.c:216-226 | Two flushed episodic entries in a store for two: the next store breaks the round trip |
| `StoreRuns.RunKeepsSound` | consciousness/memory/aion_memory.c:101-260 | Over any run of stores, evictions, failed allocations, flushes, boots and writes to files that are not the store's: the dirty counter misses no entry and stays below 10, the capacity is kept, record files hold records, and the index fits the loader; a store for at most 4095 entries never overruns a buffer |
| `StoreRuns.BootIsDiskList` | consciousness/memory/aion_memory.c:116-163 | In every such state a boot in which all texts find room gives back just the entries that the index and the record files say, however dirty its buffers |
| `StoreRuns.ReachedRoundTripIff` | consciousness/memory/aion_memory.c:101-260 | In every state that such a run reaches, flush and boot give back RAM if and only if each clean entry has its record in the file of its position, or, with nothing to flush, the files say what RAM holds |
| `StoreRuns.ReachedEvictionIff` | consciousness/memory/aion_memory.c:101-260 | In every full state that such a run reaches, for a store that finds room or is refused: store, flush and boot give back RAM if and only if each clean entry that stays has its record in the file of its new position, or, where a refused store leaves nothing to flush, the files already lack just the evicted entry |
| `StoreRuns.RefusedLosesAgreement` | consciousness/memory/aion_memory.c:168-190 | Where the files say what RAM holds and nothing is to be flushed, every refused store into a full memory loses the round trip |
| `StoreRuns.RefusedStoreInput` | consciousness/memory/aion_memory.c:168-209 | One flushed entry in a store for one: a refused store empties RAM, and the next boot brings the entry back |
| `MemoryStores.MemoryStore.Init` | consciousness/memory/aion_memory.c:100-113 | Empties the store, keeps the files, and records whether there is an index |
| `MemoryStores.MemoryStore.FindWorst` | consciousness/memory/aion_memory.c:170-178 | The loop finds the specified entry to evict |
| `MemoryStores.MemoryStore.ShiftDown` | consciousness/memory/aion_memory.c:180-183 | The entries after the gap move down by one, in order |
| `MemoryStores.MemoryStore.EvictWorst` | consciousness/memory/aion_memory.c:168-184 | The store loses the specified entry and nothing else |
| `MemoryStores.MemoryStore.StoreEntry` | consciousness/memory/aion_memory.c:166-205 | State and files are those of the specified store, eviction and batched flush included, whenever that flush has at most 4095 entries |
| `MemoryStores.MemoryStore.WriteEntries` | consciousness/memory/aion_memory.c:215-253 | The loop writes the dirty entries to their files, marks them clean and collects the index rows |
| `MemoryStores.MemoryStore.FlushAll` | consciousness/memory/aion_memory.c:208-260 | State and files are those of the specified flush |
| `MemoryStores.MemoryStore.LoadOne` | consciousness/memory/aion_memory.c:132-160 | The code of one row does what the specified row does, for any files and buffer; `MemorySpec.LoadRowAdds` and `MemorySpec.ReadRecordIff` say what that is |
| `MemoryStores.MemoryStore.LoadListed` | consciousness/memory/aion_memory.c:132-160 | The loop reads the listed rows in order, each into the buffer as the last has left it |
| `MemoryStores.MemoryStore.LoadAll` | consciousness/memory/aion_memory.c:116-163 | State and static buffers are those of the specified load, whose rows `MemorySpec.LoadRowAdds` describes |
| `MemoryStores.MemoryStore.Search` | consciousness/memory/aion_memory.c:284-297 | Returns the text of the newest entry that contains the key |
| `Scanner.LookAtWritten` | consciousness/core/action.c:362-377 | The first thing the scan finds in a written action is that action |
| `Scanner.SpansExact` | consciousness/core/action.c:362-388 | For any table: executed tokens are tokens, in order and disjoint, and every token with a known name outside them is executed |
| `Scanner.ExactUnique` | consciousness/core/action.c:362-388 | There is only one list of tokens that should be executed |
| `Scanner.ScanIsSpans` | consciousness/core/action.c:362-388 | The calls made are those of the executed tokens, in order |
| `Scanner.ScanInvertsRender` | consciousness/core/action.c:362-388 | Scanning rendered well-formed tokens gives back exactly those, and then what follows them, for any table of names |
| `Actions.MatchFirst` | consciousness/core/action.c:365-367 | The table entry chosen is the first whose name begins the text |
| `Actions.MatchIsOwn` | consciousness/core/action.c:337-353 | Every name selects its own entry, except that the two longer DISPLAY names select the first one |
| `Actions.DisplayRows` | consciousness/core/action.c:338-340 | Text that begins with any of the three DISPLAY names goes to the first handler |
| `Actions.AudioRows` | consciousness/core/action.c:341-343 | Each AUDIO name in full goes to its own handler |
| `Actions.StoreRows` | consciousness/core/action.c:344-347 | So do the names of storing, recalling, reading files and writing files |
| `Actions.OtherRows` | consciousness/core/action.c:348-351 | And the four others |
| `Actions.NoRow` | consciousness/core/action.c:365-367 | Text goes to no handler if and only if it begins with none of the 14 names |
| `Actions.ShadowedRows` | consciousness/core/action.c:338-340 | The DISPLAY_PIXEL and DISPLAY_CLEAR rows are never selected by any text |
| `Actions.CallsExact` | consciousness/core/action.c:356-393 | For every output a list of calls is the one made if and only if it is that of the tokens that should be executed |
| `Actions.CallsOfRendered` | consciousness/core/action.c:356-393 | Writing any list of actions and parsing it executes exactly that list, each token cut to its buffer, and then what follows; after text without '<' nothing |
| `Actions.ParamFound` | consciousness/core/action.c:76-80 | A parameter after other parameters is found at its own place, not inside an earlier one |
| `Actions.ParamMissing` | consciousness/core/action.c:90-96 | A number parameter whose name never comes before '=' is missing, so its default stays |
| `Actions.ParamStrMissing` | consciousness/core/action.c:74-88 | So is a quoted one |
| `Handlers.PcmInvertsHex` | consciousness/core/action.c:154-163 | The decoder inverts hexadecimal in upper, lower or mixed case for every byte string that fits the buffer |
| `Handlers.NibbleIs` | consciousness/core/action.c:158-161 | What any byte counts for as a hexadecimal digit, also if it is none |
| `Handlers.PcmBytes` | consciousness/core/action.c:157-163 | The decoder makes one byte of every two characters, the first one high, as many as there is room for |
| `Handlers.PcmPlaysIff` | consciousness/core/action.c:150-165 | Sound written as a token, whatever follows its data, is played if and only if it has at most 1013 bytes, as the token buffer cuts longer ones; then it is played exactly |
| `Handlers.NoDataNoSound` | consciousness/core/action.c:150-152 | A token without a data parameter plays nothing |
| `Handlers.TokenParam` | consciousness/core/action.c:74-88 | A quoted parameter of a token is its text cut to the buffer, if its closing quote is among the 2047 bytes kept of the token, and else missing |
| `Handlers.ParamIntAt` | consciousness/core/action.c:90-103 | A number parameter is what its leading digits stand for, whatever follows them, and 0 without any |
| `Handlers.StoreTokenParams` | consciousness/core/action.c:178-184 | A store token yields the first 127 bytes of its key and the first 1023 of its value, whatever follows them |
| `Handlers.StoreTokenImportance` | consciousness/core/action.c:178-184 | Its importance is the number that follows, or the default 1 if none does |
| `Handlers.StoreTokenCut` | consciousness/core/action.c:373-377 | The token buffer never cuts its key or value |
| `Handlers.RecallAfterStore` | consciousness/memory/aion_memory.c:284-297 | Right after a store whose text contains the key, and whose flush if any has at most 4095 entries, a search finds that text, whatever was there before |
| `Handlers.RecallIs` | consciousness/core/action.c:200-210 | A recall finds the text of the newest entry that contains the key before a NUL, and nothing if and only if there is none |
| `Handlers.FewCallsFit` | consciousness/core/action.c:178-197 | No call of an output overruns the index buffer if the store has at most 4095 slots, or at most 4095 entries with one more for each call, and no importance reaches 2^63 |
| `Handlers.PerformAllAppend` | consciousness/core/action.c:362-388 | Calls are performed one part after the other: the later part from the state that the earlier one leaves |
| `Handlers.StoreThenRecall` | consciousness/core/action.c:178-210 | In one output, after any actions and before anything, a token that stores V under K however it is spelled, and next a token that recalls K, find exactly "K: V", whatever was stored before and whether or not the store evicts or flushes, if its text finds room and nothing is overrun |
| `Handlers.WrittenStoreThenRecall` | consciousness/core/action.c:178-210 | The same for the usual spelling of every plain key and value, with an importance, without one, or with anything else after them |
| `Handlers.StoreFromText` | consciousness/core/action.c:177-197 | From the characters of the token: the last entry of the memory is then of kind 1 (semantic), with tick 0, importance min(v, 255) and the text "key: value" |
| `Handlers.PlainStoreFromText` | consciousness/core/action.c:177-197 | Without an importance it is 1 |
| `Handlers.RecallFromText` | consciousness/core/action.c:199-210 | From the characters of a recall token to what is recalled; memories and files stay |
| `Handlers.SoundFromText` | consciousness/core/action.c:148-167 | From the characters of a sound token to the bytes played; memories and files stay |
| `Handlers.QuietTokens` | consciousness/core/action.c:356-388 | Every action whose token begins with neither MEMORY_STORE nor FILE_WRITE leaves memories and files as they were |
| `Handlers.PieceAt` | consciousness/core/action.c:362-388 | In any rendered list of actions followed by any text, each action is performed at its place in the state that those before it leave |
| `Handlers.FileFromText` | consciousness/core/action.c:230-246 | In any output that holds, after any actions and before any text, a FILE_WRITE token with an acceptable path: its outcome is that this path was written, and just this file changes, to the data if path and data have at most 2017 bytes and else to nothing |
| `Handlers.FileTokenYields` | consciousness/core/action.c:232-235 | What such a token yields: the first 511 bytes of its path, and all of its data or, if the two have more than 2017 bytes, none, as the token buffer cuts the closing quote |
| `Handlers.RejectsIff` | consciousness/core/action.c:238 | A path is rejected if and only if it is empty, does not begin with a slash or has two dots in a row |
| `Handlers.FileRejected` | consciousness/core/action.c:232-241 | A token with such a path writes nothing |
| `Handlers.FileTokenWrites` | consciousness/core/action.c:232-246 | A file token writes just the first 511 bytes of its path, unless that is rejected: with its data if path and data have at most 2017 bytes, and with nothing if they have more |
| `Handlers.FileCallKeepsRepIff` | consciousness/core/action.c:232-246 | Such a call leaves the store in agreement with its log if and only if it is rejected or writes none of the store's files |
| `Handlers.FileTokenForgets` | consciousness/core/action.c:232-246 | A concrete file token overwrites the index, which is not protected, and the next boot forgets everything |
| `ActionMethods.ParseParamInt` | consciousness/core/action.c:90-103 | The loop computes the number of the parameter, or none if the parameter is missing |
| `ActionMethods.DecodePcm` | consciousness/core/action.c:154-163 | The buffer holds the specified bytes, and the loop stays within it |
| `ActionMethods.MatchAction` | consciousness/core/action.c:365-367 | The table search finds the specified entry |
| `ActionMethods.PlayPcm` | consciousness/core/action.c:149-167 | Nothing is played without a complete data parameter, and otherwise the decoded bytes |
| `ActionMethods.PutToFile` | consciousness/core/action.c:232-246 | An acceptable path gets the data, and a rejected one changes nothing |
| `ActionMethods.Handle` | consciousness/core/action.c:178-246 | A handler's effect on the memory store, of any capacity, and on its files, and its outcome are the specified ones, unless its flush would overrun the index buffer or its importance the parser |
| `ActionMethods.ParseAndExecute` | consciousness/core/action.c:356-393 | The scanning loop runs exactly the specified calls, in order, on a memory store of any capacity and its files, unless one of them would overrun the index buffer or the number parser |
| `Senses.SumSqFits` | consciousness/senses/senses.c:84-90 | No product and no sum of the loop leaves its width |
| `Senses.TryBit` | consciousness/senses/senses.c:98-102 | One round of the loop tries one bit, and its sum stays within its width |
| `Senses.IntegerSqrt` | consciousness/senses/senses.c:95-102 | The shift-and-subtract loop computes the floor of the square root for every mean below 2^32, 0 included |
| `Senses.RootUnique` | consciousness/senses/senses.c:95-102 | There is only one such root |
| `Senses.RootOfMean` | consciousness/senses/senses.c:93-103 | The root of the rounded mean is exact for the sum: r*r*n <= sum < (r+1)*(r+1)*n |
| `Senses.RmsBetween` | consciousness/senses/senses.c:83-103 | The loudness lies between the least and the greatest amplitude of the frame |
| `Senses.SilentIff` | consciousness/senses/senses.c:106 | A frame is below a level if and only if its mean square is below the square of the level |
| `Senses.Loudness` | consciousness/senses/senses.c:83-106 | Of the first 4096 samples: the exact root mean square, at most 32768, and 0 for no samples; silence exactly below 100 |
| `Senses.RootMeanSquare` | consciousness/senses/senses.c:93-106 | The root of the mean of n squares, exact, and below 100 if and only if the sum is below 10000 n |
| `Llm.TextCompleteIff` | consciousness/runtime/llm.c:140-143 | The generated text is complete if and only if all pieces fit with the terminator and one more byte |
| `Llm.SpokenIs` | consciousness/runtime/llm.c:127-154 | The tokens generated are those before the first end token or failed conversion, and none after the first failed decode, whose token is the last |
| `Llm.TextIs` | consciousness/runtime/llm.c:140-143 | The text is the pieces kept, whole and in order; a piece is kept if and only if it, the text kept before it and two more bytes fit |
| `Llm.FeedKeepsWindow` | consciousness/runtime/llm.c:88-103 | A feed ends with at most 3968 tokens; it compresses if and only if it would pass them, and then drops at least 385 and keeps just the latest 3072 |
| `Llm.SayAllRecords` | consciousness/runtime/llm.c:145-148 | Generation records its tokens, in order, until 4095 are held, and not the others |
| `Llm.SayAllCaches` | consciousness/runtime/llm.c:150-151 | With successful decodes the model's cache gets all generated tokens |
| `Llm.ThinkSyncedIff` | consciousness/runtime/llm.c:145-151 | From agreement, generation keeps cache and window equal if and only if every token found room |
| `Llm.LongThoughtLosesAgreement` | consciousness/runtime/llm.c:127-154 | After eight feeds of 496 tokens a thought of 127 tokens keeps agreement and one of 128 loses it |
| `Llm.FeedSyncedIff` | consciousness/runtime/llm.c:88-107 | With successful decodes a feed ends in agreement if and only if it compressed or began in agreement |
| `Llm.RefusalLosesAgreement` | consciousness/runtime/llm.c:145-151 | A refused decode loses agreement exactly when its token was recorded |
| `Llm.RunKeepsWindow` | consciousness/runtime/llm.c:75-159 | Over every life, whatever the model answers, the window is the latest part of all recorded tokens, at least 3072 of them or all, and at most 4095 |
| `Llm.RunAgrees` | consciousness/runtime/llm.c:75-159 | Over every life without failed decodes or restart, the cache equals the window after every feed and whenever the window has room |
| `Llm.RestartSyncedIff` | consciousness/runtime/llm.c:36-67 | A restart keeps agreement if and only if the window is empty |
| `Llm.RestartKeepsWindow` | consciousness/runtime/llm.c:36-67 | It keeps the window's invariant |
| `Llm.Runtime.Start` | consciousness/runtime/llm.c:36-67 | Return codes, and the empty cache of a new model context beside the old window; a second start that gets no context loses the old one and stays ready |
| `Llm.Runtime.Shutdown` | consciousness/runtime/llm.c:164-168 | Not ready, cache gone, window kept |
| `Llm.Runtime.FeedText` | consciousness/runtime/llm.c:75-108 | Window, cache and record after a feed are the specified ones, or nothing changes and -1 is returned |
| `Llm.Runtime.ThinkOn` | consciousness/runtime/llm.c:115-159 | Window, cache, record and the terminated text are the specified ones, or nothing changes and -1 is returned |

## Left out

- The translation buffer, control registers and halting: `invlpg`, loading CR3 and `hlt` are no steps of the model; a
  fault that halts is an outcome.
- Kernel.MemoryManager.VmmGetPte: has no level parameter, because every caller passes 1.
- Page tables other than the kernel's: the runs in `System` use one root, as all callers do.
- LRU eviction, swap-out and swap file access: only described in comments; `swap_used` is never incremented.
- Kernel.MemoryManager.MemoryInit: asks for at most 2^25 counted pages, because overlapping regions that count more
  would make the allocator read past its bitmap.
- Kernel.MemoryManager.PmmFree: asks for an address that the bitmap tracks, because the C code indexes it unchecked.
- The byte layout of the firmware's descriptors and their stride: the memory map is a list of the three fields read.
- Null-pointer checks, logging, directory creation and the text of action results.
- Failed or short file writes: the results of writing are ignored by the code, and writing always succeeds here.
- MemoryStores.MemoryStore.FlushAll: asks for at most 4095 entries unless nothing is dirty, because the index buffer
  overflows beyond them. The specified flush is not defined there, and neither are stores and outputs that would reach
  such a flush; every result on them carries that premise. The capacity of the store is a parameter.
- MemoryStores.MemoryStore.LoadAll: asks for an index of at most 4095 rows and for room in the array, because the C code
  checks neither.
- `mem_strdup` on the bump heap: whether a text finds room is a parameter, since the heap's state is shared.
- `aion_memory_get_recent`, `serial_printf` formats other than numbers, and the camera and network fields of the senses.
- ActionMethods.ParseParamInt: does not wrap numbers of 2^63 and more, because signed overflow is undefined in C.
- ActionMethods.Handle: runs storing, recalling, sound and writing files; the other handlers read files, drive devices or
  wait, change neither memories nor files, and are outcomes that carry their token.
- Handlers.StoreThenRecall: asks for an importance below 2^63 in every store of the output, because the parser's signed sum
  is undefined beyond; so do all results on whole outputs.
- Handlers.FileTokenYields: asks for a path of at most 2017 bytes, because the token buffer cuts longer tokens within the
  name of the data; the 2047 bytes that remain of such a token are read by the same specified call.
- Batches larger than the model's batch size: whether a decode succeeds is a parameter for any batch.
- Llm.Runtime.FeedText: asks for a model context if the runtime is ready, because a failed second start leaves it ready
  without one and the C code then passes a null pointer on; so does `Llm.Runtime.ThinkOn`.
- Moving memory with `memmove` in the store is a loop here; entries hold their text instead of a pointer to it.
