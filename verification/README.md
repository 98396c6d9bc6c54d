# INWOX: verified models of the kernel and its C library

INWOX is a small 32-bit x86 kernel with a C library of its own. This project models, in Dafny, the parts of it
whose correctness is a matter of long-lived invariants, and proves those invariants and what follows from them.

- **The heap** (`heap_blocks`, `heap_ledger`, `heap_memory`, `malloc`, `realloc`). `malloc`, `free` and `realloc` run on a memory of
  32-bit words, store by store as in the C functions. They are proved to perform steps on a chain of regions and
  blocks; the whole-run properties (exact tiling, no two free neighbours, every mapping returned once, live blocks exactly
  those allocated and not freed) are proved there.
- **Address spaces** (`frame_stack`, `page_tables`, `address_space`, `flat_maps`, `space_rules`, `space_tables`,
  `memory_map`, `fork`, `lifecycle`, `destroy`, `boot`). Directories, tables and the stack of free frames are words of
  physical memory that the kernel reaches only through the pages at which the running space maps them. One invariant,
  `Spaces.Valid`, ties the linked segment lists and their descriptor pool, the flat page maps of all spaces, used frames
  and free frames together. Every operation from boot to fork keeps it. What the processor allows is stated on the bits of
  both levels of entries, with write protection on, as `kernel/src/arch/i686/loader.s:158-160` sets it: no store to a
  directory, a table, the frame stack or copied memory goes through a page that the kernel may not write. Statements that
  no other page changes are about all pages but those of the frame stack's own 4 MiB window, which taking and giving back
  frames maps and unmaps.
- **Segments** (`segments`, `segment_lists`, `segment_table`, `space_segments`). The sorted, doubly linked lists with
  their descriptor pool, and an exact account of what `removeSegment` does for every range.
- **Formatted output and number parsing** (`digits`, `print_fields`, `vcbprintf`, `print_laws`, `vsprintf`, `strtol`,
  `print_parse`), after sections 7.21.6.1 and 7.22.1.4 of ISO/IEC 9899:2011. `print_laws` says what each conversion prints by
  its characters and the number they denote, and that a directive is read as it was written.
- **The terminal** (`terminal_lines`, `line_editing`, `terminal`) and **the run queue** (`run_queue`, `process`): circular
  buffer and linked records refine simple state machines, whose runs are then reasoned about. `line_editing` says on the key
  sequence alone which characters survive editing; a ledger of exits kept beside the run says what a wait must return.
- **Names** (`paths`, `file_tree`, `canonical`, `initrd`, `ramdisk_image`): path resolution, the climb through `..` that
  inverts it, and the loader of the initial RAM disk, an archive in the ustar interchange format of IEEE Std 1003.1-2017.
  `ramdisk_image` writes archives field by field, as the format lays them out, and shows that the loader reads them.

The model is sequential. Addresses and sizes are mathematical integers with the bounds of 32-bit words stated, and
arithmetic that wraps around in the source wraps around here (`Segments.Wrap`, `NumberParsing.Wrap`,
`Formatter.Extended`). Hardware, clocks and memory obtained from the system appear as parameters: the address of a
fresh mapping is `place`, its contents are `fill`.

## What the proofs found

Where the code does less than it seems to promise, the model keeps the code as it is and states when it does what it
should.

- `realloc` in place leaves one back link pointing at the old place of the free block. `ReallocHeap.Realloc` states that
  the heap is well formed afterwards if and only if the call did not resize in place. When the block behind the resized
  pair is freed, free merges at that old place if and only if the word there still is the magic number of a free block
  (`ReallocHeap.FreeBehind`); when the block has grown, the place lies in its live payload (`ReallocHeap.OldPlaceLive`).
  `ReallocHeap.HarmReached` is a run from the static heap that changes live payload words this way.
- `removeSegment` is exact only for some ranges; `Segments.RemoveExactlyWhen` gives the condition for all of them, and
  `SegmentTable.RemoveRange` shows that a split leaves a stale link.
- `strtoul` does not accept the 0 of a `0x` without hexadecimal digits; `NumberParsing.StandardResult` shows that this is
  the only difference from the standard.
- `strtol` computes a value that no long can hold for every digit behind a minus sign, where it subtracts `LONG_MIN` from
  0, and for a digit whose product has wrapped around to a negative number, which it subtracts from `LONG_MAX`; it does so
  exactly then (`NumberParsing.Strtoul`), as in "2147483650" (`NumberParsing.OverflowExamples`), and never for a number
  without a minus sign that is at most `LONG_MAX` (`NumberParsing.DefinedBelow`).
- The formatter stores one byte in front of the buffer for the digits of a number exactly when the number is 0
  (`PrintFields.ConvertInteger`), and negates a number out of range exactly for the least signed one
  (`PrintFields.PrintInteger`). `Formatter.Vcbprintf` says of a whole format when either happens.
- A keystroke that finds the terminal's buffer full can ever go on, without a flush, if and only if a completed line is
  there to be read (`TerminalLines.RoomExactlyWhen`). It waits inside the keyboard's interrupt, for which
  `kernel/src/interrupt.cpp:77` leaves interrupts off: on one processor no reader would run even then.
- A name that fills its field in a header of the RAM disk, as the format allows, is read on into the mode behind it; a field
  filled to its end is read right if and only if the next one begins with a NUL (`RamdiskImages.FullField`).
- `%t` with an unsigned conversion prints the 64-bit pattern of the sign-extended value (`PrintLaws.IntegerPrints`).
- An end-of-file typed on an empty line overtakes committed bytes that are still unread; lines and end-of-files come out
  in the order typed if and only if that never happens: `TerminalLines.OrderedExactly`, `TerminalLines.EofOvertakes`.
- A destroyed address space leaks its page tables, and all of its frames come back if and only if it had none
  (`Destruction.LeakExactly`); its directory, though free, stays mapped in the kernel, and the two descriptors of its
  reserved segments stay in use (`Destruction.Destroy`).

## Model

| member | source | states |
|---|---|---|
| HeapBlocks.RunsSound | libc/src/stdlib/malloc.c:53-200 | over every run of malloc and free from the static empty heap every state is sound: regions exactly tiled, apart, no two free neighbours, none wholly free, outstanding mappings exactly the regions with their sizes |
| HeapBlocks.NothingLiveNothingMapped | libc/src/stdlib/free.c:31-60 | when nothing is live after a run, only the static region is left and every mapping was unmapped as often as it was mapped, with its own size |
| HeapBlocks.MallocSound | libc/src/stdlib/malloc.c:146-200 | malloc keeps soundness and maps at most one region |
| HeapBlocks.MallocResult | libc/src/stdlib/malloc.c:146-200 | the payload is 16-byte aligned, was not live before, is live now and at least as large as requested |
| HeapBlocks.FreeSound | libc/src/stdlib/free.c:31-60 | free keeps soundness: both neighbours merged, an empty region given back |
| HeapBlocks.PayloadsApart | libc/src/stdlib/malloc.h:44-58 | payloads are aligned and overlap neither each other nor any header |
| HeapLedger.OutstandingLive | libc/src/stdlib/malloc.c:146-200 | over every run of malloc and free, in every state: an address is live exactly when malloc returned it and it was not freed since, and its block is at least as large as the request |
| HeapLedger.OutstandingApart | libc/src/stdlib/malloc.h:44-58 | in every state of such a run outstanding allocations are aligned and do not overlap in any byte asked for |
| HeapLedger.MallocLive | libc/src/stdlib/malloc.c:146-200 | malloc adds its result to the live blocks and keeps every other where it is and as large as it is |
| HeapLedger.FreeKeepsLive | libc/src/stdlib/free.c:31-60 | free takes its argument from the live blocks and keeps every other where it is and as large as it is |
| HeapBlocks.CarvedKeeps | libc/src/stdlib/malloc.c:133-144 | cutting a block keeps its span, leaves no block of size 0, and hands out at most a header more than asked |
| HeapBlocks.FreshRegionFits | libc/src/stdlib/malloc.c:63-99 | a region mapped for a request is well formed, of the mapped size, and its first block fits |
| HeapBlocks.ReleaseTidy | libc/src/stdlib/free.c:38-47 | around a freed block no two free neighbours remain |
| HeapMemory.ReadHeader | libc/src/stdlib/malloc.h:44-58 | in memory each next is the following tile, each prev its inverse, the last tile the END header |
| HeapMemory.Splice | libc/src/stdlib/malloc.c:104-144 | rewriting a stretch of blocks by one of the same span, and the one link back to it, keeps the layout |
| HeapMemory.PayloadOutside | libc/src/stdlib/malloc.h:44-58 | headers and the blocks between them hold no word of another live payload |
| MallocHeap.Allocator.constructor | libc/src/stdlib/malloc.c:53-57 | the two static headers represent the empty heap |
| MallocHeap.Allocator.AllocateBigBlock | libc/src/stdlib/malloc.c:63-99 | a fresh region, whatever its pages hold, becomes one free block between its headers, linked at the chain's end; no other word changes |
| MallocHeap.Allocator.UnifyBlocks | libc/src/stdlib/malloc.c:104-111 | merges a block with its successor and relinks the block after both, whatever the two are used for |
| MallocHeap.Allocator.SplitBlock | libc/src/stdlib/malloc.c:133-144 | the two halves tile the old block and the next header links back to the second |
| MallocHeap.Allocator.Search | libc/src/stdlib/malloc.c:159-199 | the walk terminates at the first fitting block in chain order, growing the chain at most once and only when nothing fits |
| MallocHeap.Allocator.Malloc | libc/src/stdlib/malloc.c:146-200 | the memory represents exactly the malloc step, the returned address is the specified one, and no live payload word changes |
| MallocHeap.GrownFits | libc/src/stdlib/malloc.c:185-194 | a region just mapped always fits, so no second one is mapped |
| MallocHeap.Allocator.Coalesce | libc/src/stdlib/free.c:38-47 | marks the block free and merges both free neighbours; other payloads keep their words |
| MallocHeap.Allocator.ReleaseRegion | libc/src/stdlib/free.c:48-58 | a wholly free region leaves the chain, both links around it are mended, and it is unmapped with its size |
| MallocHeap.Allocator.Free | libc/src/stdlib/free.c:31-60 | the memory represents exactly the free step, every other live payload keeps its words, and a null pointer changes nothing |
| MallocHeap.UnlinkRep | libc/src/stdlib/free.c:50-56 | the chain without the region is well formed in memory |
| ReallocHeap.ChangeChunkSize | libc/src/stdlib/realloc.c:38-46 | both headers fit the new sizes, the shorter payload is untouched, the old header behind it still reads as it did, nothing outside the two blocks changes |
| ReallocHeap.ResizeInPlace | libc/src/stdlib/realloc.c:66-73 | forward tiling is right, the one stale back link is named, payload words and the words of the old header are kept |
| ReallocHeap.StaleIsWrong | libc/src/stdlib/realloc.c:38-46 | with the stale link memory does not represent the resized chain |
| ReallocHeap.ResizeStep | libc/src/stdlib/realloc.c:38-46 | mending that single link would restore the representation |
| ReallocHeap.Move | libc/src/stdlib/realloc.c:74-82 | malloc, copy and free compose: the common bytes arrive, every other live payload is kept |
| ReallocHeap.MallocKeepsLive | libc/src/stdlib/malloc.c:146-200 | a live block survives malloc with its address and size, and is not the new one |
| ReallocHeap.Realloc | libc/src/stdlib/realloc.c:48-83 | the block stays exactly with its size, or next to a free block when it shrinks or that block has more than a header to spare; in all three outcomes the first min(old, new) bytes and all other payloads are kept; well formed afterwards if and only if it was not resized in place |
| ReallocHeap.OldPlaceLive | libc/src/stdlib/realloc.c:38-46 | the old header of the free block lies in the live payload if and only if the block has grown |
| ReallocHeap.FreeBehind | libc/src/stdlib/free.c:38-44 | free of the block behind a resized pair merges at the old place of the free block if and only if the magic number is still there, and then rewrites the size and next there |
| ReallocHeap.HarmReached | libc/src/stdlib/realloc.c:48-83 | three mallocs, one free and a realloc from 16 to 32 bytes in place: memory does not represent the heap, and the next free changes words of the live payload |
| Segments.LowestGap | kernel/src/memorysegment.cpp:175-185 | the gap found is vacant, below the last segment, and no lower address above the first segment has that much room |
| Segments.AddAsserts | kernel/src/memorysegment.cpp:193-212 | both assertions of addSegment hold if and only if the range is vacant |
| Segments.AddSorted | kernel/src/memorysegment.cpp:193-212 | adding a vacant range keeps the list sorted and disjoint |
| Segments.AddCovers | kernel/src/memorysegment.cpp:193-212 | adding covers exactly the new range in addition |
| Segments.CleanExact | kernel/src/memorysegment.cpp:102-166 | from a segment's start over ranges without an inner gap the loop removes exactly the range and never splits |
| Segments.RemoveFromStart | kernel/src/memorysegment.cpp:112-137 | a range that starts at a segment is removed exactly if and only if no gap inside it is followed by another segment of it |
| Segments.RemoveCovered | kernel/src/memorysegment.cpp:102-166 | a range covered throughout is removed exactly if and only if it starts where a segment starts |
| Segments.TailExact | kernel/src/memorysegment.cpp:138-163 | when a range that starts inside a segment is removed exactly: the trimmed bytes are deducted twice |
| Segments.RemoveExactlyWhen | kernel/src/memorysegment.cpp:102-166 | for every range between the reserved ends: removed exactly, with links intact, if and only if a condition on the list before the call holds |
| Segments.RemoveKeepsFlags | kernel/src/memorysegment.cpp:102-166 | a removal that is exact, and any within one segment, splits included, leaves parts of the segments there were, each with its flags |
| Segments.MiddleExample | kernel/src/memorysegment.cpp:143-155 | a removal that splits: the middle page of three |
| Segments.TailExample | kernel/src/memorysegment.cpp:138-161 | a removal that leaves a covered byte of its range |
| SegmentLists.InsertRep | kernel/src/memorysegment.cpp:193-212 | relinking on both sides gives a proper doubly linked list with the new value in place |
| SegmentLists.UnlinkRep | kernel/src/memorysegment.cpp:123-131 | taking a node out gives a proper doubly linked list without it |
| SegmentLists.FreeSlotsChange | kernel/src/memorysegment.cpp:276-311 | filling or clearing one slot changes the count of free slots by one |
| SegmentTables.SegmentTable.NewSpace | kernel/src/addressspace.cpp:99-101 | a new space gets its two reserved segments, the second from the pool; every other list keeps its segments, but for the pool's own new page in kernel space |
| SegmentTables.SegmentTable.AllocateSegment | kernel/src/memorysegment.cpp:222-242 | returns a free slot that no list holds; its scan never runs off the last page |
| SegmentTables.SegmentTable.FindFreeSegment | kernel/src/memorysegment.cpp:175-185 | returns the start of the first gap of the size |
| SegmentTables.SegmentTable.InsertSegment | kernel/src/memorysegment.cpp:193-212 | walks to the place, the asserts hold, exactly one list grows |
| SegmentTables.SegmentTable.VerifySegmentList | kernel/src/memorysegment.cpp:276-311 | afterwards at least two slots are free; at one free slot a page of 204 more is described by a segment of kernel space, which `MemoryMaps.Spaces.MapMemory` backs with a frame |
| SegmentTables.SegmentTable.AddSegment | kernel/src/memorysegment.cpp:87-93 | keeps all lists and the pool in order and adds exactly the segment, plus the pool's page when it was due |
| SegmentTables.SegmentTable.FindAndAddNewSegment | kernel/src/memorysegment.cpp:262-270 | the same at the lowest fitting gap, whose address is returned |
| SegmentTables.SegmentTable.RemoveRange | kernel/src/memorysegment.cpp:102-166 | for every range the loop terminates with the specified values, and the list is properly linked if and only if nothing was split |
| SegmentTables.SegmentTable.RemoveSegment | kernel/src/memorysegment.cpp:102-166 | an exact removal keeps all lists and the pool in order and uncovers exactly the range; a range that is one segment takes out its descriptor and leaves the others in order |
| FrameStacks.FrameStack.constructor | kernel/src/physicalmemory.cpp:42-46 | the stack starts with no frames |
| FrameStacks.PageStored | kernel/src/physicalmemory.cpp:168-171 | a frame mapped below the last page of the stack becomes its next page, and the words of all entries stay |
| FrameStacks.EntryStored | kernel/src/physicalmemory.cpp:172-175 | a frame stored as the next entry lies on a page of the stack, in a word that holds no other entry |
| FrameStacks.StackFits | kernel/src/physicalmemory.cpp:165-181 | with distinct frames below 2^20 there is always room for one more page of the stack |
| PageTables.TableReached | kernel/src/addressspace.cpp:356-358 | the recursive entry shows the kernel's tables at the same pages in every space |
| PageTables.KernelReached | kernel/src/addressspace.cpp:376-385 | a kernel page is mapped in every space as in the kernel's own tables |
| PageTables.KernelClosed | kernel/src/addressspace.cpp:360-369 | in no space user mode may read or write a page from 3 GiB up |
| PageTables.KernelWritable | kernel/src/addressspace.cpp:61-68 | from every space the kernel may write each of its pages whose own entry allows it |
| PageTables.TableWritable | kernel/src/addressspace.cpp:356-358 | from every space the kernel may write its tables and its directory through the recursive entry |
| PageTables.TableStored | kernel/src/addressspace.cpp:392-393 | writing a table entry changes one page of one space and keeps the invariant of the tables |
| PageTables.PdeStored | kernel/src/addressspace.cpp:360-375 | entering a new table affects the pages of its entry only |
| AddressSpaces.Vm.constructor | kernel/src/addressspace.cpp:202-214 | from the boot directory: the identity mapping and its directory entry are gone, the tables are in order |
| AddressSpaces.Vm.Propagate | kernel/src/addressspace.cpp:376-385 | a new kernel entry reaches the directories of all spaces through the pages at which they are mapped |
| AddressSpaces.Vm.Store | kernel/src/addressspace.cpp:392-393 | demands that both levels let the kernel write the page, which every caller proves, and changes one word of the frame shown there |
| AddressSpaces.Vm.PushPageFrame | kernel/src/physicalmemory.cpp:165-181 | exactly one frame more is free, as a word of the stack or as its next page; no page changes but in the stack's window, and no table is added |
| AddressSpaces.Vm.PopPageFrame | kernel/src/physicalmemory.cpp:183-201 | returns a free frame and leaves exactly the others, or 0 exactly when none is free; no page changes but in the stack's window, and the call never comes back to itself |
| AddressSpaces.Vm.AddKernelTable | kernel/src/addressspace.cpp:356-385 | a new kernel table is entered in all spaces alike, no page of any space changes |
| AddressSpaces.Vm.KernelMap | kernel/src/addressspace.cpp:348-407 | the page of the kernel becomes the word, no other page of any space changes, all spaces still share the kernel's entries |
| AddressSpaces.Vm.AddUserTable | kernel/src/addressspace.cpp:360-375 | a user space gets a cleared table of its own, reached through the temporary page; its directory entry, like every one of a user space, is writable and open to user mode |
| AddressSpaces.Vm.UserMap | kernel/src/addressspace.cpp:348-407 | the page of the user space becomes the word, no other page of any space changes, the temporary page is free again |
| AddressSpaces.Vm.GetPhysicalAddress | kernel/src/addressspace.cpp:272-296 | for every page: returns the frame the space's directory leads to, 0 where nothing is mapped, and changes no flat map; only the temporary page, asked of a user space, reads as the table mapped there meanwhile |
| FlatMaps.FramesApart | kernel/src/addressspace.cpp:470-484 | no two user pages, of one space or of two, are mapped to the same frame |
| FlatMaps.MappedNotFree | kernel/src/addressspace.cpp:528-538 | no frame is both free and mapped as memory |
| SpaceRules.CoveredBacked | kernel/src/addressspace.cpp:470-484 | a page covered by a segment of a user space is backed by a frame used for it |
| SpaceRules.VacantUnmapped | kernel/src/addressspace.cpp:446-458 | in a vacant range nothing is mapped |
| MemoryMaps.Spaces.MapPage | kernel/src/addressspace.cpp:476-481 | one free frame becomes the page's memory, no other page changes |
| MemoryMaps.Spaces.MapFrames | kernel/src/addressspace.cpp:476-481 | every page of the range gets a frame of its own from the free ones |
| MemoryMaps.Spaces.Reserve | kernel/src/memorysegment.cpp:87-93 | the linked list of the space, and its value, gain exactly the range, and the kernel's list the pool's next page when no slot is left to spare |
| MemoryMaps.Spaces.Release | kernel/src/memorysegment.cpp:102-166 | the linked list of the space, and its value, lose exactly the range, and no free slot |
| MemoryMaps.Spaces.MapMemory | kernel/src/addressspace.cpp:470-484 | segments, flat maps, used and free frames change exactly by the range, after the same change by the pool's own page when the pool has to grow, and stay in agreement; user mode may use the pages exactly in a user space, and they may be written exactly with PROT_WRITE |
| MemoryMaps.Spaces.MapMemoryAnywhere | kernel/src/addressspace.cpp:446-458 | the same at the lowest gap that fits, with the same protection |
| MemoryMaps.FlagsProtect | kernel/src/addressspace.cpp:322-336 | the bits of both entries allow user mode exactly in a user space and writing exactly with PROT_WRITE |
| MemoryMaps.Spaces.UnmapPage | kernel/src/addressspace.cpp:531-535 | the page is unmapped and its frame is free again |
| MemoryMaps.Spaces.UnmapMemory | kernel/src/addressspace.cpp:528-538 | uncovers exactly the range, unmaps its pages and frees exactly their frames |
| MemoryMaps.Spaces.MapAndUnmapMemory | kernel/src/addressspace.cpp:470-538 | mapping and unmapping restores segments and all flat maps, and the free frames apart from those kept as tables and a page the pool maps itself |
| Forks.MapFrom | kernel/src/addressspace.cpp:420-437 | the kernel shows the frames of another space's pages at its lowest gap, closed to user mode and writable exactly with PROT_WRITE, and no other page or segment changes |
| Forks.UnmapPhysical | kernel/src/addressspace.cpp:548-556 | the range shows nothing any more and no frame is freed |
| Forks.CopyPages | kernel/src/addressspace.cpp:254-256 | copying through borrowed pages, of which the destination has to be writable, writes only the destination's memory and copies every word |
| Forks.CopyThrough | kernel/src/addressspace.cpp:254-258 | borrowing both ranges, copying and withdrawing restores all maps and segments and leaves the copy |
| Lifecycles.Create | kernel/src/addressspace.cpp:93-112 | a new space has the kernel's entries, no page of its own, the two reserved segments, and a directory window in the kernel |
| Lifecycles.CopySegments | kernel/src/addressspace.cpp:244-264 | the loop follows the links of the parent's list, which copying leaves as they are, and copies every removable segment with its flags and contents |
| Lifecycles.Fork | kernel/src/addressspace.cpp:244-264 | given frames for the directory, the pages and the tables of the directory entries they lie in: the child has the parent's segments and flags, every word reads the same, every page allows what its segment says, no frame is shared, the kernel's list gains exactly the page of the child's directory, the parent and all other spaces are unchanged, and all frames taken were free |
| Lifecycles.ForkProtects | kernel/src/addressspace.cpp:248-253 | every page of a copied segment is open to user mode and writable exactly when the segment of the parent has PROT_WRITE |
| Destruction.EmptySpace | kernel/src/addressspace.cpp:136-143 | the destructor's loop follows links it read before their descriptors were removed, ends behind the last one, and frees exactly the memory of the space |
| Destruction.Destroy | kernel/src/addressspace.cpp:122-145 | memory and directory of the space are free, its tables are neither free nor reachable, no page of another space changes, its two reserved descriptors stay on their list |
| Destruction.LeakExactly | kernel/src/addressspace.cpp:136-144 | all frames in use for the space are free again if and only if it had no table; otherwise exactly its tables are lost |
| Destruction.Activate | kernel/src/addressspace.cpp:229-232 | the invariant holds whichever space the processor runs in |
| Boot.Initialize | kernel/src/addressspace.cpp:202-222 | the kernel's space at boot, and the frames pushed on the empty stack, satisfy the invariant that every later operation keeps |
| Boot.GiveFrames | kernel/src/physicalmemory.cpp:138-151 | the loop that fills the stack makes exactly those frames free and changes no page outside the stack's window |
| PrintFields.ConvertInteger | libc/src/stdio/vcbprintf.c:78-91 | the buffer gets the digits of the value, at most 22 of its 24 bytes, and nothing else of the frame changes but, exactly for 0, the byte in front of the buffer |
| PrintFields.PrintInteger | libc/src/stdio/vcbprintf.c:94-188 | passes on the specified field; the result is its length, or negative exactly when that exceeds INT_MAX or the callback stops; a store out of bounds or a negation out of range happens exactly for 0 and the least signed number |
| PrintFields.IntegerLayout | libc/src/stdio/vcbprintf.c:94-188 | [spaces][sign][0x][zeros][digits][spaces] with at most one padding group; the digits denote the magnitude |
| PrintFields.IntegerLength | libc/src/stdio/vcbprintf.c:94-188 | the field is as long as its core, or as the field width when that is more |
| PrintFields.PrintString | libc/src/stdio/vcbprintf.c:190-209 | the bytes padded on one side, with the same account of the result |
| Formatter.TokensCover | libc/src/stdio/vcbprintf.c:223-460 | no character of a format is lost or read twice, also behind a conversion that is not known |
| Formatter.ParseDirective | libc/src/stdio/vcbprintf.c:230-325 | the scan of flags, width, precision and length modifier ends at the specifier |
| Formatter.PrintConversion | libc/src/stdio/vcbprintf.c:325-457 | what one conversion prints, takes from the arguments and stores, and whether it prints 0 or the least signed number |
| Formatter.Vcbprintf | libc/src/stdio/vcbprintf.c:211-462 | terminates for every format; a non-negative result is the number of bytes passed on, which are the text of the format; printed to its end, a format leaves what C defines if and only if it prints 0 or the least signed number |
| PrintLaws.IntegerPrints | libc/src/stdio/vcbprintf.c:354-400 | for every integer conversion, length modifier and argument: the printed number is congruent to the argument and in the range of its type, its digits denote its absolute value without leading zeros in the case of the specifier, and sign, prefix, zeros and spaces are those the flags, width and precision ask for |
| PrintLaws.SignedPrints | libc/src/stdio/vcbprintf.c:354-384 | for x in the range of its length modifier: %d and %i print a '-' exactly when x < 0, and digits that denote the absolute value of x |
| PrintLaws.TextPrints | libc/src/stdio/vcbprintf.c:190-209 | %s shows the string, cut to the precision, and %c its character modulo 256, with spaces in front or, with '-' or a negative width argument, behind |
| PrintLaws.PointerPrints | libc/src/stdio/vcbprintf.c:325-457 | %p prints 0x and the hexadecimal digits of the address, and 0 for the null pointer |
| PrintLaws.CountStored | libc/src/stdio/vcbprintf.c:325-457 | the number stored for each %n is the length of what the tokens in front of it printed |
| PrintLaws.DirectiveRead | libc/src/stdio/vcbprintf.c:230-325 | a directive written from chosen flags in any order, width, precision and length modifier is read back as exactly those |
| PrintLaws.DirectivePrints | libc/src/stdio/vcbprintf.c:223-460 | a format that is one written directive prints what that directive asks for, and nothing else |
| PrintLaws.UnknownIsPlain | libc/src/stdio/vcbprintf.c:223-460 | from a conversion that is not known on, the rest of the format is printed as it stands |
| StringPrinting.StoreBytes | libc/src/stdio/vsprintf.c:31-40 | the bytes go where the caller's pointer has reached, and the pointer behind them |
| StringPrinting.Vsprintf | libc/src/stdio/vsprintf.c:42-49 | the buffer holds the text and a NUL at the offset returned, nothing behind it is touched |
| Digits.DigitsDenote | libc/src/stdio/vcbprintf.c:78-91 | the digits of a number denote it |
| Digits.DigitsBound | libc/src/stdio/vcbprintf.c:78-91 | no 64-bit number has more than 22 digits in a base from 8 on |
| NumberParsing.Strtoul | libc/src/stdlib/strtol.c:56-143 | value, end and error are as specified, for every string and base, except exactly when strtol meets a digit behind a minus sign or a product that wraps around to a negative number |
| NumberParsing.Accumulate | libc/src/stdlib/strtol.c:98-124 | although the accumulator wraps around, the overflow flag is set if and only if the exact number is too large; the signed comparisons leave the range of long exactly under the condition stated |
| NumberParsing.WrapsAt | libc/src/stdlib/strtol.c:111-119 | that condition says that the wrapped product behind some proper prefix of the digits is negative |
| NumberParsing.DefinedBelow | libc/src/stdlib/strtol.c:98-124 | a number without a minus sign that is at most LONG_MAX is computed within the range of long |
| NumberParsing.OverflowExamples | libc/src/stdlib/strtol.c:111-115 | "2147483650" leaves the range of long at its last digit, "4294967300" does not and gives LONG_MAX |
| NumberParsing.ReadsBack | libc/src/stdlib/strtol.c:56-143 | digits behind the prefix of their base are read to the end as the number they denote |
| NumberParsing.StandardResult | libc/src/stdlib/strtol.c:56-143 | with the subject sequence defined as the longest initial string of the expected form: strtoul returns its value and end if and only if the input is not a 0x without digits |
| NumberParsing.SubjectUnique | libc/src/stdlib/strtol.c:62-118 | every input has one subject sequence, and it ends behind the digits strtoul reads, or behind the 0 of a 0x without digits |
| NumberParsing.DanglingExample | libc/src/stdlib/strtol.c:94-96 | such an input: "0x" |
| NumberParsing.SpaceSkipped | libc/src/ctype/isspace.c:32-35 | each of the six white-space characters in front of a string leaves its value and its error alone and moves the end by one |
| NumberParsing.OtherStops | libc/src/stdlib/strtol.c:62-143 | any other character that is neither a sign nor a digit of the base in front gives no conversion |
| PrintParse.PrintThenParse | libc/src/stdlib/strtoul.c:29-35 | strtoul with base 0 reads back the field of %u, %#x, %#X and %#o to its end |
| PrintParse.RoundTrip | libc/src/stdlib/strtoul.c:29-35 | the same from the format string to the parsed number; only printing 0 stores outside the buffer on the way |
| TerminalLines.RunsFaithful | kernel/src/terminal.cpp:112-246 | over every interleaving of keys, reads and changes of the settings the bytes delivered are those delivered by the last flush and then a prefix of the lines edited since, the rest is waiting, and in canonical mode newlines only end reads |
| TerminalLines.EofsAccounted | kernel/src/terminal.cpp:112-246 | over every run each end-of-file typed on an empty line is one read that returned nothing, still waits, or was flushed |
| TerminalLines.CommittedStays | kernel/src/terminal.cpp:112-155 | no later keystroke takes back a completed line, only a flush does |
| TerminalLines.ReadsDeliver | kernel/src/terminal.cpp:186-218 | however reads go on, what they deliver is what was to come out before, in that order |
| TerminalLines.OrderedSince | kernel/src/terminal.cpp:112-246 | after any run what came out and is to come out is what was typed since the last flush, in that order, if and only if since then no end-of-file was typed on an empty line with committed bytes unread |
| TerminalLines.OrderedExactly | kernel/src/terminal.cpp:112-246 | lines and end-of-files come out in the order typed at every moment of a run if and only if each end-of-file on an empty line was typed when no committed byte was unread |
| TerminalLines.EofOvertakes | kernel/src/terminal.cpp:186-218 | a run in which a line is completed, an end-of-file typed, and the read that follows returns the end-of-file and leaves the line |
| TerminalLines.RoomExactlyWhen | kernel/src/terminal.cpp:89-95 | with a full buffer, reads and changes of the settings that flush nothing can make room if and only if a committed byte is there |
| LineEditing.EditedLeft | kernel/src/terminal.cpp:112-155 | over every run the completed lines since the last flush, and the line begun, are the typed characters that survive: those no erase of their own line takes back, where an erase takes the last one that is left |
| LineEditing.RunsKeep | kernel/src/terminal.cpp:112-246 | over every run what was read and what waits to be read since the last flush are the surviving characters of the completed lines, in the order typed |
| LineEditing.EraseUndoes | kernel/src/terminal.cpp:123-126 | an ordinary character followed by the erase key leaves the whole terminal as it was |
| LineEditing.EraseTakesLast | kernel/src/terminal.cpp:69-80 | the erase key takes exactly the last pending byte, and nothing when there is none |
| Terminals.TerminalBuffer.constructor | kernel/src/terminal.cpp:59-62 | an empty buffer |
| Terminals.TerminalBuffer.Available | kernel/src/terminal.cpp:64-67 | zero exactly when nothing is committed, and what it counts otherwise |
| Terminals.TerminalBuffer.Backspace | kernel/src/terminal.cpp:69-80 | erases the last pending byte, never a committed one |
| Terminals.TerminalBuffer.Write | kernel/src/terminal.cpp:89-95 | one pending byte more, or waiting exactly when the buffer is full |
| Terminals.TerminalBuffer.Read | kernel/src/terminal.cpp:97-102 | the oldest committed byte |
| Terminals.TerminalBuffer.EndLine | kernel/src/terminal.cpp:104-106 | the pending bytes become committed |
| Terminals.Terminal.HandleCharacter | kernel/src/terminal.cpp:112-155 | refines the keystroke on values, and waits exactly when it needs room in a full buffer |
| Terminals.Terminal.HandleSequence | kernel/src/terminal.cpp:157-169 | swallowed in canonical mode, committed as a whole otherwise; when the buffer gets full on the way, what fits is pending and the rest waits |
| Terminals.Terminal.ReadStep | kernel/src/terminal.cpp:186-218 | one iteration of read refines the step on values |
| Terminals.Terminal.Read | kernel/src/terminal.cpp:186-218 | takes a prefix of what is committed, at most one line in canonical mode; returns less than asked for only behind a newline, for an end-of-file, or with nothing left and enough for the mode; waits only with nothing left and less than that |
| Terminals.Terminal.Tcsetattr | kernel/src/terminal.cpp:238-246 | new settings, everything forgotten exactly with TCSAFLUSH |
| RunQueue.RunsSound | kernel/src/process.cpp:93-347 | over every run the list is exactly the processes added and not exited, and each has the context last saved or installed for it |
| RunQueue.ResumesLive | kernel/src/process.cpp:140-159 | a tick never resumes a process that has exited, and the idle process exactly when the list is empty |
| RunQueue.LedgerFinal | kernel/src/process.cpp:269-293 | a ledger kept beside the run knows exactly the processes that have exited, and the status it has of one never changes |
| RunQueue.WaitStep | kernel/src/process.cpp:140-159 | a tick chooses a process or brings it one closer; exits never, additions at most by one, take it further away |
| RunQueue.BoundedWaiting | kernel/src/process.cpp:140-159 | a process that stays listed is passed over for at most the rest of the sweep, one round, and what is added meanwhile |
| Processes.Scheduler.AddProcess | kernel/src/process.cpp:93-101 | the new record, with the next number, at the head of the linked list; of the other records only the link of the former head changes |
| Processes.Scheduler.Schedule | kernel/src/process.cpp:140-159 | refines the queue's tick: the context resumed is the one kept for the process, which is neither terminated nor deleted; of all records only the context and the mark of the one interrupted change |
| Processes.Scheduler.Execute | kernel/src/process.cpp:245-262 | installs a context for a listed process, which the next tick does not overwrite when it is the running one; no other field of any record changes |
| Processes.Scheduler.Exit | kernel/src/process.cpp:269-293 | the record leaves the linked list, stays current until the next tick, and is marked with its status; all other fields of all records stay but for the links around it |
| Processes.Scheduler.Fork | kernel/src/process.cpp:300-347 | a child with a number of its own, the parent's registers as given and no status at the head of the list and at the end of the parent's children; no other field of any record changes but a back link |
| Processes.Scheduler.Waitpid | kernel/src/syscall.cpp:181-191 | over every run the status returned is the one the child exited with, by the ledger kept beside the run; deletes exactly a terminated child of that number, which is neither listed nor current; fails exactly without such a child |
| Paths.Dirname | libc/src/libgen/dirname.c:31-55 | has all components of the path but the last; "." stands for none |
| Paths.Basename | libc/src/libgen/basename.c:31-44 | the last component |
| Paths.LastComponent | libc/src/libgen/basename.c:31-44 | a path ends in the component in front of its trailing slashes |
| FileTrees.FileSystem.NewNode | kernel/src/vnode.cpp:36-44 | every new node has a number no other node has |
| FileTrees.FileSystem.AddChildNode | kernel/src/directory.cpp:49-64 | one more entry at the end; a name that led nowhere leads to the child, and every other name of every directory leads where it did |
| FileTrees.ChildAdded | kernel/src/directory.cpp:49-83 | a name that is taken goes on leading to its first entry |
| FileTrees.FileSystem.GetChildNode | kernel/src/directory.cpp:66-83 | the first entry of that name, the directory itself, or its parent |
| FileTrees.FileSystem.Readdir | kernel/src/directory.cpp:85-113 | ".", "..", then the entries in the order they were added |
| FileTrees.FileSystem.ResolvePath | kernel/src/vnode.cpp:70-108 | follows the path name by name |
| FileTrees.ResolveComponents | kernel/src/vnode.cpp:70-108 | only the components of a path count, and whether it ends in a slash |
| FileTrees.SplitLast | kernel/src/vnode.cpp:70-108 | a path leads to what its last name leads to from where the rest leads |
| CanonicalNames.GetEntryName | libc/src/stdlib/canonicalize_file_name.c:38-49 | "." for the directory itself, ".." for its parent, otherwise the name of an entry that is the node |
| CanonicalNames.Containing | libc/src/stdlib/canonicalize_file_name.c:62-92 | opens the directory that lists the node, or the root for the root |
| CanonicalNames.Climb | libc/src/stdlib/canonicalize_file_name.c:101-148 | the climb terminates, by depth, with a path that leads from the root to the node |
| CanonicalNames.Canonicalize | libc/src/stdlib/canonicalize_file_name.c:51-149 | for every existing path: the result is absolute, leads to the very same node, is "/" exactly for the root, and has as many components as the node is deep; fails exactly when the path leads nowhere |
| InitialRamdisk.OctalRead | kernel/src/initrd.cpp:62-90 | the number in an octal field is what strtoul and strtol read |
| InitialRamdisk.LoadOne | kernel/src/initrd.cpp:62-107 | one header adds exactly its member, or loading stops |
| InitialRamdisk.LoadInitrd | kernel/src/initrd.cpp:57-110 | exactly the members are loaded, up to a non-header, a missing directory or an unknown type; the names in the prefix field followed by those in the name field lead from the root to a node of its kind with its bytes, and the tree is one that canonical names work in |
| InitialRamdisk.PathNames | kernel/src/initrd.cpp:67-72 | the path put together has the names of the prefix and then those of the name field |
| InitialRamdisk.TextIs | kernel/src/initrd.cpp:67-72 | what is read of a field is a string if and only if the field begins with it, it holds no NUL, and a NUL or the end of the archive follows |
| RamdiskImages.HeaderFields | kernel/src/initrd.cpp:34-54 | where the fields of a header lie that is written one after the other |
| RamdiskImages.ImageReads | kernel/src/initrd.cpp:57-110 | an archive of any entries, written header by header with contents padded to whole blocks and zero blocks at the end, is laid out as the loader takes it: its members are those entries, and it ends behind them |
| RamdiskImages.FullField | kernel/src/initrd.cpp:34-54 | a field filled to its end is read as what it holds if and only if the next field begins with a NUL |
| RamdiskImages.LoadExample | kernel/src/initrd.cpp:57-110 | an archive with directories usr and bin and a file of prefix usr and name bin loads with the file at /usr/bin |
| InitialRamdisk.PlaceLeads | kernel/src/vnode.cpp:70-108 | the place of a node in the tree leads to it |
| InitialRamdisk.AddEntry | kernel/src/directory.cpp:49-64 | a new node under a new name keeps every node at one place |

## Left out

- HeapBlocks.RunsSound: the runs are runs of malloc and free; a run may also hold calls of realloc that return early or
  move, since those are such steps (`ReallocHeap.Realloc`), but after a resize in place the stale link ends it.
- MallocHeap.Allocator.Malloc: assumes that mapping a region succeeds and that sizes do not overflow when rounded up;
  `__allocateBigBlock` writes through the mapping before malloc tests it.
- ReallocHeap.Realloc: assumes that the difference between the old and the new size fits a signed 32-bit word.
- ReallocHeap.ResizeInPlace: forward links and one named back link only, because that back link is really wrong.
- Segments.RemoveExactlyWhen: for ranges between the first and the last segment, which every address space reserves and
  nobody unmaps, that begin below the end of the last segment but one; from there on the source follows the null link
  behind the last segment.
- Segments.LowestGap: assumes that a gap fits; the source reads the link of the last segment before its null test.
- SegmentTables.SegmentTable.VerifySegmentList: the descriptors are records by slot; that they are bytes of the page just
  mapped is not modelled.
- Forks.MapFrom: assumes that the pool of descriptors has a slot to spare, so that it does not grow in this call;
  `MemoryMaps.Spaces.MapMemory` states what growing does. The same holds for Create, CopyThrough, CopySegments and Fork,
  with as many slots as their calls add segments.
- MemoryMaps.Spaces.MapMemory: assumes enough free frames, for the memory, for the kernel's tables and for the tables of a
  set of directory entries, chosen before the call (`Vm.needed`), that the range lies in; a mapping that runs out of
  frames returns 0 and leaves what it did, which is not modelled.
- MemoryMaps.Spaces.UnmapMemory: for whole pages that are covered, from the start of a segment on, which by
  `Segments.RemoveCovered` are exactly the covered ranges whose segments come out right.
- Lifecycles.Fork: assumes free frames for the child's directory, memory and tables and for every table the kernel still
  could need, room in the kernel's segments, and descriptors for three segments per segment of the parent; the address
  of the object of a new space is its number, and `first` stands for the address operator new gives its first descriptor.
- Lifecycles.Create: operator new is malloc, which may map memory for itself in the kernel's space; that growth of the
  kernel's segment list, before the list gains the page of the directory, is not modelled, here and in Fork.
- Destruction.Destroy: page tables and the two reserved descriptors stay used, as in the source.
- PrintFields.PrintInteger: when it leaves what C defines, the field is the one that follows when the byte in front of the
  buffer holds nothing and the negation wraps around.
- Formatter.Vcbprintf: widths, precisions and star arguments within an int, arguments that match their conversions.
- NumberParsing.Strtoul: no value where the computation of strtol leaves the range of long.
- StringPrinting.Vsprintf: the bytes reach the array after the formatter has finished instead of one call at a time.
- Terminals.Terminal.HandleCharacter: no echo and no drawing; a call that waits for room is made again when there is some.
- TerminalLines.RunsFaithful: one reader at a time.
- TerminalLines.OrderedExactly: reads of at least one byte, and no settings with which a read returns at once with nothing,
  since such a read looks like an end-of-file.
- Processes.Scheduler.Fork: records live in a table by address instead of as objects of their own; registers, file
  descriptors and the address space of the child are not part of this record.
- Processes.Scheduler.Execute: the installed context and its mark only, not the ELF image or the arguments.
- Processes.Scheduler.Waitpid: one check of the child, `waits` while it runs, together with the deletion that the caller does
  afterwards.
- FileTrees.FileSystem.ResolvePath: nodes are values in a table by inode number; device numbers are all the same.
- CanonicalNames.Canonicalize: memory and descriptors do not run out.
- InitialRamdisk.LoadInitrd: archives in which a file serves as the directory of a later member are excluded, because the
  source then treats a file object as a directory; so are archives that name a path twice, and headers whose numeric
  fields do not begin with an octal digit. Messages are not printed.
- Locks, interrupts and real concurrency, the translation cache of the processor, boot and interrupt assembly, device
  setup, the keyboard, drawing, system call stubs, environment variables and user programs.
- Boot.Initialize: the frames that the multiboot memory map offers are given as a list; the two ranges mapped to read the
  map are not modelled.
