# Memory, console and loader of the x86 Rust bootloader and kernel

This project models how memory travels from firmware's map to a heap allocation, the
framebuffer console that reports on the way, the ELF loader that puts the kernel in
place, and the critical sections everything rests on. It proves what the design
promises of them for every input, every run and every interleaving.

`dafny verify dfyconfig.toml` checks all of it.

| file | subject |
|---|---|
| `Machine.dfy` | integer widths, alignment arithmetic, small helpers |
| `FreeList.dfy`, `HeapModel.dfy`, `Heap.dfy` | the kernel heap: lists of blocks as values, the heap as a state machine, and the heap over one array of words holding headers and payloads alike |
| `MemoryMap.dfy`, `FrameModel.dfy`, `FrameAllocator.dfy` | the memory map's usable runs, the frame allocator as a state machine, and the allocator over links kept in the frames |
| `Transcript.dfy`, `Console.dfy`, `Serial.dfy` | what the screen ought to show, the console that draws it in place, and the serial fan-out |
| `ElfImage.dfy`, `ElfLoader.dfy` | reading a kernel image, and loading it page by page |
| `Interrupts.dfy` | a one-core machine with interrupts between any two instructions |
| `Boot.dfy` | the map's copy at handoff, and end-to-end exclusion |

How the pieces are modelled:

* Imperative code is methods over a class (`Heap.Heap`, `FrameAllocator.FrameAllocator`,
  `MemoryMap.UsableRegions`, `Console.Console`, `Serial.SerialPort`,
  `ElfLoader.Firmware`). Each method is proved equal to a function of the old state, and
  the lemmas are about that function. Values stored as `uint64` are checked to stay in
  range, the sums the loops compare among them.
* The heap's `live` set and the frame allocator's `handed` set are ghost bookkeeping of the
  calls made. A heap pointer may be freed only with a layout of the same rounded size as it
  was allocated with, and only live pointers and frames may be freed, as the kernel's
  contracts say.
* Free memory is described without the list: a byte is vacant if no live allocation holds
  it. The list is proved to be exactly the maximal vacant stretches.
* The frame partition is one equation: the number of places holding a frame is one for a
  usable frame and zero for any other.
* The console's reference is a transcript: split at newlines, wrap lazily, show the last
  rows. To the console pixels are 32-bit words and a colour the sum of its shifted bytes;
  `fill_screen` writes bytes.
* Firmware's page allocator is the set of pages it will still grant. Of firmware's final map
  the exclusion theorems assume that descriptors do not overlap and that pages allocated as
  loader data are reported as such.

Two places where the code is weaker than its words:

* `bootloader/src/elf.rs:47` describes the entry check as "inside a loaded segment". The
  code checks the overall span. `ElfLoader.GapEntryAccepted` is an image that loads with its
  entry in a gap; `ElfLoader.SomeImageStartsOutside` says for which segments such an image
  exists.
* `kernel/src/frame.rs:85` adds a page to the cursor before comparing. On a map that reaches
  the last page of the address space the sum overflows: with one usable page there, on the
  second request of the kernel's life (`FrameModel.TopOfMemoryOverflows`).
  `FrameModel.SumsFitExactly` gives the exact condition on the map, over every run of calls.
  The allocator's methods require that condition and no more headroom.

## Model

| member | source | states |
|---|---|---|
| HeapModel.GridArithmetic | kernel/src/heap.rs:11-25 | requests are raised onto the grid and no further; for every valid layout and grid block, sizes, alignments and payload are multiples of 16, nothing computed overflows 64 bits, and the front and tail of a carve are zero or at least a whole header |
| HeapModel.RequestFits | kernel/src/heap.rs:95-100 | the search overflows on no block, fitting or not |
| HeapModel.FirstFitIsLowest | kernel/src/heap.rs:84-138 | `alloc` returns the lowest aligned address whose bytes no allocation holds, and null only if there is none |
| HeapModel.AllocKeepsInv | kernel/src/heap.rs:81-138 | the new allocation is aligned, large enough and disjoint from every live one; the list stays canonical and exactly covers the vacant bytes |
| HeapModel.AddAllocation | kernel/src/heap.rs:100-128 | carving a vacant stretch out of a free block keeps the whole heap invariant |
| HeapModel.CarveCanonical | kernel/src/heap.rs:100-128 | splitting leaves an ordered list on the grid with no two blocks touching |
| HeapModel.CarveCovers | kernel/src/heap.rs:100-128 | splitting removes exactly the payload's bytes from the free ones |
| HeapModel.CoalesceCanonical | kernel/src/heap.rs:156-189 | merging both ways leaves no two blocks touching |
| HeapModel.CoalesceCovers | kernel/src/heap.rs:156-189 | merging adds exactly the freed bytes |
| HeapModel.DeallocKeepsInv | kernel/src/heap.rs:143-190 | freeing a live allocation keeps the heap invariant and adds its size to the free total |
| HeapModel.HistoryIndependent | kernel/src/heap.rs:81-190 | two heaps with the same live allocations have the same free list |
| FreeList.CanonicalUnique | kernel/src/heap.rs:1-9 | an ordered list of non-touching blocks is determined by the bytes it covers |
| HeapModel.FreeListIsMaximalGaps | kernel/src/heap.rs:81-190 | a block is on the list if and only if it is a maximal vacant stretch |
| HeapModel.AllocThenDealloc | kernel/src/heap.rs:81-190 | freeing a fresh allocation restores the identical heap |
| HeapModel.DeallocThenAlloc | kernel/src/heap.rs:81-190 | freeing and asking again never fails and never moves an allocation up |
| HeapModel.FullRecovery | kernel/src/heap.rs:355-361 | with nothing live the list is the single block `init` wrote |
| HeapModel.Conservation | kernel/src/heap.rs:192-203 | free bytes and live bytes add up to the arena |
| HeapModel.FragmentationBound | kernel/src/heap.rs:205-221 | there are at most one more free blocks than live allocations |
| HeapModel.RunKeepsInv | kernel/src/heap.rs:69-190 | every contract-respecting run keeps the invariant |
| HeapModel.RunsAreCanonical | kernel/src/heap.rs:69-221 | over all runs from boot: canonical, history independent, nothing leaked, bounded fragmentation, full recovery |
| Heap.Relink | kernel/src/heap.rs:104-128 | rewriting the links around a splice makes memory hold the spliced list |
| Heap.LinkedWords | kernel/src/heap.rs:47-50 | the first word of a free block is its size, the second the next block's address or null |
| Heap.CarveLinked | kernel/src/heap.rs:104-128 | after `alloc`'s header writes, following `next` from `head` visits exactly the carved list |
| Heap.CarveFrame | kernel/src/heap.rs:104-128 | a word outside free memory is not written by `alloc` |
| Heap.CoalesceLinked | kernel/src/heap.rs:156-189 | after `dealloc`'s header writes, following `next` from `head` visits exactly the merged list |
| Heap.MergeFrame | kernel/src/heap.rs:167-189 | `dealloc` writes only in free memory and the block being freed |
| Heap.PayloadKept | kernel/src/heap.rs:230-251 | a step by anyone else leaves every word of a live payload as it was |
| Heap.PayloadSurvives | kernel/src/heap.rs:230-251 | the same over any run of heap calls and client stores |
| Heap.Heap.Init | kernel/src/heap.rs:73-77 | writes one header and leaves a heap with nothing live |
| Heap.Heap.FindFit | kernel/src/heap.rs:84-100 | the walk stops at the first block that fits, knowing the one before it |
| Heap.Heap.CarveOut | kernel/src/heap.rs:100-128 | the in-place split writes exactly the two headers the list needs |
| Heap.Heap.Alloc | kernel/src/heap.rs:81-138 | on memory, the address and the new state are those of the model, and only free words change |
| Heap.Heap.FindPosition | kernel/src/heap.rs:147-154 | the walk stops at the insertion point, knowing the block before it |
| Heap.Heap.MergeIn | kernel/src/heap.rs:156-189 | the in-place merge writes exactly the headers the list needs |
| Heap.Heap.Dealloc | kernel/src/heap.rs:143-190 | on memory, the new state is that of the model, and only free words and the freed block change |
| Heap.Heap.FreeBytes | kernel/src/heap.rs:192-203 | the sum walked is the arena less the live bytes |
| Heap.Heap.FreeBlocks | kernel/src/heap.rs:212-221 | the count walked is the number of maximal gaps, at most one more than the live allocations |
| Heap.Heap.Store | kernel/src/heap.rs:231-251 | whatever a client writes in its payload, the heap stays valid |
| MemoryMap.RunOf | boot_info/src/lib.rs:166-193 | a descriptor contributes exactly its whole frames other than frame 0, if its span fits 64 bits |
| MemoryMap.RunsAreExact | boot_info/src/lib.rs:139-197 | the runs yielded hold exactly the usable frames of the map; each is aligned and none is empty |
| MemoryMap.RunsAreComplete | boot_info/src/lib.rs:139-197 | every descriptor with whole usable frames contributes its run |
| MemoryMap.RunsInMapOrder | boot_info/src/lib.rs:161-197 | a later run stems from a later descriptor |
| MemoryMap.RunsFromDisjoint | boot_info/src/lib.rs:161-197 | runs of disjoint descriptors are disjoint |
| MemoryMap.UsableRegions.Next | boot_info/src/lib.rs:161-197 | yields the next run in map order and moves past it; ends only when no run is left |
| FrameModel.SumsFitExactly | kernel/src/frame.rs:85 | over every run of calls from boot, every sum `bump` compares fits 64 bits if and only if every usable descriptor ends below the last page |
| FrameModel.RunKeepsHeadroom | kernel/src/frame.rs:76-95 | a page of headroom above every run survives every call and keeps every sum in range |
| FrameModel.AskingTooMuchOverflows | kernel/src/frame.rs:85 | on any other map one oversized request compares a sum that does not fit |
| FrameModel.TopOfMemoryOverflows | kernel/src/frame.rs:85 | on a map of one page below the last, the second single-frame request compares a sum of exactly 2^64 |
| FrameModel.BumpPlaces | kernel/src/frame.rs:76-95 | bumping moves frames between holders and loses none, success or not |
| FrameModel.ContiguousIsExact | kernel/src/frame.rs:76-95 | a contiguous request succeeds exactly when the current run or a later one has that many frames in a row; it is served from the cursor if the current run has them, else from the start of the first later run that does, stacking every frame stepped over; a request that overflows changes nothing |
| FrameModel.AllocIsExact | kernel/src/frame.rs:53-67 | a single frame is the top of the stack, or if that is empty the next frame of a run |
| FrameModel.PushAllIs | kernel/src/frame.rs:85-89 | the frames stepped over lie on the stack with the last one on top |
| FrameModel.FirstRequest | kernel/src/frame.rs:171-178 | the first request after boot gets the start of the first run of the map that is long enough, or nothing if none is |
| FrameModel.ContiguousKeepsInv | kernel/src/frame.rs:167-178 | the partition is kept and the frames granted were usable and not live |
| FrameModel.FailureLosesNothing | kernel/src/frame.rs:69-75 | after a failed request every frame that is not live is on the free stack |
| FrameModel.AllocFrameKeepsInv | kernel/src/frame.rs:53-67 | a frame granted was usable and not live; `None` if and only if every usable frame is live |
| FrameModel.DeallocFrameKeepsInv | kernel/src/frame.rs:160-165 | giving back a live frame keeps the partition |
| FrameModel.DeallocThenAlloc | kernel/src/frame.rs:199-207 | a freed frame is the next handed out, and the state is as before |
| FrameModel.StackIsDistinct | kernel/src/frame.rs:97-105 | the stack has no cycle, no live frame and no null frame |
| FrameModel.DrainReachesEverything | kernel/src/frame.rs:69-75 | single-frame requests go on succeeding until every usable frame is live |
| FrameModel.RunKeepsPartition | kernel/src/frame.rs:53-178 | every run keeps stack, current run, later runs and live frames a partition of the usable frames |
| FrameModel.BootedInv | kernel/src/frame.rs:127-152 | the allocator starts with that partition and nothing live |
| FrameModel.TotalIsCardinality | kernel/src/frame.rs:123-128 | the total reported is the number of distinct usable frames |
| FrameAllocator.LinkedAfterPush | kernel/src/frame.rs:97-105 | writing the old top into a frame makes memory hold the longer stack |
| FrameAllocator.LinkedAfterPop | kernel/src/frame.rs:54-61 | reading the link leaves memory holding the shorter stack |
| FrameAllocator.LiveCount | kernel/src/frame.rs:171-178 | the live count grows by the frames granted and fits its field |
| FrameAllocator.FrameAllocator.PushFree | kernel/src/frame.rs:97-105 | one word is written and the in-frame links visit the pushed stack |
| FrameAllocator.FrameAllocator.Strand | kernel/src/frame.rs:85-89 | the rest of a run is stacked frame by frame, writing no other frame; the sums compared, each checked to fit 64 bits, are those `SumsFitExactly` speaks of |
| FrameAllocator.FrameAllocator.Bump | kernel/src/frame.rs:76-95 | the nested loops compute the model's bump and compare the model's sums, writing only frames now on the stack |
| FrameAllocator.FrameAllocator.Alloc | kernel/src/frame.rs:53-67 | the top of the stack, or a frame as `ContiguousIsExact` says; `in_use` is the number of live frames |
| FrameAllocator.FrameAllocator.AllocContiguous | kernel/src/frame.rs:171-178 | the frames granted, the cursor, the stack and the runs left are those `ContiguousIsExact` states; `in_use` grows by exactly the frames granted |
| FrameAllocator.FrameAllocator.DeallocFrame | kernel/src/frame.rs:160-165 | the model's state, with no other frame written |
| FrameAllocator.FrameAllocator.Store | kernel/src/frame.rs:11-15 | whatever the holder writes in a live frame, the allocator stays valid |
| FrameAllocator.Init | kernel/src/frame.rs:127-152 | reports the number of usable frames, and no allocator exactly when that is zero |
| Transcript.FeedIsRows | kernel/src/console.rs:101-123 | byte-by-byte processing yields the rows of the whole transcript, split at newlines and wrapped lazily |
| Transcript.SplitIsExact | kernel/src/console.rs:101-123 | the lines joined by newlines are the bytes written less the returns, and hold neither |
| Transcript.WrapIsExact | kernel/src/console.rs:107-111 | the rows of a line make up the line, all but the last are full, and the last is empty only if the line is |
| Transcript.VisibleIsTail | kernel/src/console.rs:116-123 | what is shown is the last rows, as many as fit |
| Transcript.WrapSnoc | kernel/src/console.rs:107-111 | a full row is left only when another character arrives |
| Transcript.ScrolledPicture | kernel/src/console.rs:160-187 | the reference picture of one more row is the old one moved up sixteen pixels over a blank band, for every height |
| Transcript.TypedPicture | kernel/src/console.rs:135-158 | the reference picture of one more character differs in its cell only |
| Transcript.CellPixel | kernel/src/console.rs:135-158 | the reference picture of a cell, by the bits of the glyph's scanlines, the highest bit leftmost |
| Transcript.GlyphIsExact | kernel/src/font.rs:1-8 | printable characters have their own glyphs in order, any other byte shows as `?` |
| Transcript.SpaceIsBlank | kernel/src/font.rs:18-20 | a space looks like an empty cell |
| Transcript.CrlfInvisible | kernel/src/serial.rs:87-99 | the returns sent for terminals do not change what is shown |
| Transcript.CrlfIsExact | kernel/src/serial.rs:87-99 | on the wire every newline directly follows a return, and without those returns the bytes are the string |
| Console.FillBytes | kernel/src/main.rs:214-218 | the bytes `fill_screen` stores are the pixel `pack` gives |
| Console.OffsetInjective | kernel/src/console.rs:125-133 | distinct visible pixels have distinct offsets, whatever the stride |
| Console.OffsetBound | kernel/src/console.rs:62-66 | every visible pixel lies in the validated span |
| Console.New | kernel/src/console.rs:67-99 | a console is made if and only if format, alignment, geometry and the whole span are right; it has the font, light text on the desktop colour as bytes in memory, and as many whole cells as fit |
| Console.AcceptsIsExact | kernel/src/console.rs:67-88 | accepted are exactly the descriptions whose every pixel, padding included, is inside the reported size and the address space |
| Console.PaintedBytes | kernel/src/main.rs:213-217 | raw format 0 stores red first, any other blue first |
| Console.Console.DrawGlyph | kernel/src/console.rs:135-158 | exactly the cursor's cell changes, to the glyph's pixels |
| Console.Console.Scroll | kernel/src/console.rs:166-187 | the overlapping move and clear shift every visible pixel up sixteen rows, for heights that are not a multiple of sixteen too |
| Console.Console.Newline | kernel/src/console.rs:116-123 | the screen becomes the picture with one more, empty row |
| Console.Console.WriteByte | kernel/src/console.rs:101-114 | after every byte, every visible pixel is that of the last rows of the wrapped transcript, and the cell before the cursor shows the glyph of the character typed |
| Console.Console.CellShows | kernel/src/console.rs:135-158 | pixel (dx, dy) of a text cell is foreground exactly if bit 7 - dx of scanline dy of the character's glyph is set; a cell without a character is background |
| Console.FillScreen | kernel/src/main.rs:204-246 | byte by byte and for every pixel size, every visible pixel inside the reported size is painted, and the number skipped is that of the visible pixels outside |
| Console.NoneOutside | kernel/src/main.rs:230-239 | that number is zero if and only if every visible pixel is inside |
| Console.FillOffsetsFit | kernel/src/main.rs:229-236 | no pixel offset overflows if and only if that of the last visible pixel does not |
| Console.OtherPixelsKept | kernel/src/main.rs:240-242 | painting one pixel undoes no other, even where rows overlap |
| Console.AcceptedFits | kernel/src/console.rs:83-88 | on every framebuffer the console accepts, every visible pixel is inside the reported size and no offset overflows |
| Console.FilledIsBlank | kernel/src/console.rs:97-98 | the bytes painted, seen as 32-bit pixels, are the background the console clears to |
| Console.BringUp | kernel/src/main.rs:78-80 | on every accepted framebuffer nothing is skipped and the console starts over the painted memory in step with an empty transcript |
| Serial.SerialPort.WriteStr | kernel/src/serial.rs:87-99 | wire and screen both receive the string with a return before each newline |
| Serial.PrintedRows | kernel/src/serial.rs:87-99 | the rows shown after any writes are those of the strings themselves |
| ElfImage.ValueOfBytes | bootloader/src/elf.rs:62-85 | a field encoded little-endian reads back as itself |
| ElfImage.BytesOfValue | bootloader/src/elf.rs:62-85 | the value read encodes back to the same bytes |
| ElfImage.BytesAreDigits | bootloader/src/elf.rs:62-85 | byte `k` of a field is digit `k` to base 256, lowest first |
| ElfImage.Read | bootloader/src/elf.rs:67-85 | a field is read exactly when it lies in the file, and the bytes there are its encoding |
| ElfImage.ParseHeader | bootloader/src/elf.rs:97-133 | the header is accepted exactly when its identifying bytes are right, and its fields are the file's |
| ElfImage.HeaderErrors | bootloader/src/elf.rs:97-133 | a bad header gets the error of the first check it fails |
| ElfImage.ItemFromBytes | bootloader/src/elf.rs:147-199 | from the file's bytes: a program header past the file is refused, one of another type is skipped, and a `PT_LOAD` is loaded or refused, with which error, by the fields at their offsets |
| ElfImage.SegmentsAreListed | bootloader/src/elf.rs:144-204 | the loop passes all headers exactly when the table is in the file and every segment it lists is well formed, and it loads those segments in order |
| ElfImage.PagesOfSegment | bootloader/src/elf.rs:239-265 | a segment claims exactly the pages its bytes reach into |
| ElfImage.AllGoodIsEach | bootloader/src/elf.rs:144-204 | the loop passes the headers exactly when none is bad on its own |
| ElfLoader.GrantedHead | bootloader/src/elf.rs:261-276 | claiming segment by segment succeeds exactly when every page claimed is free and claimed once |
| ElfLoader.LoadFromAccepts | bootloader/src/elf.rs:144-212 | the loop succeeds exactly when headers, page claims and entry are all in order |
| ElfLoader.AcceptanceIsExact | bootloader/src/elf.rs:137-225 | in terms of the file's bytes: `Ok` if and only if the header is valid, every program header is in the file, and the `PT_LOAD` ones list segments that are well formed, on free pages no two of them share, at least one, with the entry between the lowest page start and the highest end |
| ElfLoader.GrantableIsDisjoint | bootloader/src/elf.rs:261-276 | claiming page by page succeeds exactly when every page is free and no two segments share one |
| ElfLoader.LoadErrors | bootloader/src/elf.rs:137-225 | a failed load reports the first program header in trouble, or else the failed final check, with the segments before it in place |
| ElfLoader.LoadMeaning | bootloader/src/elf.rs:135-225 | after a successful load the file's bytes of every segment stand at its address, the rest of its pages is zero, other bytes are unchanged, and exactly the segments' pages are taken |
| ElfLoader.LoadTouchesOnlyClaimed | bootloader/src/elf.rs:239-303 | even when loading fails, a byte changes only in a page that was free and is now claimed |
| ElfLoader.SegmentPagesAreClaimed | bootloader/src/elf.rs:273-278 | a successful load claims every page of every segment |
| ElfLoader.OrderIrrelevant | bootloader/src/elf.rs:144-224 | reordering program headers changes neither acceptance, nor the kernel reported, nor a byte of memory |
| ElfLoader.KernelSpan | bootloader/src/elf.rs:214-224 | the entry reported is the header's; the span is page aligned, starts at a segment's page, holds every segment, ends in the page after the highest end, and fits 64 bits |
| ElfLoader.SegmentEndFits | bootloader/src/elf.rs:231-236 | rounding a segment's end up cannot overflow, empty segments included |
| ElfImage.AssembledReadsBack | bootloader/src/elf.rs:97-174 | an image assembled from an entry and segments reads back as that entry and those segments, in order |
| ElfLoader.AssembledAccepted | bootloader/src/elf.rs:137-225 | such an image loads exactly when its pages can be granted and its entry is in the overall span |
| ElfLoader.GapEntryAccepted | bootloader/src/elf.rs:210-212 | a 176-byte image whose entry lies between its two segments is loaded |
| ElfLoader.SomeImageStartsOutside | bootloader/src/elf.rs:207-212 | for any segments that fit a file and can be granted, an image with them is loaded with its entry outside all of them if and only if they leave a hole |
| ElfLoader.EntryCheckExact | bootloader/src/elf.rs:207-212 | the check means "inside a loaded segment" for every entry if and only if the segments leave no hole |
| ElfLoader.Firmware.LoadSegment | bootloader/src/elf.rs:239-303 | claims the segment's pages, copies its file bytes to its address, zeroes the rest of its pages and touches no other byte; or changes nothing and reports why, a span or an end that overflows included |
| ElfLoader.Firmware.LoadKernel | bootloader/src/elf.rs:137-225 | `Ok` exactly for images as `AcceptanceIsExact` says, memory then as `LoadMeaning` says, and on every error path the model's result, memory and pages left |
| Interrupts.CompileShaped | kernel/src/interrupts.rs:15-50 | code built from critical sections nests and closes them, and sends messages whole inside one |
| Interrupts.HandlerShaped | kernel/src/idt.rs:206-241 | so do the handlers, and each increments its counter once |
| Interrupts.ExecuteContext | kernel/src/interrupts.rs:15-50 | each instruction keeps the flag equal to what its nesting says |
| Interrupts.InterruptKeepsInv | kernel/src/idt.rs:182-198 | an interrupt can only be taken from main, and its handler starts with the flag clear |
| Interrupts.SectionKeepsFlag | kernel/src/interrupts.rs:8-14 | from a section's start to its matching end, whatever ran and was interrupted in between, the flag comes back as it was, at every depth and in handlers too |
| Interrupts.OpenKeepsSaved | kernel/src/interrupts.rs:15-50 | while a section stays open its saved flag and the contexts below it do not change |
| Interrupts.BodyIsAtomic | kernel/src/interrupts.rs:1-5 | inside a section's body only its next instruction can happen |
| Interrupts.BodyRunsAlone | kernel/src/interrupts.rs:1-5 | for as long as a run stays inside a body nothing else runs |
| Interrupts.CriticalSections | kernel/src/serial.rs:102-116 | over every run of every program: no interrupt inside a body, no nested handlers, and serial output is whole messages with at most one in progress |
| Interrupts.CountersAreExact | kernel/src/idt.rs:182-241 | outside handlers `TICKS` is the number of timer interrupts of the run and `KEY_EVENTS_SEEN` that of translated keys; inside, neither is ahead |
| Interrupts.ReadsAreExact | kernel/src/idt.rs:202-228 | `ticks` and `key_events_seen` read inside a section, and answer the number of such interrupts so far |
| Interrupts.CompileReads | kernel/src/idt.rs:202-228 | a program reads exactly the counters it asks for, in order, each in a section |
| Interrupts.InterruptsComeOn | kernel/src/interrupts.rs:58-60 | no interrupt is possible before main enables them; from then on every one is, whenever main is outside its sections |
| Interrupts.CompileEnables | kernel/src/interrupts.rs:58-60 | interrupts are enabled exactly where the program says so |
| Interrupts.HandlersPrintTheirKeys | kernel/src/idt.rs:230-241 | every translated key is printed, whole, once and in the order of the interrupts |
| Interrupts.MainPrintsItsMessages | kernel/src/serial.rs:102-116 | main's messages come out whole, once each and in order, however interrupts fall |
| Interrupts.NeverStuck | kernel/src/idt.rs:206-241 | the machine can always go on until main is done |
| Boot.CopyMap | bootloader/src/handoff.rs:66-87 | the copy is the longest prefix that fits, and the rest of the array is untouched |
| Boot.UsableMissesClaimed | boot_info/src/lib.rs:166-168 | no usable frame of a copied map, however truncated, is a page the bootloader claimed |
| Boot.LiveFramesMissClaimed | docs/design.md:94-98 | no frame ever live, over any run, is a claimed page |
| Boot.KernelIsNeverHandedOut | bootloader/src/elf.rs:273-278 | no byte of a loaded kernel is ever in a frame handed out |
| Boot.HeapArena | kernel/src/heap.rs:260-272 | the frames `init` takes form an arena the heap can run in, and are live |
| Boot.InitHeap | kernel/src/heap.rs:260-272 | the heap starts valid and empty over 256 frames that are now live, or not at all, exactly when no run holds them |
| Boot.HeapStaysInArena | kernel/src/heap.rs:260-272 | every byte the heap lends is in a frame of its arena |
| Boot.LentBytesAreExclusive | kernel/src/heap.rs:260-272 | over whole runs of frame and heap calls on a truncated map: no byte the heap lends lies in a page the bootloader claimed, its frame stays live, and no later grant holds it |
| Boot.ArenaStaysExclusive | kernel/src/heap.rs:260-272 | while nobody frees the arena's frames, no later grant overlaps it |

## Left out

- Console.FillScreen: assumes that the last visible pixel's offset fits 64 bits, which is exactly when no offset overflows (`Console.FillOffsetsFit`) and holds of every framebuffer the console accepts.
- Console.BringUp: the byte view and the 32-bit view of the framebuffer are two arrays here, the second made from the first between painting and starting the console.
- FrameAllocator.Init: assumes disjoint usable descriptors that end below the last page; the second is exactly what `FrameModel.SumsFitExactly` shows the code to need.
- FrameModel.Bump: describes calls whose compared sums fit 64 bits; what a build does with a sum that does not (panic or wrap) is not modelled.
- ElfLoader.Firmware.LoadSegment: the file range is a precondition, because its only caller checks it before the call; the segment copy is one step, not a byte loop.
- `Option` around the statics before initialisation (`frame.rs` `with`, `console.rs` `write_byte`): the calls that do nothing before `init` are not modelled, except a missing screen behind the serial port.
- Freeing what is not live, or with another layout: excluded by the contracts of the allocators.
- The heap arena and the frames' link words are separate arrays here; that they do not overlap is what the exclusion theorems of `Boot.dfy` say.
- Kernel stack, `BootInfo` and region array pages: covered by the claimed set of the exclusion theorems, without modelling their allocation.
- Formatting (`core::fmt`), panics, fault handlers and non-maskable exceptions.
- Port I/O, PIC, PIT, PS/2 and UART register programming: hardware effects with no deep internal property.
- Descriptor tables (`gdt.rs`, `Entry::set`): bit packing, easy members only.
- Inline assembly, the stack switch, the jump, and compiler barriers: below this level.
- UEFI calls for files, graphics and the memory map: foreign code; page allocation is a set of grantable pages.
- The font bitmaps and their generator, `xtask`, and the boot self-tests, whose checks the theorems generalise.
