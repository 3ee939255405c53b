# Verified models of the BIOS image

Dafny models of the self-contained algorithms of this BIOS image (a coreboot payload and SeaBIOS), each proved against
what the code is for:

- **LZMA** (`LzmaRange`, `LzmaFormat`, `LzmaQuestions`, `LzmaStream`, `LzmaTrees`, `LzmaDecoder`): the adaptive range
  decoder, the packet format, which probability each bit of a packet is asked of, the meaning of a packet list, and the
  decoder with its probability array and output buffer. The decoder
  succeeds exactly on the streams of the format, and what it writes is the LZ reading of the one packet list there is.
- **JPEG entropy decoding** (`JpegBits`, `JpegHuffman`, `JpegDecode`): the bit reservoir, the look-ahead table, and
  their agreement with canonical decoding (ITU-T T.81, sections C.2, F.2.2.1, F.2.2.3 and B.1.1.5).
- **Zone allocator** (`ZoneList`, `ZoneHeap`, `ZoneAllocator`): its lists, its entry points, every run of them
  (`ZoneRuns`), and the same on pointers in one memory (`LinkedHeap`, over `Hlist`); its client, the POST Memory Manager
  service (`Pmm`), and the area option ROMs share with low memory (`OptionRom`).
- **e820 map** (`E820`): the in-place update of the table of address ranges.
- **Layout and relocation** (`Layout`, `FixedLayout`, `Relocation`): where the build script puts sections, its relocation
  lists, and the code that moves and patches itself.
- **El Torito emulation** (`Cdrom`): 512-byte sectors served from a disc that is read in blocks of four.
- **Threads** (`Threads`, over the rings of `Hlist`): fairness, who is in the ring, and the mutex.
- **Basics** (`Basics`, `Rounding`): machine words, rounding to powers of two, and multiplication, remainder and shifts by
  recursion, which keep products of variables out of the definitions that every proof unfolds.

Each imperative routine of the source is a method on arrays or on the fields of a class, and its contract equates the
new state with a function of the old one; the lemmas about those functions are the results. Ghost parameters and results
name positions and packets for the contracts only. The 16 code lengths, the table sizes and all layout constants are
those of the source.

## Model

| member | source | states |
|---|---|---|
| LzmaDecoder.LzmaDecode | coreboot/payloads/bayou/lzmadecode.c:135-398 | the decoder succeeds if and only if some packet list is a complete reading of the stream, and then the bytes written, their number and the bytes consumed are those of every such list, which fills the output or ends in the end mark; on failure both counts are 0 |
| LzmaDecoder.Decompressor.CopyMatch | coreboot/payloads/bayou/lzmadecode.c:383-389 | the byte-by-byte copy inside the output buffer leaves the periodic extension of the output, cut only at the end of the buffer |
| LzmaDecoder.DecodeProperties | coreboot/payloads/bayou/lzmadecode.c:110-131 | accepts exactly the property bytes below 225, and then lc, lp and pb are in range and recombine to the byte |
| LzmaDecoder.QueueRotations | coreboot/payloads/bayou/lzmadecode.c:220-284 | the four remembered distances after each kind of packet: a new one in front, a repeated one moved to the front, the others in their order |
| LzmaStream.ReadingIsUnique | coreboot/payloads/bayou/lzmadecode.c:168-391 | a stream has at most one reading as packets |
| LzmaStream.RoundTrip | coreboot/payloads/bayou/lzmadecode.c:168-398 | every packet list that makes sense is the reading of the stream an encoder writes for it, and that reading uses up the stream to its last byte |
| LzmaStream.ReadingIsPlayable | coreboot/payloads/bayou/lzmadecode.c:240-241 | conversely every reading makes sense: each packet applies where it stands, and only the last one may pass the end of the output |
| LzmaStream.CodesDiverge | coreboot/payloads/bayou/lzmadecode.c:177-376 | no packet's decisions are the beginning of another's: they part at a decision asked of the same probability and answered differently |
| LzmaStream.StateRemembersLiterals | coreboot/payloads/bayou/lzmadecode.c:211-284 | after every run of packets, state is at least 7 exactly when the last was no literal, and rep0 to rep3 lie inside the output |
| LzmaStream.StateIsHistory | coreboot/payloads/bayou/lzmadecode.c:211-284 | the twelve states are a summary of the packets so far: how many literals since the last other packet, up to three, of what kind that was, and whether it came right behind another |
| LzmaStream.StateIsZero | coreboot/payloads/bayou/lzmadecode.c:211-284 | and 0 as long as there were only literals |
| LzmaStream.PacketMeans | coreboot/payloads/bayou/lzmadecode.c:209-389 | a literal adds its byte; any other packet adds as many bytes as its length says, each equal to the one its distance back |
| LzmaStream.AppliesExactly | coreboot/payloads/bayou/lzmadecode.c:240-380 | a packet is applicable if and only if its distance lies inside the output; a short repeat as soon as there is output |
| LzmaQuestions.LiteralQuestion | coreboot/payloads/bayou/lzmadecode.c:177-207 | which probability each bit of a literal is asked of, by position, previous byte and the byte at the last distance, and which bit it is |
| LzmaQuestions.CopyQuestions | coreboot/payloads/bayou/lzmadecode.c:177-287 | the flags that tell the other packets apart, the probability of each, and that length and distance follow |
| LzmaQuestions.LengthQuestion | coreboot/payloads/bayou/lzmadecode.c:288-318 | the class flags of a length and each of its bits: which probability, which bit |
| LzmaQuestions.SlotIs | coreboot/payloads/bayou/lzmadecode.c:322-330 | the slot of a distance: its two top bits and how many bits follow |
| LzmaQuestions.SlotQuestion | coreboot/payloads/bayou/lzmadecode.c:322-327 | the six bits of the slot: which probability, by the length, and which bit |
| LzmaQuestions.FooterQuestion | coreboot/payloads/bayou/lzmadecode.c:328-367 | the bits below: which are direct, which are asked of which probability, and in which order |
| LzmaFormat.CopyIsPeriodic | coreboot/payloads/bayou/lzmadecode.c:383-389 | byte i of a copy from distance d is byte i modulo d of the last d bytes, also when source and destination overlap |
| LzmaFormat.CodeFits | coreboot/payloads/bayou/lzmadecode.c:78-104 | every probability a packet asks for has an index below 1846 + (768 << (lc + lp)) |
| LzmaFormat.DistanceShapeUnique | coreboot/payloads/bayou/lzmadecode.c:328-369 | the top two bits and the number of bits below them are determined by a distance |
| LzmaRange.DecodeEncode | coreboot/payloads/bayou/lzmadecode.c:42-57 | the range decoder answers the questions of any decision list, adaptive and direct, as the encoder meant them |
| LzmaRange.OneAnswer | coreboot/payloads/bayou/lzmadecode.c:42-46 | an input that answers one list of decisions does not answer a list that parts from it |
| LzmaRange.AdaptiveKeepsCodeInRange | coreboot/payloads/bayou/lzmadecode.c:42-46 | an adaptive step keeps Code below Range |
| LzmaRange.DirectKeepsCodeInRangeIff | coreboot/payloads/bayou/lzmadecode.c:340-351 | a direct step keeps Code below Range except in exactly one case: an odd Range whose last unit holds Code |
| LzmaRange.EndsAreReached | coreboot/payloads/bayou/lzmadecode.c:45-46 | zero bits take every probability up to 2017 and one bits down to 31, so these are the exact ends of what can be reached |
| LzmaRange.RefillInNumerals | coreboot/payloads/bayou/lzmadecode.c:42 | when a byte is read, and Range, Code and the position after it, in 32-bit arithmetic |
| LzmaRange.AdaptiveInNumerals | coreboot/payloads/bayou/lzmadecode.c:44-46 | an adaptive step is the split of Range at (Range / 2048) times the probability, which then moves a 32nd of the way |
| LzmaRange.DirectInNumerals | coreboot/payloads/bayou/lzmadecode.c:340-351 | a direct step is the comparison with half of Range |
| LzmaRange.RangeDecoder.Start | coreboot/payloads/bayou/lzmadecode.c:33-39 | fails exactly on fewer than five bytes; Range is 2^32 - 1, Code the bytes 2 to 5, and every probability 1024 |
| LzmaRange.RangeDecoder.DecodeBit | coreboot/payloads/bayou/lzmadecode.c:42-46 | one bit updates Range, Code, the input position and one probability as the step of the specification does, or fails exactly when the input ran dry; the probability moves a 32nd of the way to 2048 or to 0, rounded down |
| JpegBits.BitReader.FillBits | seabios/src/jpeg.c:483-509 | from any pending count up to 32: loads bytes without moving the position in the unstuffed stream, and has at least 16 bits pending afterwards, zeros past the marker and more than 24 before it |
| JpegBits.BitReader.ReadMarker | seabios/src/jpeg.c:511-521 | either the marker is not reached, and nothing is lost, or all data has been loaded, and the marker is returned and forgotten |
| JpegBits.BitReader.GetBits | seabios/src/jpeg.c:523-531 | delivers exactly the next n bits of the unstuffed stream and advances by n, with at most 32 bits pending |
| JpegBits.UnstuffedStuffed | seabios/src/jpeg.c:492-504 | what is read from data with a zero byte put behind each 0xFF, up to the marker, is the data |
| JpegBits.WindowNextByte | seabios/src/jpeg.c:503-504 | eight bits on, the number read is 256 times what it was, plus the byte |
| JpegBits.WindowPadding | seabios/src/jpeg.c:486-500 | behind the marker the bits are zeros |
| JpegHuffman.OneCode | seabios/src/jpeg.c:639-664 | a stream begins with at most one code of a prefix-valid set of lengths |
| JpegHuffman.ValidExactly | seabios/src/jpeg.c:639-664 | a set of lengths has a prefix code if and only if its codes take no more than the 2^16 values of 16 bits |
| JpegHuffman.ValueOfBits | seabios/src/jpeg.c:559-567 | s bits stand for a number of s binary digits, positive exactly when the first is 1 and then itself, else less by 2^s - 1 |
| JpegHuffman.ValuesGrow | seabios/src/jpeg.c:559-567 | more bits, read as a number, stand for more |
| JpegHuffman.BitsOfValue | seabios/src/jpeg.c:559-567 | every number of s binary digits, of either sign, has its s bits |
| JpegHuffman.TableHit | seabios/src/jpeg.c:645-659 | every look-ahead index that begins with a short code holds that code's entry |
| JpegHuffman.TableOwner | seabios/src/jpeg.c:642-659 | every entry in the table belongs to a code that its index begins with |
| JpegHuffman.HuffTable.Make | seabios/src/jpeg.c:621-667 | fills llvals, vals, valptr and maxcode with the tables of canonical decoding, for every prefix-valid set of lengths: each end of codes is twice the one before plus the number of codes, and each index the one before plus the number |
| JpegDecode.DecRec | seabios/src/jpeg.c:538-587 | on every stream, by all three paths: the symbol is the one the tables give for the code read, run and size are its halves, the value has just as many binary digits as the size says with the sign of its first bit, and the position is behind it; or no code begins there and the mark for a bad code is set |
| JpegDecode.FoundIsTheCode | seabios/src/jpeg.c:538-587 | the run, the extended value and the bits consumed are the canonical ones for every code that begins at the position |
| ZoneList.SafeExactlyWhen | seabios/src/malloc.c:53-56 | the 32-bit placement test never overruns a node's free space if and only if size + align is at most 2^32 |
| Rounding.AlignDownMasks | seabios/src/malloc.c:55 | the rounding down used for placement clears the low bits, for every power of two |
| Basics.ShrIsQuotient | seabios/src/jpeg.c:527-531 | a shift to the right is the quotient by a power of two |
| Basics.DoubledIsProduct | seabios/src/jpeg.c:639-664 | a shift to the left is the product with one |
| ZoneList.AllocIsHighest | seabios/src/malloc.c:49-72 | first fit finds space whenever aligned free space exists, and the highest such place |
| ZoneList.AllocExactlyWhen | seabios/src/malloc.c:49-72 | it succeeds if and only if aligned free space exists |
| ZoneList.AllocKeeps | seabios/src/malloc.c:59-66 | an allocation keeps the list ordered, abutting and closed by sentinels, and keeps the regions |
| ZoneList.ReleaseRemoves | seabios/src/malloc.c:74-82 | a release takes exactly one block out and keeps the list invariant and the regions |
| ZoneList.Partition | seabios/src/malloc.c:18-22 | every byte of a region is owned by exactly one node, and no other byte by any |
| ZoneList.Determined | seabios/src/malloc.c:74-82 | regions and blocks determine the list, free space included: coalescing has no history |
| ZoneHeap.NeverOverlap | seabios/src/malloc.c:227-274 | no byte is in two blocks, in two tracking records, or in a block and a record |
| ZoneHeap.SameBlocksSameHeap | seabios/src/malloc.c:227-274 | two heaps over the same regions with the same tracked blocks are equal |
| ZoneHeap.SizeQueryIsHonest | seabios/src/malloc.c:277-297 | a request for at most the space answered is granted, in temporary zones although the record comes out of the same space |
| ZoneHeap.SpaceIs | seabios/src/malloc.c:277-297 | the answer of the size query from both sides, in permanent and in temporary zones |
| ZoneAllocator.Heap.AllocSpace | seabios/src/malloc.c:49-72 | the loop makes the first-fit allocation of the specification, or changes nothing |
| ZoneAllocator.Heap.FreeSpace | seabios/src/malloc.c:74-82 | the node leaves the list and its space joins the next lower node it abuts |
| ZoneAllocator.Heap.AddSpace | seabios/src/malloc.c:84-121 | adds one region with its sentinel and its record, in order; or, exactly when no record fits, changes nothing |
| ZoneAllocator.Heap.Malloc | seabios/src/malloc.c:226-258 | fails exactly when the size is 0 or there is no aligned free space for the record or then for the block, and then changes nothing; otherwise one aligned block and its record are new, each at the highest place there is, and nothing else changes |
| ZoneAllocator.Heap.Free | seabios/src/malloc.c:260-274 | succeeds exactly on the start of a block in use, and forgets that block and its record; sentinels and records are refused |
| ZoneAllocator.Heap.SetHandle | seabios/src/malloc.c:299-310 | names the block in use at the address, and nothing else |
| ZoneAllocator.Heap.FindHandle | seabios/src/malloc.c:312-329 | finds a block in use with the handle, the one whose record is highest in the first zone that has one; and nothing exactly when there is none |
| ZoneAllocator.Heap.GetSpace | seabios/src/malloc.c:276-297 | in a permanent zone the largest gap there is, which some node has; in a temporary one 48 bytes less, or 0 when no gap is larger |
| ZoneRuns.Replay | seabios/src/malloc.c:84-310 | any sequence of requests is a run: each is the step that the contracts of the entry points describe |
| ZoneRuns.RunKeeps | seabios/src/malloc.c:84-310 | after any number of requests of any run, the lists are sound and the regions are those at the start and those added; and when just the blocks of the start are in use again, each zone is exactly what it was |
| ZoneRuns.InUseApart | seabios/src/malloc.c:226-274 | at every moment of every run no byte is in two blocks, in two records, or in a block and a record |
| ZoneRuns.RunsAgree | seabios/src/malloc.c:84-310 | the requests determine the run: every placement and every list |
| LinkedHeap.Lists.AllocSpace | seabios/src/malloc.c:49-72 | on next and pprev pointers, allocSpace has the effect of the first-fit allocation of the specification, and leaves the other lists alone |
| LinkedHeap.Lists.FreeSpace | seabios/src/malloc.c:74-82 | so has freeSpace, which unlinks the node |
| LinkedHeap.Lists.AddTemporary | seabios/src/malloc.c:88-100 | the walk over the pointers to the nodes links the temporary node at its place in the order |
| LinkedHeap.Lists.Settle | seabios/src/malloc.c:115-120 | unlinking the temporary node and linking the final one behind the saved pointer replaces it in place |
| LinkedHeap.RecordIsNew | seabios/src/malloc.c:18-43 | neither of the two nodes in a new record is where a node is already, also with the temporary node in its list |
| LinkedHeap.Allocator.AddSpace | seabios/src/malloc.c:84-121 | the whole of addSpace on the pointers of all five lists is the step of the model |
| LinkedHeap.Allocator.Malloc | seabios/src/malloc.c:226-258 | so is _malloc, which fails exactly when there is no aligned free space for the record or then for the block |
| LinkedHeap.Allocator.Free | seabios/src/malloc.c:260-274 | so is _free, which succeeds exactly on the start of a block in use |
| LinkedHeap.Follow | seabios/src/malloc.c:49-310 | the lists in memory follow every run of the model |
| Hlist.AddInserts | seabios/src/list.h:35-44 | hlist_add at the slot behind a prefix inserts there |
| Hlist.DelRemoves | seabios/src/list.h:25-33 | hlist_del takes exactly that node out |
| Hlist.AddToRing | seabios/src/list.h:58-62 | hlist_add_after on a ring puts the node behind the one the ring is read from |
| Hlist.DelFromRing | seabios/src/list.h:25-33 | hlist_del on a ring leaves the others in order |
| Pmm.RequestsAreReasonable | seabios/src/pmm.c:59-67 | every size and alignment passed on is within the range for which the placement test is safe, and 16-aligned |
| Pmm.LowBitDivides | seabios/src/pmm.c:63-67 | the natural alignment is the greatest power of two that divides the size |
| Pmm.AlignOfIs | seabios/src/pmm.c:62-67 | the alignment is 16, or with flag bit 2 the greatest power of two that divides the size |
| Pmm.AnswerIsExact | seabios/src/pmm.c:40-88 | in permanent memory a request in paragraphs is granted if and only if it is for no more than the answer and a record fits |
| Pmm.Query | seabios/src/pmm.c:40-58 | the size query: 0, the space of the low or of the high zone, or the larger, as flag bits 0 and 1 say, of the permanent zones with bit 3 and the temporary ones without |
| Pmm.Allocate | seabios/src/pmm.c:59-88 | fails exactly when the size is not a positive 32-bit number or no zone selected by flag bits 0, 1 and 3 has room; takes the low zone if it has room and else the high one, at the highest place; the block is aligned to 16 and with bit 2 to every power of two its size is; sets its handle and no other |
| Pmm.AskThenTake | seabios/src/pmm.c:40-88 | on a heap whose free space ends evenly, asking and then requesting what was answered succeeds exactly when the answer is a paragraph or more and below 2 GB and, for permanent memory, a record fits; and then a block of that size with the handle is granted |
| Pmm.AskThenTakeAfter | seabios/src/pmm.c:40-88 | so it does on every heap that a run of 16-aligned requests leads to |
| Pmm.SizeWraps | seabios/src/pmm.c:59 | the size in bytes is what was asked for if and only if fewer than 2^28 paragraphs were |
| OptionRom.ShrinksExactlyWhen | seabios/src/malloc.c:361-385 | the rounded 32-bit sum lies below the end of the ROMs exactly when it wraps and rounding up does not make good for it |
| OptionRom.RomArea.Reserve | seabios/src/malloc.c:359-372 | refuses exactly when the rounded new end passes the rounded limit; otherwise the start of free low memory becomes that end or the base, plus 16, and nothing else moves; and says exactly when ROMs and low memory stay apart |
| OptionRom.RomArea.Confirm | seabios/src/malloc.c:375-386 | the same, and moves the end of the ROMs to the rounded sum; keeps ROMs and low memory apart, and that end does not move down exactly when the sum does not shrink |
| OptionRom.RomArea.Take | seabios/src/malloc.c:49-72 | a low block is refused exactly when there is no aligned free space, and otherwise gets the highest place, above the end of the ROMs and the header reserve |
| OptionRom.Separation | seabios/src/malloc.c:341-385 | every low block lies above the end of the ROMs and the header reserve, and that end never passes the limit |
| OptionRom.AlwaysApartExactly | seabios/src/malloc.c:341-385 | over any interleaving of ROM and low memory requests, that separation holds at every moment and the end of the ROMs never moves down, if and only if no granted sum shrinks |
| OptionRom.Replay | seabios/src/malloc.c:341-385 | any sequence of requests is such a run, and for sizes below 4080 MB ROMs and blocks are always apart |
| E820.UpdatedTypes | seabios/src/memmap.c:79-137 | with room for everything, each address in the new range has the new type, none for a hole, and every other address its old one |
| E820.UpdatedExactly | seabios/src/memmap.c:32-137 | what a full table loses, for every address: behind the new range, what remained of an entry that spans it; and with the new entry, the range of the entries it is joined to |
| E820.UpdatedTidy | seabios/src/memmap.c:79-137 | whatever a full table drops, the list stays sorted, disjoint and without touching neighbours of one type |
| E820.UpdatedIsHonest | seabios/src/memmap.c:32-37 | whatever a full table drops, no address is listed with a wrong type |
| E820.TidyIsCanonical | seabios/src/memmap.c:79-137 | a sorted and joined table is the only one that reports what it reports |
| E820.Map.Add | seabios/src/memmap.c:79-137 | the table after the call, in place; when each of its two insertions is dropped, and then the type it reports for every address; and it reports every address with its right type if and only if the updated map has at most 32 entries |
| Layout.SetSectionsStart | seabios/scripts/layoutrom.py:44-57 | every section gets the first multiple of its alignment behind the section before, from a start that is a multiple of the widest alignment; the last one ends by the given address, less than that alignment below it, if and only if division rounds down (Python 2), they fit below it, or they are too long by a multiple of that alignment |
| Layout.ApartMeans | seabios/scripts/layoutrom.py:51-56 | each section lies wholly before every later one |
| FixedLayout.FindFit | seabios/scripts/layoutrom.py:113-124 | the scan finds the last section that fits, and its early break misses none that would |
| FixedLayout.FillGap | seabios/scripts/layoutrom.py:107-132 | one gap is filled from its start with aligned extents that do not overlap, nothing is lost, and in the end no section that is left would fit |
| FixedLayout.FilledMeans | seabios/scripts/layoutrom.py:128-132 | each extent lies inside the filled part of the gap and wholly before every later one |
| FixedLayout.HoleReaches | seabios/scripts/layoutrom.py:87-97 | a gap reaches to the next fixed section by address, or to the end of the segment |
| FixedLayout.FitSections | seabios/scripts/layoutrom.py:70-146 | fails exactly when a fixed section has an alignment or there is none; the gaps reach from each fixed section to the next, and are filled smallest first, each from its start and each time with the last section by size, alignment and name that fits; nothing is lost, nothing that is left over fits; and no two sections overlap or leave the segment, exactly when the fixed ones do not |
| FixedLayout.SegmentOff | seabios/scripts/layoutrom.py:83-98 | sorting by address and again by free space makes gaps that keep everything apart when the fixed sections are in order |
| FixedLayout.OffIsInOrder | seabios/scripts/layoutrom.py:83-98 | for fixed sections that take space that means that they do not overlap and lie in the segment |
| FixedLayout.StoredIsStart | seabios/scripts/layoutrom.py:128-132 | the address stored for a fitted section is where it is put if and only if that position happens to be aligned |
| FixedLayout.Layout16 | seabios/scripts/layoutrom.py:173-190 | the 16-bit sections, fixed, fitted and packed below them, are all there and no two overlap, whenever the fixed ones are in order and the rest fits below |
| Relocation.GetRelocs | seabios/scripts/layoutrom.py:333-344 | collects the positions of the references that pass the filters, in order: exactly those of a section's address plus a reference's offset whose symbol has a section of the right category and whose type is right |
| Relocation.ListedExactly | seabios/scripts/layoutrom.py:333-344 | a position is in a list if and only if a reference there passes the filters |
| Relocation.RelocPreinit | seabios/src/post.c:270-312 | memory after the copy and the three passes of little-endian additions; every byte of no listed word is only copied or stays; and where the function called has moved to |
| Relocation.LoadIs | seabios/src/post.c:270-277 | a word is its four bytes, least significant first |
| Relocation.WordArithmetic | seabios/src/post.c:270-310 | sums, negation and the distance moved are modulo 2^32 |
| Relocation.InitReferencesKept | seabios/scripts/layoutrom.py:386-393 | a 32-bit reference in the moved code resolves to its target, moved when that is init code and unmoved otherwise, if and only if a section defines its symbol, or it is absolute, or nothing moved |
| Relocation.OtherReferencesKept | seabios/scripts/layoutrom.py:394-396 | a 32-bit reference in the code that stays resolves to its target, moved when that is init code |
| Cdrom.Read | seabios/src/cdrom.c:31-88 | succeeds exactly when each 512-byte sector by itself could be read; the count, block by block, for every disc, start, count up to 128 and failure of the drive; the sectors up to the count are those of the disc, and what lies behind the request is as it was; the count is just the sectors that could be read exactly when the run of whole blocks succeeds, fails at its first block, or is reported as far as it got |
| Cdrom.ReadMeans | seabios/src/cdrom.c:43-85 | then the sectors up to the count are those of the disc, and what lies behind the request is as it was |
| Cdrom.ReportIs | seabios/src/cdrom.c:31-88 | the count reported: nothing when a partial first block cannot be read, what the drive reports of the run when that fails, all but the last part when only that fails |
| Cdrom.ProcessOp | seabios/src/block.c:502-560 | a count that is unchanged on an error stands for nothing transferred |
| Cdrom.DeliveredJoin | seabios/src/cdrom.c:43-85 | reading in two stretches delivers what reading in one does |
| Cdrom.WithinBlock | seabios/src/cdrom.c:43-59 | the sectors of one block stand or fall together |
| Threads.ResumesOnTime | seabios/src/stacks.c:294-366 | a thread that waits i places down the ring resumes with exactly the i-th switch, however many threads are started meanwhile |
| Threads.Approaches | seabios/src/stacks.c:294-366 | and until then is still waiting, nearer by one place for each switch |
| Threads.Census | seabios/src/stacks.c:315-366 | in every run the ring holds each thread once, the main thread among them: those it began with and those started, less those ended |
| Threads.Scheduler.RunThread | seabios/src/stacks.c:327-366 | the pointer steps put the new thread behind the running one and run it |
| Threads.Scheduler.EndThread | seabios/src/stacks.c:315-324 | the thread leaves the ring, which stays a ring, and the next one runs |
| Threads.Scheduler.SwitchNext | seabios/src/stacks.c:294-313 | control passes to the next thread of the ring |
| Threads.Scheduler.Execute | seabios/src/stacks.c:294-404 | any run of steps on the pointers is the run of the queue |
| Threads.Scheduler.WaitThreads | seabios/src/stacks.c:433-440 | the wait lets the rounds run one by one, ends with the first after which the main thread is alone in the ring, and only then |
| Threads.MutualExclusion | seabios/src/stacks.c:442-460 | in every run in which only holders unlock, there are never two holders, and the mutex is locked exactly while there is one; a lock round on an open mutex makes the running thread the holder, on a locked one only passes control on, and an unlock leaves no holder |
| Threads.NoneTakenBetween | seabios/src/stacks.c:442-460 | from a round that takes the mutex until that thread unlocks it, it is locked and held by that thread, so that no round takes it |
| Threads.Play | seabios/src/stacks.c:442-460 | any such run on the pointers: between two rounds that take the mutex lies an unlock by the thread of the first |
| Threads.UnlockKeepsExclusion | seabios/src/stacks.c:453-460 | an unlock keeps exclusion if and only if it comes from the holder or nobody holds the mutex |
| Threads.LockRound | seabios/src/stacks.c:442-451 | one round of the lock loop takes an open mutex at once, which is then locked with the running thread its holder; otherwise it passes control to the next thread and leaves the mutex alone |
| Threads.Unlocks | seabios/src/stacks.c:453-460 | an unlock opens the mutex, and the running thread is no holder any more |

## Findings

Properties one might expect of the code that fail, each with the condition under which it holds and an input:

- **A full e820 table.** An update is dropped in part when the table has no room. Every address has its right type after
  `add_e820` if and only if the updated map, sorted and joined, has at most 32 entries (`E820.Map.Add`). The table never
  lists a wrong type, only none (`E820.UpdatedIsHonest`), and just which addresses lose theirs is `E820.UpdatedExactly`.
  A full table and an update no table reports: `E820.FullTable`.
- **`allocSpace` near 2^32.** A wrapped address passes its test if and only if size + align exceeds 2^32
  (`ZoneList.SafeExactlyWhen`, with the node in `ZoneList.WrapsAround`). The PMM service never gets there
  (`Pmm.RequestsAreReasonable`).
- **PMM sizes.** A count of 2^28 paragraphs or more wraps, so that a much smaller block is granted (`Pmm.SizeWraps`); and
  a size query may answer 2 GB or more, which no request can then ask for (`Pmm.AskThenTake`, on the heap of
  `Pmm.HugeAnswer`).
- **`rom_reserve` near 2^32.** A size whose rounded sum wraps is granted; the end of the ROMs then moves down if and only
  if size + 2047 is below 2^32 (`OptionRom.ShrinksExactlyWhen`, `AlwaysApartExactly`, with a size in
  `OptionRom.ShrinkingSize`). All callers pass sizes far below that.
- **Relative references without a section.** `getRelocs` skips symbols that no section defines. A PC-relative reference
  to one from the init code is lost in the move, unless the code does not move (`Relocation.InitReferencesKept`, with
  an image in `Relocation.LostReference`).
- **Sections that do not fit.** When the sections are longer than the end address, Python 3 rounds toward zero, which lets
  them run past it unless they are too long by a multiple of the widest alignment; Python 2 rounds down, and they never
  do (`Layout.SetSectionsStart`, whose parameter `floors` tells the two apart).
- **Addresses of fitted sections.** The address stored for a section between fixed ones is the end of the section before
  it; that is where the section goes only when it is aligned (`FixedLayout.StoredIsStart`).
- **Code equal to Range.** In the direct-bit loop of the LZMA decoder, halving an odd Range leaves Code equal to Range
  exactly when Code was its last unit (`LzmaRange.DirectKeepsCodeInRangeIff`, and `LzmaRange.CodeMeetsRange`).
- **A failing El Torito read.** When the run of whole blocks fails behind its first block and the driver leaves the count
  alone, as the AHCI one does, sectors that were read are not reported (`Cdrom.Read`, with a disc in `Cdrom.Unreported`).
- **Unlocking another's mutex.** An unlock by a thread that does not hold the mutex opens it while it is held
  (`Threads.UnlockKeepsExclusion`).

## Left out

- LzmaDecoder.LzmaDecode: the caller's scratch memory for the probabilities is allocated by the decoder, and input and
  output buffer do not overlap; the element type of the probability array carries the bounds 31 and 2017, so that they are
  checked at every assignment.
- LZMA: the encoder in the round trip is part of the specification; the repository has none.
- JpegBits.BitReader.FillBits: the macros' local copies of the pending bits are parameters and results, the callback at
  the end of a buffer is absent, and the entropy-coded segment ends in a marker.
- JPEG: marker and header parsing, placement of values in a block, dequantisation, the inverse transform and colours.
- ZoneHeap: the tracking records' fields are kept in the list nodes and a map of handles, not in the bytes of the zones;
  what clients write over them is not modelled. NodeAt searches for a node that the source has a pointer to.
- ZoneAllocator.Heap.AddSpace: replaces the temporary node in place; LinkedHeap.Allocator.AddSpace has the pointer steps.
- LinkedHeap.Allocator.AddSpace: no region starts at address 0, which would make a node look like a null pointer. The
  fields of a node are a map from its address; handles are kept beside them.
- Allocator: growing ZoneLow over the EBDA, and the population of the zones at boot.
- OptionRom.RomArea.Reserve: only the build with CONFIG_MALLOC_UPPERMEMORY, where ZoneLow is one region.
- Relocation.RelocPreinit: the tables are given as sequences of offsets in any order, each once, as sorting leaves them;
  parsing of object dumps and the text of the linker scripts are not modelled.
- Relocation.OtherReferencesKept: a 16-bit reference to init code would be patched as if it had four bytes; the result
  is about images in which the patched fields do not overlap.
- Layout.SetSectionsStart: the division is exact; sections are a list of sizes and alignments and two arrays of addresses.
- FixedLayout.FitSections: a section's name is its rank among the names, and the sort is an insertion sort; the figures
  printed at the end are not computed.
- FixedLayout.Layout16: which sections are text, data or fixed is given; text sections are listed once each.
- Cdrom.Read: a drive fails a read when one of its blocks cannot be read; what it then leaves in the count and the buffer
  are parameters, and a count it has changed is at most the number of blocks that could be read. A sector is one value.
- Threads: the assembly that changes stacks is the step "resume the next thread"; running a thread's function directly
  when no thread can be made is not a step of the ring.
- Threads.Scheduler.WaitThreads: the loop runs over rounds of steps given in advance, since it need not end.
- Cylinder, head and sector arithmetic and the framebuffer routines.
- Port I/O, interrupts, mode switches, option parsing, user interfaces and logging.
