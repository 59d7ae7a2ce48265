# Verification of the GameOS core

This project models the parts of GameOS and of its build tools that are hardest to get right, in Dafny, and proves what
they keep and what they compute. Run `dafny verify dfyconfig.toml` in this directory.

Code that updates fields, buffers or a cursor is a class or a method with loops here, proved against functions and
relations; the theorems about whole runs, uniqueness and round trips are lemmas about those.

| part of the system | modules |
|---|---|
| buddy heap: free lists linked through memory, headers, ALLOCATE, FREE, RESIZE, IS_THIS_YOURS | `Basics`, `Bits`, `BuddyBlocks`, `BuddyLists`, `BuddySeed`, `BuddyRuns`, `Memory`, `BuddyState`, `BuddyMoves`, `BuddyAllocator`, `BuddyClients`, `BuddyLimits` |
| boot information and memory map, and the heap made from them | `Multiboot`, `MemoryMap`, `Boot` |
| inflate: canonical Huffman codes, two-tier decoder, bit buffer, dynamic headers, block expansion | `BitReversal`, `Huffman`, `HuffmanTable`, `Gauges`, `BitStream`, `Inflate`, `InflateBlock`, `InflateHeader`, `InflateLimits` |
| PNG reconstruction | `Unfilter` |
| thread scheduler, as a step system over all CPUs and as code that refines it | `RingBuffer`, `Scheduler`, `Threads` |
| TLB shootdown | `Shootdown` |
| temporary allocator with marks and overflow pages | `Arenas`, `TemporaryAllocator` |
| DWARF 5: LEB128, abbreviations, line-number programs, address lookup | `Leb128`, `ByteReader`, `Abbreviations`, `LineProgram`, `LineLookup` |
| line drawing, random numbers | `RawLine`, `Sampling`, `Xoshiro` |
| preprocessor: lexer and `@for` | `Lexer`, `Unroller` |

How the pieces fit: `BuddyAllocator` keeps real links and headers in byte memory, and each of its methods states its
new free lists as a function of the old ones (`BuddyLists`). The theorems over runs (`BuddyRuns`) are about those
functions, and `BuddyClients` carries them over to pointers. `Boot` joins the memory map to that heap. `BitStream` proves
that the decoder with tables agrees with the bit-by-bit decoder of `Huffman`, and `Gauges` keeps the account of the bits it
takes. `InflateBlock` proves that a block appends what its tokens stand for, and that a whole block is decoded. `Threads`
proves that each lock region is one step of `Scheduler`, where the whole-run theorems are.

## What the proofs found

Where the code does not do what its comments or its other parts lead one to expect, the exact condition is proved.

- `order_for_block_size` doubles a 32-bit `int`. Blocks above 2 GiB are filed under order 31 (`OrderCorrectIff`), so
  `add_region` loses memory exactly when a region contains an aligned 4 GiB block (`SeedCoversIff`).
- RESIZE retires the old header last. Growing in place therefore leaves the new header FREED (`GrownIsLiveIff`), and a
  later FREE takes it for a double free (`GrownInPlaceIsLost`). When only the payload offset shrinks, the write can hit a
  payload byte (`GrowKeepsPayloadIff`, `PayloadByteLost`).
- The late fit failure of RESIZE loses the merged buddies. It needs a payload that does not fit in 2 GiB
  (`GrowLosesMemoryIff`, `GrowLosesMemory`).
- An ALLOCATE that fails its fit check after splitting leaves two free buddies side by side (`AllocateFailure`). That takes
  a free block of 4 GiB, which regions that touch can lead to (`FailureSplits`) and regions that do not touch cannot
  (`SmallRunHarmless`). Apart from these two cases every operation keeps the heap's invariants (`StepKeepsIff`).
- The check for data that ends too early at the end of a compressed block misses a block that ends within the zero bits
  its refills have put in (`EndCheckRightIff`, `TruncationMissed`). It never fires without need (`RanOut`).
- `reserve_range` halts with a full region list exactly when a region surrounds the range on both sides (`ReserveRange`).
- `@for` with `<=` and the greatest 64-bit limit, or `>=` and the least, has no value to stop at (`LoopEndsIff`).
- A special line-number opcode leaves the basic-block and prologue and epilogue registers set, where section 6.2.5.1 of
  DWARF 5 clears them. No row shows those registers, so the table is right all the same (`ParseRows`).

## Model

| member | source | states |
|---|---|---|
| BuddyBlocks.BuddyIs | src/gameos/allocator.hh:188-196 | The buddy found by exclusive-or is the block of the same size on the other side, it is its own inverse, it is disjoint from the block, and the two together are exactly the aligned block of the next order. |
| BuddyBlocks.CanonicalTiling | src/gameos/allocator.hh:188-198 | Two sets of aligned disjoint blocks that cover the same memory and contain no buddy pair are the same set: a fully coalesced free list is determined by the memory it covers. |
| BuddyBlocks.SplitPair | src/gameos/allocator.hh:153-157 | Replacing a block by its two halves keeps the blocks aligned and disjoint and covers exactly the same memory; the halves are each other's buddies. |
| BuddyLists.CoalesceSound | src/gameos/allocator.hh:188-198 | Freeing covers exactly the old free memory and the freed block, keeps all blocks aligned and disjoint and the lists free of repeats, and leaves no buddy pair if there was none. |
| BuddyLists.SplitSound | src/gameos/allocator.hh:151-157 | Splitting keeps the memory of the free blocks and the block being cut, and leaves no buddy pair among free blocks if there was none. |
| BuddyLists.CoalesceUndoesSplit | src/gameos/allocator.hh:151-157 | Coalescing the block that a split left gives the very lists, order included, that freeing the whole block would have given. |
| BuddyLists.AllocateThenFree | src/gameos/allocator.hh:139-200 | Allocating and freeing at once restores all 64 lists exactly, order included. |
| BuddyLists.CheckPredictsRemovals | src/gameos/allocator.hh:238-259 | The checking pass of RESIZE succeeds if and only if every removal of its second pass will find its block. |
| BuddyLists.AbsorbSound | src/gameos/allocator.hh:250-259 | When the check has passed, the merged block is aligned, contains the old block, and together with the remaining free blocks covers exactly what was covered before. |
| BuddyLists.GrownBase | src/gameos/allocator.hh:250-259 | The merged block starts at the old base or at least one old block size below it. |
| BuddySeed.OrderForBlockSizeIs | src/gameos/allocator.hh:53-61 | With the 32-bit running size, a block of 2^k bytes gets order k up to 2 GiB and order 31 above. |
| BuddySeed.OrderCorrectIff | src/gameos/allocator.hh:53-61 | The order names the size of the block if and only if that is at most 2 GiB. |
| BuddySeed.TargetOrderIs | src/gameos/allocator.hh:63-68 | The order for a request is the least one whose blocks hold it, up to 2 GiB, and 31 for anything larger. |
| BuddySeed.ChunkIs | src/gameos/allocator.hh:109-115 | Each chunk is the largest aligned power of two that fits at its address: the next larger one is misaligned or too long. |
| BuddySeed.SeedSetSound | src/gameos/allocator.hh:103-121 | The blocks pushed for a region are aligned, disjoint, inside it, and contain no buddy pair. |
| BuddySeed.SeedAdds | src/gameos/allocator.hh:103-121 | `add_region` adds exactly those blocks to the free lists and removes nothing. |
| BuddySeed.SeedCoversIff | src/gameos/allocator.hh:103-121 | Every page of the region reaches the heap if and only if the region contains no aligned block of 4 GiB. |
| BuddyRuns.UserAddressIs | src/gameos/allocator.hh:160-160 | The payload starts at the first multiple of the alignment that leaves room for the 32-byte header. |
| BuddyRuns.RequiredFits | src/gameos/allocator.hh:135-161 | A request always fits the block chosen for it as long as the required size is at most the block size, so the fit check cannot fail below 2 GiB. |
| BuddyRuns.TargetIsLeast | src/gameos/allocator.hh:135-138 | The order that a request asks for is the least whose blocks hold size, alignment and 32 bytes of header. |
| BuddyRuns.StepKeeps | src/gameos/allocator.hh:123-282 | Every ALLOCATE, FREE and RESIZE whose payload fits in 2 GiB keeps free and owned blocks aligned and pairwise disjoint, covers exactly the same memory, and creates no free buddy pair. |
| BuddyRuns.StepKeepsIff | src/gameos/allocator.hh:123-282 | On a heap without free buddies an operation keeps all that if and only if its payload fits in 2 GiB or it neither splits nor merges. |
| BuddyRuns.RunReturnsToStart | src/gameos/allocator.hh:123-282 | After any run of such operations that ends with nothing owned the free lists hold exactly the blocks they held before it. |
| BuddyRuns.EmptiedHeapIsAsSeeded | src/gameos/allocator.hh:74-121 | Clearing, seeding regions that do not touch, any run in which no RESIZE merges buddies for more than fits in 2 GiB, and freeing everything: the free blocks are exactly the ones `add_region` first built. |
| BuddyRuns.StaysSmall | src/gameos/allocator.hh:123-282 | However the memory of coalesced blocks of at most 2 GiB is cut up, no larger block ever fits in it. |
| BuddyRuns.SmallRunHarmless | src/gameos/allocator.hh:123-282 | In a heap seeded with regions that do not touch, every ALLOCATE and FREE is harmless, whatever it asks for, in any run in which no RESIZE merges buddies for more than fits in 2 GiB. |
| BuddyRuns.SeedAllSound | src/gameos/allocator.hh:103-121 | Seeding any regions that do not touch gives a heap in which the invariant holds and no two free buddies coexist. |
| BuddyRuns.GrowLosesMemoryIff | src/gameos/allocator.hh:261-266 | The late fit failure of RESIZE, after the buddies have been removed, loses their memory; it happens if and only if payload offset plus size exceeds 2 GiB. |
| BuddyRuns.AllocateFailure | src/gameos/allocator.hh:159-164 | An ALLOCATE that fails its fit check leaves the lists unchanged if and only if it did not split; otherwise a free buddy pair remains. |
| Memory.LoadStored | src/gameos/allocator.hh:79-83 | A 64-bit word in byte memory reads back as it was stored. |
| BuddyState.PushLinks | src/gameos/allocator.hh:79-83 | Storing the old head in the block and making the block the head turns a well-linked list into one with the block in front. |
| BuddyState.UnlinkAt | src/gameos/allocator.hh:85-95 | Storing the successor's address in the link that leads to a block takes exactly that block out of its list, and leaves all 64 lists well linked. |
| BuddyState.PayloadIsTheClients | src/gameos/allocator.hh:166-175 | Whatever a client writes into its own payload, links, headers and the other allocations stay intact. |
| BuddyState.AllocateDone | src/gameos/allocator.hh:151-175 | The state after a successful ALLOCATE: a new pointer, a live header that places it in its own block, every other allocation and every link intact. |
| BuddyState.FreeDone | src/gameos/allocator.hh:178-200 | The state after FREE is that of the abstract step: the block leaves the owned set and is merged into the free lists. |
| BuddyMoves.MoveDistance | src/gameos/allocator.hh:261-262 | In a merged block the payload stays where it was or moves down by at least a header, so that the upward copy never overwrites what it has yet to read. |
| BuddyMoves.GrowKeepsPayloadIff | src/gameos/allocator.hh:268-280 | Growing keeps all payload bytes if and only if the block base moved down, or the payload did not move, or it ends below the retired state byte, or that byte holds 0x5A anyway. |
| BuddyMoves.PayloadFateIs | src/gameos/allocator.hh:268-280 | The same for the whole recorded payload, from the bytes that RESIZE has carried over. |
| BuddyMoves.GrownIsLiveIff | src/gameos/allocator.hh:268-281 | After the last write of RESIZE the state byte of the grown block's header is LIVE if and only if the block base or the payload offset has changed; growing in place leaves it FREED. |
| BuddyAllocator.Allocator.PushFreeBlock | src/gameos/allocator.hh:79-83 | Pushes the block on the list of its order and writes nowhere but in the first word of the block. |
| BuddyAllocator.Allocator.RemoveFreeBlock | src/gameos/allocator.hh:85-95 | Finds the block if and only if it is on the list, and takes out exactly that block by rewriting one link. |
| BuddyAllocator.Allocator.FindLink | src/gameos/allocator.hh:86-93 | The walk stops at the first link that leads to the block, or at the end of the list if it is not there. |
| BuddyAllocator.Allocator.IsFreeBlock | src/gameos/allocator.hh:97-101 | Says whether the block is on the list of its order. |
| BuddyAllocator.Allocator.OrderFor | src/gameos/allocator.hh:53-61 | The loop with its 32-bit running size computes the order that the theorems above are about. |
| BuddyAllocator.Allocator.AddRegion | src/gameos/allocator.hh:103-121 | Pushes exactly the blocks of the region, writes only inside them, and does nothing for a region without a whole page. |
| BuddyAllocator.Allocator.Allocate | src/gameos/allocator.hh:127-176 | Rejects bad arguments and size 0 as the source does; otherwise hands out the first block of the least sufficient list, cut down to the least order that holds header, payload and room to align it, with a live header and an aligned payload, or reports OUT_OF_MEMORY and hands out nothing. |
| BuddyAllocator.Allocator.Free | src/gameos/allocator.hh:178-200 | For a pointer that was handed out, and any other whose header is not LIVE: fails exactly if the state byte is not LIVE, and then changes nothing; otherwise merges the block with its free buddies as far as it goes, writes only in its block and in free blocks, and leaves the byte FREED. |
| BuddyAllocator.Allocator.FreeTwice | src/gameos/allocator.hh:178-186 | A second FREE of the same pointer, with nothing in between, is always caught. |
| BuddyAllocator.Allocator.Resize | src/gameos/allocator.hh:202-282 | Each of the ways RESIZE ends, with lists, owned blocks, header and payload as it leaves them: size recorded in place, MODE_NOT_IMPLEMENTED with nothing touched, move into the merged block, which is of the least order that will do, or the late failure. On a move the first bytes of the payload, as many as the old size says and the new one holds, are found at the new place, all of the recorded payload exactly if the block grew downwards or the payload survives the retired state byte; and nothing else is written but the header, that byte and links. |
| BuddyAllocator.Allocator.CheckBuddies | src/gameos/allocator.hh:238-248 | The first pass says whether every buddy up to the target order is free, and changes nothing. |
| BuddyAllocator.Allocator.AbsorbBuddies | src/gameos/allocator.hh:250-259 | The second pass removes exactly those buddies and computes the base of the merged block. |
| BuddyAllocator.Allocator.CopyMemory | src/gameos/cstring.hh:5-18 | Copies all bytes correctly between overlapping regions when the destination is at least 8 bytes lower. |
| BuddyAllocator.Allocator.MovePayload | src/gameos/allocator.hh:268-281 | The new header, as many payload bytes as the old size says and the new one holds, and the last write of FREED, in this order, for every move distance; no other byte is written. |
| BuddyAllocator.Allocator.IsThisYours | src/gameos/allocator.hh:292-319 | Accepts a pointer if and only if the header before it is live and places it inside the block it names; so it recognises an owned pointer if and only if its header is live. |
| BuddyClients.Clients.MakeAll | src/gameos/allocator.hh:123-282 | Whole runs through pointers, headers and client writes included: any calls of ALLOCATE, RESIZE and FREE, up to the first on which the heap halts, which takes a header that is not LIVE, are a run over blocks; if in the end nothing is owned and no RESIZE has asked for more than fits in 2 GiB, the free lists of a coalesced heap hold exactly the blocks they held before. |
| BuddyClients.Clients.Make | src/gameos/allocator.hh:123-282 | One such call: what it asks of the blocks, and that all pointers kept by clients stay valid and distinct. |
| BuddyLimits.FourGiBMisfiled | src/gameos/allocator.hh:53-61 | A block of 4 GiB is filed as one of 2 GiB. |
| BuddyLimits.RegionLost | src/gameos/allocator.hh:53-61 | Of the region from 4 GiB to 8 GiB part never reaches the heap. |
| BuddyLimits.OnePageTakenReached | src/gameos/allocator.hh:127-176 | From the region from 2 to 4 GiB, ALLOCATE of 16 bytes leads to the heap of the next row. |
| BuddyLimits.GrowLosesMemory | src/gameos/allocator.hh:261-266 | A region, an ALLOCATE and a RESIZE that loses memory. |
| BuddyLimits.GrownInPlace | src/gameos/allocator.hh:202-282 | On a fresh heap of 8 KiB, ALLOCATE(64, 64) and RESIZE to 5000 bytes with the same alignment: it grows in place. |
| BuddyLimits.GrownInPlaceIsLost | src/gameos/allocator.hh:268-281 | After that IS_THIS_YOURS no longer knows the pointer, and FREE of it halts. |
| BuddyLimits.PayloadByteLost | src/gameos/allocator.hh:278-280 | The same with alignment 16 for the growth, after a client has written its tenth byte: the payload moves by 32 bytes, and the byte is then 0x5A whatever was written. |
| BuddyLimits.FourGiBReached | src/gameos/allocator.hh:188-198 | From two regions that touch, at 4 and at 6 GiB, an ALLOCATE and its FREE lead to a free block of 4 GiB. |
| BuddyLimits.FailureSplits | src/gameos/allocator.hh:151-164 | On the heap so reached an ALLOCATE of 2 GiB fails and leaves a buddy pair. |
| Bits.FloorPow2Is | src/kstd/math.hh:209-218 | The smearing `floor_pow2` is the greatest power of two not above its argument, for every nonzero 64-bit number. |
| Bits.PowerOfTwoTest | src/kstd/math.hh:205-207 | The test by masking accepts exactly the powers of two. |
| Bits.XorBuddy | src/gameos/allocator.hh:192-192 | Exclusive-or with the size of an aligned block adds it or subtracts it according to the next bit of the address. |
| Bits.AlignUpIs | src/kstd/allocator.hh:166-169 | Rounding up gives a multiple of the alignment, less than one alignment above the value. |
| Bits.AlignUpLeast | src/kstd/allocator.hh:166-169 | No multiple of the alignment lies between the value and what it is rounded up to. |
| MemoryMap.MemoryRegions.ReserveRange | src/gameos/memory.hh:31-76 | The new list covers exactly the old one less the page-rounded range, stays free of overlaps and grows by at most one; the overflow assertion fires if and only if the list is full and a region surrounds the range. Terminates. |
| MemoryMap.MemoryRegions.ReserveAt | src/gameos/memory.hh:37-75 | One turn of the loop: the part before the index avoids the range, coverage is kept, and the overlapping regions left, then the regions left, decrease. |
| MemoryMap.OnlyOneMeets | src/gameos/memory.hh:66-74 | If a region surrounds the range, no other region meets it, so the list grows at most once. |
| MemoryMap.MemoryRegions.AddUsable | src/gameos/memory.hh:27-29 | Appends the region, or fails when 128 are there. |
| Multiboot.UsableEntriesAre | src/gameos/memory.hh:87-91 | Exactly the entries whose type is 1 count as usable. |
| Boot.AddUsableRegions | src/gameos/memory.hh:78-96 | The list holds the usable entries of all memory maps in order, and succeeds if and only if there are at most 128. |
| Boot.ReserveAll | src/gameos/memory.hh:98-132 | What is left is exactly what was usable and lies in no page that is touched by the first MiB, the boot information, the kernel, a command line or loader name with its terminator, a module, or the name of a module that has one; without overlaps; it succeeds if there is room for one region more per range. |
| Boot.TakenIs | src/gameos/memory.hh:112-131 | The ranges reserved touch exactly those pages. |
| Boot.UsableIs | src/gameos/memory.hh:82-95 | An address is in a usable region exactly if some entry of type 1 of some memory map holds it. |
| Boot.SeedHeap | src/gameos/memory.hh:144-147 | The heap's free blocks are exactly those of the regions. |
| Boot.BuildHeap | src/gameos/memory.hh:138-147 | From the boot information to the heap: the regions hold exactly the addresses that a memory map calls usable and that lie in none of those pages; no block of the heap holds any other; base 0 is never seeded. |
| Boot.Initialize | src/gameos/memory.hh:135-165 | The whole function, temporary memory included: with room in the region list it succeeds if and only if some block has at least 2 MiB; the heap then manages exactly the seeded memory, all of it usable and none of it in a page that must be kept, owns one allocation of 1 MiB, and the temporary allocator starts empty on it. |
| Boot.AllocateTemporary | src/gameos/memory.hh:151-154 | 1 MiB is found if and only if a free block of order 21 or more is there. |
| Boot.HeapAvoidsReserved | src/gameos/memory.hh:138-147 | Every address in a block of the heap is usable and in no reserved range. |
| Boot.HeapCoversIff | src/gameos/memory.hh:144-147 | The whole pages of a region all become free memory if and only if they contain no aligned 4 GiB block. |
| Boot.NothingAtZero | src/gameos/memory.hh:110-110 | Once the first MiB is reserved no region with a page in it starts at address 0. |
| BitReversal.BitReverse16Is | tools/stb_image.h:4107-4114 | The four mask-and-shift exchanges put bit i of the low 16 bits at 15 - i, whatever lies above them. |
| BitReversal.BitReverseIs | tools/stb_image.h:4116-4122 | Shifting that right reverses a code of any length up to 16. |
| BitReversal.StartsWith | tools/stb_image.h:4158-4164 | A bit stream starts with a code if and only if its low bits are the code reversed. |
| Huffman.OneMatch | tools/stb_image.h:4139-4166 | At most one code word of a canonical code is a prefix of a stream: the code is prefix-free. |
| Huffman.NextCode | tools/stb_image.h:4135-4149 | Without its counters: the code of each symbol is that of the one before it, by length and number, plus one, with zeros behind it if it is longer. |
| Huffman.FirstOfAll | tools/stb_image.h:4135-4149 | The first symbol has the code 0. |
| Huffman.AcceptedIffKraft | tools/stb_image.h:4135-4149 | The builder's checks accept exactly the length lists that satisfy the Kraft inequality, incomplete codes included. |
| Huffman.PlainDecodeIs | tools/stb_image.h:4224-4241 | The bit-by-bit decoder of section 3.2.2 of RFC 1951 finds the symbol whose code starts the stream, and fails if and only if there is none. |
| Huffman.DecodeEncoded | tools/stb_image.h:4224-4271 | Decoding a symbol's code followed by anything gives the symbol and leaves what followed. |
| HuffmanTable.FastLookup | tools/stb_image.h:4263-4269 | A nonzero fast entry is the symbol and length of the code that the stream starts with; a zero entry means no code of up to nine bits matches. |
| HuffmanTable.MaxcodeTest | tools/stb_image.h:4229-4232 | The comparison with the preshifted limit succeeds if and only if a code of at most that length matches. |
| HuffmanTable.SlowLookup | tools/stb_image.h:4234-4237 | The slot computed from the length holds a symbol of exactly that length: the size test never fires. |
| HuffmanTable.SlotIs | tools/stb_image.h:4154-4157 | Every coded symbol has a slot of its own. |
| HuffmanTable.Table.Build | tools/stb_image.h:4124-4169 | Succeeds if and only if the lengths are not over-subscribed, and then fast table, limits, first codes and slots are those of the canonical code. |
| HuffmanTable.Table.ComputeRanges | tools/stb_image.h:4138-4150 | First codes, first slots and preshifted limits, all within 16 bits, for every accepted list. |
| HuffmanTable.Table.FillFast | tools/stb_image.h:4158-4164 | Stores the entry wherever nine bits start with the code, and changes no other entry. |
| BitStream.BitReader.FillBits | tools/stb_image.h:4202-4212 | Refilling leaves the stream of bits as it is, keeps the buffer below 2^num_bits, and its early return is never taken. |
| BitStream.BitReader.Receive | tools/stb_image.h:4214-4222 | The next n bits of the stream as a number, and the stream without them. |
| BitStream.BitReader.Decode | tools/stb_image.h:4243-4271 | The two-tier decoder returns the same symbol and takes the same bits as the bit-by-bit decoder; it fails if and only if there is no code there or the padding is used up, and then takes nothing. |
| BitStream.BitReader.FindSymbol | tools/stb_image.h:4224-4241 | The slow path agrees with the bit-by-bit decoder whenever no short code matches. |
| BitStream.BitReader.FindLength | tools/stb_image.h:4229-4233 | The search stops at the least length at which a code matches, or at 16 if none does. |
| BitStream.TakeBits | tools/stb_image.h:4214-4222 | The low bits of the stream and the rest of it are those of the buffer. |
| InflateBlock.EndCheckRightIff | tools/stb_image.h:4326-4332 | After any block, the check for data that ends too early agrees with the truth if and only if the block does not end within the zero bits that its refills have put in; the number of those is computed from the reader before the block and from the block, and none are added if and only if every refill finds at least 25 bits. |
| Gauges.EndCheckIs | tools/stb_image.h:4326-4332 | The check fires if and only if more has been taken than the data and those zeros. |
| Gauges.ZerosIff | tools/stb_image.h:4202-4212 | Over any readings, no zeros are put in if and only if no refill finds fewer than 25 bits. |
| Gauges.FilledIs | tools/stb_image.h:4202-4212 | A refill puts in exactly the zeros that are missing to the whole byte above 24 bits. |
| InflateLimits.TruncationMissed | tools/stb_image.h:4326-4332 | One byte of data and a table with a 9-bit end of block: the block is decoded without complaint, with 9 bits taken of 8. |
| Inflate.OneToken | tools/stb_image.h:4309-4343 | At most one literal or match can be read from a stream. |
| Inflate.LengthsInOrder | tools/stb_image.h:4296-4302 | Length symbols: 257 stands for 3, each goes on where the one before it ends, 285 is 258 alone, and the extra bits grow by one with every fourth symbol after the first eight. |
| Inflate.DistancesInOrder | tools/stb_image.h:4304-4308 | Distance symbols in the same way from 1 to 32768, one more extra bit for every second symbol. |
| Inflate.LengthsCount | tools/stb_image.h:4337-4338 | Counting through symbols and extra bits counts through the lengths. |
| Inflate.DistancesCount | tools/stb_image.h:4341-4342 | And so for the distances. |
| Inflate.OneBlock | tools/stb_image.h:4309-4357 | A block can be read in one way only. |
| Inflate.BlockRoundTrip | tools/stb_image.h:4309-4357 | The tokens read from an encoded block are the tokens encoded, and what followed the block is left. |
| Inflate.CopyIsPeriodic | tools/stb_image.h:4348-4354 | An overlapping copy repeats the last `distance` bytes periodically, for every length and distance. |
| InflateBlock.GrownLimit | tools/stb_image.h:4282-4285 | The doubled size has room, is less than twice what is needed unless nothing had to grow, and is refused only if more than half of 32 bits is needed. |
| InflateBlock.Inflater.Expand | tools/stb_image.h:4273-4293 | Keeps all earlier output and makes room for n bytes, or fails exactly when that is not possible. |
| InflateBlock.Inflater.CopyMatch | tools/stb_image.h:4348-4354 | Both copying loops, the run of one byte and the general one, append the periodic copy. |
| InflateBlock.Inflater.ReadMatch | tools/stb_image.h:4336-4342 | Length, distance and their extra bits are those of the token that the stream starts with, and exactly their bits are taken. |
| InflateBlock.Inflater.Step | tools/stb_image.h:4312-4355 | One token is read, exactly its bits are taken, and it is expanded; or the loop stops for a reason that is the case where the token was to be read: an undecodable symbol, a distance too far, no room, the end of the block, or a reader that has used up data and padding with exactly the bits taken that the token has so far. |
| InflateBlock.Inflater.ParseBlock | tools/stb_image.h:4309-4357 | Appends exactly what the tokens of the block stand for by section 3.2.3 of RFC 1951 and takes exactly their bits, up to the end of the block or the first thing that is wrong, which it names. A block that lies wholly in the data ends well unless a distance reaches too far or there is no room. |
| InflateBlock.WholeBlock | tools/stb_image.h:4309-4357 | Of a block that lies wholly in the data, the decoder has read all tokens and its end, or a part that stops at a token whose distance reaches too far or for which there is no room. |
| InflateBlock.EncodedIsWhole | tools/stb_image.h:4309-4357 | Every encoded block whose bits fit in the data is such a block. |
| InflateBlock.RanOut | tools/stb_image.h:4224-4332 | The decoder complains about the end of the data only when more bits have been taken than there were. |
| InflateHeader.OneHeader | tools/stb_image.h:4379-4402 | Only one list of runs can be read from a stream for a given number of lengths. |
| InflateHeader.OrderIs | tools/stb_image.h:4361-4361 | The order in which the code length code is sent: 16, 17, 18, 0, and then outwards from 8; every symbol has one place. |
| InflateHeader.RunMeans | tools/stb_image.h:4383-4399 | What each run stands for: one length, three to six copies of the last, three to ten zeros, eleven to 138 zeros. |
| InflateHeader.ReadLengths | tools/stb_image.h:4379-4403 | The lengths are the expansion of the runs in the stream, with exactly the bits of those runs taken; a failure has one of its three reasons at the place where the next run was to be read, or the reader has used up data and padding with a stated number of bits taken. |
| InflateHeader.ComputeCodes | tools/stb_image.h:4359-4407 | Leaves tables for exactly the literal and distance lengths that a dynamic block's header describes, with exactly its bits taken, or refuses it for a reason that is the case; a header with usable codes that lies wholly in the data is never refused. |
| InflateHeader.WholeIsRead | tools/stb_image.h:4359-4407 | No reason to refuse can be the case for a header with usable codes that lies wholly in the data. |
| InflateHeader.HeaderRoundTrip | tools/stb_image.h:4359-4403 | An encoded header is read back as the counts, code lengths and runs it was made from, and what followed it is left. |
| Unfilter.PaethIs | tools/stb_image.h:4657-4668 | The branch-light form is the predictor of section 6.6 of RFC 2083, ties included, for all integers. |
| Unfilter.ReconAt | tools/stb_image.h:4754-4785 | Each byte of a reconstructed row is the raw byte plus the prediction of its filter type, modulo 256. |
| Unfilter.RowBytes | tools/stb_image.h:4754-4785 | Each filter byte by byte: nothing, the byte to the left, the byte above, their mean rounded down, or the nearest of three, added modulo 256. |
| Unfilter.ReconUndoesFilter | tools/stb_image.h:4754-4785 | Reconstruction undoes filtering, for every row, prior row, pixel stride and filter. |
| Unfilter.ImageUndoesEncode | tools/stb_image.h:4737-4787 | Decoding an encoded image gives its rows, for every size, pixel stride and choice of filter per row. |
| Unfilter.ArmIs | tools/stb_image.h:4754-4785 | The arm for the first row's rewritten filter computes the row that its original filter and a prior row of zeros give. |
| Unfilter.UnfilterRow | tools/stb_image.h:4754-4785 | The filter loops reconstruct the row in place in one half of the buffer from the prior row in the other. |
| Unfilter.UnfilterImage | tools/stb_image.h:4737-4833 | With two alternating row buffers the whole image is reconstructed, and left in memory as bytes, or as little-endian words if samples have 16 bits; it fails if and only if there is too little data or an invalid filter byte. |
| Unfilter.CopyWords | tools/stb_image.h:4829-4833 | Each sample of 16 bits is left with its two bytes exchanged, stated byte by byte. |
| Unfilter.NativeTwice | tools/stb_image.h:4829-4833 | Exchanging again gives the reconstructed bytes: nothing is lost on the way out. |
| RingBuffer.Queue.PushBack | src/kstd/ring_buffer.hh:16-22 | Appends to the contents; positions wrap. |
| RingBuffer.Queue.PopFront | src/kstd/ring_buffer.hh:24-31 | Takes the oldest element. |
| Scheduler.AssertionsNeverFire | src/gameos/threads.hh:206-211 | In a state in which the invariant holds no assertion of the scheduler fires: the queue is never full, a dequeued thread is ready, a yielding one is running on its CPU. |
| Scheduler.StepKeeps | src/gameos/threads.hh:169-372 | Every step of every CPU and client keeps the invariant. |
| Scheduler.Reachable | src/gameos/threads.hh:169-372 | In every interleaving: READY threads are exactly those queued once, being created, or popped by one CPU; RUNNING ones belong to exactly one CPU they may run on; each finished thread is reclaimed at most once. |
| Scheduler.CreatedAs | src/gameos/threads.hh:227-252 | The new thread takes the lowest free slot: ready, not detached, bound as asked, and nothing else changes. |
| Scheduler.RunsWhereBound | src/gameos/threads.hh:252-252 | In every interleaving, from the creation of a thread bound to a CPU until its slot is reclaimed, no other CPU takes it or runs it. |
| Scheduler.PollPosition | src/gameos/threads.hh:329-348 | A poll takes a queued thread or brings it no further back, and one that may run on the polling CPU strictly forward. |
| Scheduler.DispatchedWithin | src/gameos/threads.hh:325-348 | A thread at position p that may run on a CPU is taken before that CPU has polled more than p + 1 times, whatever the others do. |
| Threads.Kernel.CreateThread | src/gameos/threads.hh:227-252 | The lowest free slot gets a thread that is ready, not detached and bound to the CPU asked for, and no other slot changes; or the "Thread table full" assertion fires if and only if none is free. |
| Threads.Kernel.EnqueueThread | src/gameos/threads.hh:207-211 | Appends the new thread to the queue, as the abstract step does; "Ready queue full" does not fire. |
| Threads.Kernel.YieldThread | src/gameos/threads.hh:300-323 | Makes the running thread ready and queues it, as the abstract step does; none of its three assertions fires. |
| Threads.Kernel.FinishCurrent | src/gameos/threads.hh:169-184 | Marks the running thread done, as the abstract step does; the assertion does not fire. |
| Threads.Kernel.Rotate | src/gameos/threads.hh:335-346 | Popping and pushing back takes the earliest thread eligible for the CPU and keeps all others in their order; nothing changes if none is eligible. |
| Threads.Kernel.PollQueue | src/gameos/threads.hh:329-348 | Takes the first queued thread that may run on the CPU, leaves the others in their order, and takes nothing if and only if none may; exactly the abstract step. |
| Threads.Kernel.DispatchThread | src/gameos/threads.hh:350-357 | Makes the thread the running one of its CPU, as the abstract step does; "Dequeued thread is not ready" does not fire. |
| Threads.Kernel.ReturnToIdle | src/gameos/threads.hh:358-365 | The CPU has no current thread any more, and the lock is taken if and only if the unlocked check says so. |
| Threads.Kernel.RecheckThread | src/gameos/threads.hh:366-368 | Reclaims the thread if and only if the second check still holds, as the abstract step does. |
| Threads.Kernel.DetachThread | src/gameos/threads.hh:490-502 | Marks a thread that has neither finished nor been detached, exactly as the abstract step does; one of the four assertions fires if and only if that step is not possible, and then nothing changes. |
| Threads.Kernel.JoinThread | src/gameos/threads.hh:523-532 | Reclaims a finished thread that is not detached, as the abstract step does, so that its slot can be used again; an assertion fires if and only if that step is not possible. |
| Shootdown.StepKeeps | src/gameos/translation_lookaside_buffer.hh:30-79 | Every step of the initiator and of the handlers keeps the invariant. |
| Shootdown.EndMeansAll | src/gameos/translation_lookaside_buffer.hh:76-78 | When the spin ends, every other CPU has acknowledged and nothing is in flight. |
| Shootdown.ReturnsAfterAllFlushed | src/gameos/translation_lookaside_buffer.hh:41-79 | In every interleaving of any number of rounds, a shootdown returns only after every online CPU has flushed this round's page, and nothing carries over to the next round. |
| Shootdown.CounterIsExact | src/gameos/interrupts.hh:356-360 | The counter equals the number of CPUs that have acknowledged this round, each of which has flushed this round's page. |
| Arenas.PlaceIs | src/kstd/allocator.hh:321-321 | The place of an allocation is aligned, and only alignment is lost before it. |
| Arenas.AllocatedOk | src/kstd/allocator.hh:338-359 | An allocation is aligned, inside one page, disjoint from everything live, and keeps everything that was there. |
| Arenas.RetrySucceeds | src/kstd/allocator.hh:354-358 | The second attempt on a fresh overflow page always succeeds. |
| Arenas.GrowTailOk | src/kstd/allocator.hh:371-381 | Growing the last allocation in place overlaps nothing. |
| Arenas.RewindRestores | src/kstd/allocator.hh:285-293 | After any allocations, resizes, overflow pages and inner marks, rewinding restores page, occupancy, total and live allocations; until then everything live at the mark stays live and disjoint from the rest. |
| TemporaryAllocator.State.AllocateHere | src/kstd/allocator.hh:320-332 | Bumps if and only if the aligned allocation fits the page; what is lost to alignment counts as occupied, and the high-water mark follows. |
| TemporaryAllocator.State.AddPage | src/kstd/allocator.hh:295-313 | A page big enough for the request, and at least as big as the original memory, becomes the page in use; nothing changes if there is no memory. |
| TemporaryAllocator.State.Allocate | src/kstd/allocator.hh:338-359 | All outcomes of ALLOCATE, with the state each leaves. |
| TemporaryAllocator.State.Resize | src/kstd/allocator.hh:361-388 | All outcomes of RESIZE, with whatever old size is claimed as long as it is not used to grow; it grows in place if and only if the allocation is the last one and there is room. |
| TemporaryAllocator.State.Rewind | src/kstd/allocator.hh:289-293 | Frees exactly the pages added since the mark and restores it; the assertion about a foreign mark does not fire. |
| TemporaryAllocator.State.TakeMark | src/kstd/allocator.hh:285-287 | The mark names the page in use, its occupancy and the total. |
| TemporaryAllocator.State.Perform | src/kstd/allocator.hh:285-390 | Any run of allocations, growth in place, marks and rewinds that `Arenas` allows leaves exactly the state of that machine. |
| TemporaryAllocator.State.Scoped | src/kstd/allocator.hh:285-293 | Whatever is done between taking a mark and rewinding to it, only the high-water mark remembers it. |
| Leb128.UnsignedRoundTrip | src/kstd/byte_reader.hh:111-130 | Reading undoes the shortest encoding of every unsigned 64-bit number, whatever follows it. |
| Leb128.SignedRoundTrip | src/kstd/byte_reader.hh:132-161 | The same for every signed 64-bit number. |
| Leb128.TooLong | src/kstd/byte_reader.hh:111-161 | Numbers that go on for more than ten bytes are refused. |
| Leb128.Examples | src/kstd/byte_reader.hh:111-161 | Encodings worked out by hand. |
| ByteReader.GroupStep | src/kstd/byte_reader.hh:124-124 | Or-ing seven more bits in, in 64 bits, adds the group to the number, also for the tenth group of which one bit fits. |
| ByteReader.SignFill | src/kstd/byte_reader.hh:153-156 | Filling with ones subtracts the power of two that makes the number negative. |
| ByteReader.Reader.ReadUnsigned | src/kstd/byte_reader.hh:111-130 | Reads the number at the cursor and moves behind it, or fails without moving, if the bytes end or go on for more than ten. |
| ByteReader.Reader.ReadSigned | src/kstd/byte_reader.hh:132-161 | The same, with the sign extended. |
| ByteReader.Reader.ReadLittle | src/kstd/byte_reader.hh:59-102 | The little-endian number of n bytes, or failure without moving. |
| ByteReader.Reader.ReadBool | src/kstd/byte_reader.hh:49-52 | Any nonzero byte is true. |
| ByteReader.Reader.Skip | src/kstd/byte_reader.hh:187-191 | Moves by the count, forwards or back, if and only if that does not go past the end. |
| Abbreviations.TableRoundTrip | src/kstd/dwarf.hh:134-157 | Parsing undoes the encoding of every abbreviation table of section 7.5.3 of DWARF 5, implicit constants and repeated codes included, whatever follows, and stops right behind the terminator. |
| Abbreviations.ExampleTable | src/kstd/dwarf.hh:134-157 | A table worked out by hand, with an implicit constant. |
| Abbreviations.SpecsRoundTrip | src/kstd/dwarf.hh:102-125 | The same for attribute specifications up to the pair of zeros. |
| Abbreviations.ParseSpecs | src/kstd/dwarf.hh:102-125 | The loop reads what the bytes say, or fails exactly when they end too early. |
| Abbreviations.ParseTable | src/kstd/dwarf.hh:134-157 | The same for the table. |
| LineProgram.ProgramRoundTrip | src/kstd/dwarf.hh:1037-1195 | Every line-number program is found again in the bytes that encode it, wherever they lie: instructions of all three kinds, unknown standard and extended opcodes included. |
| LineProgram.AdvanceIs | src/kstd/dwarf.hh:1104-1193 | What the standard says of an operation advance: whole instructions move the address, the rest the operation index; special opcodes divide by the line range, and the remainder moves the line. |
| LineProgram.ConstAddPcIs | src/kstd/dwarf.hh:1141-1147 | `DW_LNS_const_add_pc` moves address and operation index as the special opcode 255 would, and no other register. |
| LineProgram.ExampleRows | src/kstd/dwarf.hh:1037-1195 | The rows of a sequence worked out by hand, and the registers that the next one starts with. |
| LineProgram.ParseRows | src/kstd/dwarf.hh:1037-1195 | For one operation to an instruction, on any well-formed program: the rows are the matrix of the state machine of section 6.2.5 of DWARF 5, addresses modulo 2^64; no assertion fires, and parsing stops exactly at the end of the unit. |
| LineProgram.ReadExtended | src/kstd/dwarf.hh:1041-1091 | The extended instructions move the cursor behind their length and do what the state machine does. |
| LineProgram.ReadOperand | src/kstd/dwarf.hh:1104-1181 | The standard instructions with operands, unknown ones skipped by their operand count. |
| LineProgram.RunSpecial | src/kstd/dwarf.hh:1182-1193 | A special opcode advances address and line by quotient and remainder and appends the row. |
| LineLookup.SourceForAddress | src/kstd/dwarf.hh:1219-1256 | The first row of greatest address not above the query, in the last sequence that covers it; found if and only if a sequence covers it. |
| RawLine.DrawLine | src/gameos/gfx.hh:737-769 | Plots one pixel per step along the longer axis, with the error in [0, dx) throughout when dx > 0. |
| RawLine.WithinHalfPixel | src/gameos/gfx.hh:748-768 | No pixel is more than half a pixel off the true line on the minor axis. |
| RawLine.WalkIsExact | src/gameos/gfx.hh:755-768 | The walk starts exactly at one end and stops exactly at the other. |
| RawLine.SameLine | src/gameos/gfx.hh:737-769 | With the ends exchanged the same max(abs(dx), abs(dy)) + 1 pixels are plotted, from one end to the other. |
| Sampling.ThresholdIs | src/gameos/random.hh:97-98 | The threshold is 2^64 modulo the range, so that a whole number of ranges is left. |
| Sampling.NoModuloBias | src/gameos/random.hh:94-106 | Each value in [from, to) is produced by exactly floor(2^64 / (to - from)) of the accepted 64-bit draws. |
| Sampling.Generate | src/gameos/random.hh:94-106 | Returns the first accepted draw's remainder above `from`. |
| Xoshiro.NextIsInvertible | src/gameos/random.hh:19-33 | The state before a draw can be computed from the state after it. |
| Xoshiro.NeverMerge | src/gameos/random.hh:19-33 | Different states stay different over any number of draws. |
| Xoshiro.NeverAllZero | src/gameos/random.hh:19-33 | The all-zero state is reached from no other. |
| Xoshiro.FirstDraws | src/gameos/random.hh:19-33 | The first five numbers from the state 1, 2, 3, 4, worked out by hand. |
| Xoshiro.Generator.Draw | src/gameos/random.hh:19-33 | The updates of the four words in place are that step, and the result is the scrambled sum of the old first and last words. |
| Lexer.OneToken | tools/preprocessor.cc:47-103 | At most one token begins at a place: kind and end are determined. |
| Lexer.OnlyLexing | tools/preprocessor.cc:47-103 | A text has only one sequence of tokens. |
| Lexer.Advances | tools/preprocessor.cc:47-103 | Every token has at least one character. |
| Lexer.RawTest | tools/preprocessor.cc:70-70 | The look two characters back from a quote decides nothing: what is found there is part of the prefix or is not an `R`. |
| Lexer.CharactersAre | tools/preprocessor.cc:47-89 | The six white characters, and how the characters of names and numbers differ. |
| Lexer.PrefixesAre | tools/preprocessor.cc:115-123 | The prefixes of literals are an encoding, an `R`, or both. |
| Lexer.OperatorsAre | tools/preprocessor.cc:90-98 | The operators of two and three characters that are one token. |
| Lexer.LongestMatch | tools/preprocessor.cc:90-98 | The first operator of the list that is there is the longest. |
| Lexer.Scanner.NextToken | tools/preprocessor.cc:47-103 | Skips white space only and returns the token that begins there, in order of comments, literals, names, numbers and punctuation, or the end of the text. |
| Lexer.Scanner.FindQuote | tools/preprocessor.cc:115-123 | Finds the quote of a literal with or without prefix if and only if one begins here. |
| Lexer.Scanner.ScanQuoted | tools/preprocessor.cc:125-135 | Stops behind the first quote that an even number of backslashes precedes, or at the end of the text. |
| Lexer.Scanner.ScanRaw | tools/preprocessor.cc:137-152 | Stops behind the first closing parenthesis that the delimiter and a quote follow. |
| Unroller.Lossless | tools/preprocessor.cc:505-522 | White space and tokens make up the whole text: where the variable does not occur, every byte is copied. |
| Unroller.ReplaceForVariable | tools/preprocessor.cc:505-522 | Rewrites exactly the identifier tokens equal to the variable and copies every other byte, comments, strings and raw literals included. |
| Unroller.ScanBalanced | tools/preprocessor.cc:159-171 | Stops at the token that closes what was opened before the start, found if and only if some token does; brackets in comments and literals do not count. |
| Unroller.ValuesAre | tools/preprocessor.cc:586-596 | The loop values are exactly the numbers between start and limit, the limit included or not as the comparator says, in steps of one. |
| Unroller.DigitsDenote | tools/preprocessor.cc:599-599 | A value is written in decimal, without leading zeros. |
| Unroller.LoopEndsIff | tools/preprocessor.cc:596-596 | The 64-bit loop variable stays in range if and only if the limit is not the greatest number under `<=` nor the least under `>=`. |
| Unroller.Unroll | tools/preprocessor.cc:596-604 | One copy of the body for each loop value, in order, each with its line directive and braces; then the line directive for what follows. Terminates. |

## Left out

- Lock internals, interrupt masking and weak memory order: a lock region is one step and memory is sequentially consistent.
- `yield` and `finish_current` release the lock before the context is saved. Publishing the thread and switching to the idle context are one step here, so a CPU that picks the thread up in between is not modelled.
- `Threads.Kernel.YieldThread`: the window between publishing the thread and the switch, as said above.
- `Threads.Kernel.FinishCurrent`: the same window.
- `Threads.Kernel.JoinThread`: the lock region that reclaims a finished thread; waiting for it and handing over a typed result are left out.
- Context switches, stacks, floating-point state, thread-local storage and typed threads: procedures run between two steps and change nothing else.
- `Scheduler.DispatchedWithin`: counts polls; that a CPU keeps polling is not claimed.
- Progress of a shootdown, and changes of the online set while one runs: only safety is proved, for a fixed set. The paths for a single CPU flush locally and are not steps here.
- Addresses near 2^64: physical memory ends at 2^52 in the model, so that address sums do not wrap.
- `BuddyAllocator.Allocator.AddRegion`: asks for a region above address 0 and beside what the heap already has, as `initialize` provides; a block at address 0 would look like the end of a list.
- `BuddyAllocator.Allocator.Free`: a pointer that was not handed out, or is no longer, must have a header that does not say LIVE; the source trusts one that does.
- `BuddyAllocator.Allocator.Resize`: asks for a pointer that was handed out, as the source trusts the header in front of it.
- `BuddyClients.Clients.Make`: clients give back and change only what they hold, and write only to their own payloads.
- INFO and FEATURES modes of both allocators, and the exact byte count handed back to the backing allocator of the temporary one. The backing allocator is a parameter that returns fresh memory or none.
- `TemporaryAllocator.State.Allocate`: a request that needs a new page has a size and alignment whose sum is an ssize; the source adds them as such.
- `TemporaryAllocator.State.Resize`: the same; and an old size that would be grown from is one that the allocation has had.
- `Boot.AddUsableRegions`: the boot information is a list of tags, and texts are addresses with lengths; the layout of tags and entries in memory is not modelled. Usable regions end below 2^52.
- `Boot.ReserveAll`: the same; and ranges end at least a page below 2^64.
- `Boot.BuildHeap`: the usable entries of the firmware's maps do not overlap.
- `Boot.Initialize`: the same; the context that it returns is left out.
- zlib header, stored blocks and the fixed code tables of inflate; `InflateBlock` works for any two tables, the fixed ones included.
- Samples below 8 bits, alpha expansion, interlacing and palettes of PNG: the loop over rows is proved for 8 and 16 bits with as many channels out as in, on a little-endian machine.
- `BitStream.BitReader.Decode`: symbols are below 512 as 9 bits of an entry hold them; the tables are always built for at most 288 lengths.
- The header of a line-number unit, its entry formats and file names; 64-bit DWARF; more than one operation to an instruction. The discriminator register, which only an extended opcode sets and no row shows.
- `LineProgram.ParseRows`: well-formed programs only. A length too short for its extended opcode makes the source skip backwards, which is not modelled. The line register stays within 32 bits and rows name files of the header.
- `LineProgram.ReadExtended`: instructions of a well-formed program only, as for `ParseRows`.
- `RawLine.DrawLine`: coordinates and differences are unbounded integers and every pixel is drawn; clipping, and the endless loop of a line that ends at column 2^32 - 1, are not modelled.
- `Sampling.Generate`: the draws are a sequence in which an accepted one is known to come; the generator itself is `Xoshiro`. Seeding is not modelled.
- `Unroller.Unroll`: takes the parsed directive; splitting the header, named constants and `std::stoll` are not modelled. The nesting depth is unbounded.
- `Unroller.ReplaceForVariable`: a number put next to an operator may read as another token, as in `-i` with a negative value; nothing is claimed about the tokens of the result.
- The other directives of the preprocessor, enum scanning and resource embedding; the other image formats of `stb_image.h`; drivers, floating-point graphics, fonts and the terminal; growth of arrays and hash tables.
