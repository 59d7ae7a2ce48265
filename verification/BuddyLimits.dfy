/** Inputs on which the heap loses memory, a payload byte, or a pointer. The exact conditions are the if-and-only-if
    lemmas of the other modules; these are instances. */
module BuddyLimits {
  import opened Bits
  import opened BuddyBlocks
  import opened BuddyLists
  import opened BuddySeed
  import opened BuddyRuns
  import opened Memory
  import opened BuddyState
  import opened BuddyAllocator

  /** `order_for_block_size` files a 4 GiB block as one of 2 GiB. */
  lemma FourGiBMisfiled()
    ensures OrderForBlockSize(FOUR_GIB) == 31 && Pow2(31) < FOUR_GIB
  {
    Pow2Bounds(32);
    Pow2Bounds(31);
    OrderForBlockSizeIs(32);
  }

  /** Adding the region from 4 GiB to 8 GiB loses part of it. */
  lemma RegionLost()
    ensures !CoversAll(SeedSet(FOUR_GIB, 2 * FOUR_GIB), FOUR_GIB, 2 * FOUR_GIB)
  {
    SpanLeast(FOUR_GIB, FOUR_GIB);
    SeedCoversIff(FOUR_GIB, 2 * FOUR_GIB);
  }

  lemma {:induction false} GrowBack(b: Block, target: nat)
    requires b.Aligned() && target <= b.order
    ensures Grown(Block(b.base, target), b.order) == b
    decreases b.order - target
  {
    hide Xor;
    if target < b.order {
      var next := Block(b.base, target + 1);
      AlignedDown(b.base, b.order, target + 1);
      HalvesAreBuddies(next, Block(b.base, target), Block(b.base + Pow2(target), target));
      GrowBack(b, target + 1);
    }
  }

  lemma {:induction false} GrowFurther(ls: FreeLists, c: Block, order: nat)
    requires c.order <= order && CanGrow(ls, c, order) && IsFree(ls, Grown(c, order).Buddy())
    ensures CanGrow(ls, c, order + 1)
    decreases order - c.order
  {
    if c.order < order { GrowFurther(ls, c.Parent(), order); }
  }

  /** What ALLOCATE has cut off a block, RESIZE can grow back into the whole block. */
  lemma {:induction false} SplitThenGrow(ls: FreeLists, b: Block, target: nat)
    requires b.order <= MAX_ORDER && b.Aligned() && target <= b.order
    ensures CanGrow(Split(ls, b, target), Block(b.base, target), b.order)
    ensures Grown(Block(b.base, target), b.order) == b
    decreases b.order
  {
    hide Xor;
    GrowBack(b, target);
    if target < b.order {
      var half := b.order - 1;
      var lower, upper := Block(b.base, half), Block(b.base + Pow2(half), half);
      HalvesAreBuddies(b, lower, upper);
      SplitThenGrow(Push(ls, upper), lower, target);
      SplitKeepsFree(Push(ls, upper), lower, target, upper);
      GrowFurther(Split(ls, b, target), Block(b.base, target), half);
    }
  }

  lemma OneBlock(base: nat, k: nat)
    requires MIN_ORDER <= k && base % Pow2(k) == 0
    ensures base % PAGE == 0 && (base + Pow2(k)) % PAGE == 0
  {
    hide Pow2;
    Pow2Bounds(12);
    AlignedDown(base, k, 12);
    PageMultiple(k);
    ModAdd(base, Pow2(k), PAGE);
  }

  lemma OneChunk(base: nat, k: nat)
    requires MIN_ORDER <= k <= 31 && base % Pow2(k) == 0 && base + Pow2(k) <= MEMORY_LIMIT
    ensures ChunkSize(base, base + Pow2(k)) == Pow2(k)
  {
    hide Pow2;
    hide ChunkSize;
    OneBlock(base, k);
    var c := ChunkIs(base, base + Pow2(k));
    ChunkOrder(base, c, k);
  }

  /** The only order that is aligned, fits, and is the largest that does. */
  lemma ChunkOrder(base: nat, c: nat, k: nat)
    requires base % Pow2(k) == 0 && Pow2(c) <= Pow2(k)
    requires base % Pow2(c + 1) != 0 || Pow2(k) < Pow2(c + 1)
    ensures c == k
  {
    hide Pow2;
    if c > k {
      Pow2Mono(k, c);
      Pow2Injective(k, c);
    } else if c < k {
      AlignedDown(base, k, c + 1);
      Pow2Mono(c + 1, k);
    }
  }

  /** A region that is one block is pushed as that block. */
  lemma SeedOne(ls: FreeLists, base: nat, k: nat)
    requires MIN_ORDER <= k <= 31 && base % Pow2(k) == 0 && base + Pow2(k) <= MEMORY_LIMIT
    ensures base % PAGE == 0 && (base + Pow2(k)) % PAGE == 0
    ensures Seed(ls, base, base + Pow2(k)) == Push(ls, Block(base, k))
  {
    hide Pow2;
    hide ChunkSize;
    hide OrderForBlockSize;
    OneBlock(base, k);
    OneChunk(base, k);
    OrderForBlockSizeIs(k);
    Pow2Bounds(k);
  }

  /** The heap of the region from 2 to 4 GiB, whose first page has been handed out. */
  function OnePageTaken(): Heap {
    Heap(Split(NoLists(), Block(TWO_GIB, 31), 12), {Block(TWO_GIB, 12)})
  }

  const TWO_TO_FOUR := Range(TWO_GIB, FOUR_GIB)

  /** The region is pushed as one block. */
  lemma TwoToFour(ls: FreeLists)
    ensures TWO_TO_FOUR.Pages() && Block(TWO_GIB, 31).Aligned() && Block(TWO_GIB, 31).Limit() == FOUR_GIB
    ensures Seed(ls, TWO_GIB, FOUR_GIB) == Push(ls, Block(TWO_GIB, 31))
  {
    Pow2Bounds(31);
    ModUnique(TWO_GIB, TWO_GIB, 1, 0);
    SeedOne(ls, TWO_GIB, 31);
  }

  lemma SeedAllOne(ls: FreeLists, r: Range)
    requires r.Pages()
    ensures SeedAll(ls, [r]) == Seed(ls, r.start, r.end)
  {
    hide Seed;
    assert [r][1..] == [];
  }

  /** ALLOCATE of 16 bytes leads to it. */
  lemma OnePageTakenReached()
    ensures TWO_TO_FOUR.Pages()
    ensures Run(Heap(SeedAll(NoLists(), [TWO_TO_FOUR]), {}), [Allocate(16, 16)]) == OnePageTaken()
  {
    hide Split;
    hide Seed;
    hide SeedAll;
    hide FirstFit;
    hide FitsIn;
    var b, c := Block(TWO_GIB, 31), Block(TWO_GIB, 12);
    var ls := Push(NoLists(), b);
    TwoToFour(NoLists());
    SeedAllOne(NoLists(), TWO_TO_FOUR);
    RunOne(Heap(ls, {}), Allocate(16, 16));
    SixteenIsPower();
    Pow2Bounds(12);
    TargetOrderIs(64);
    FirstAt(ls, 12, 31);
    assert Pop(ls, 31) == NoLists();
    RequiredFits(c, 16, 16);
  }

  lemma {:induction false} FirstAt(ls: FreeLists, order: nat, o: nat)
    requires order <= o <= MAX_ORDER && ls[o] != [] && forall k :: order <= k < o ==> ls[k] == []
    ensures FirstFit(ls, order) == o
    decreases o - order
  {
    if order < o { FirstAt(ls, order + 1, o); }
  }

  lemma OnePageTakenInv()
    ensures HeapInv(OnePageTaken())
    ensures CanGrow(OnePageTaken().free, Block(TWO_GIB, 12), 31)
  {
    hide Split;
    hide CanGrow;
    hide Grown;
    var b := Block(TWO_GIB, 31);
    Pow2Bounds(31);
    ModUnique(TWO_GIB, TWO_GIB, 1, 0);
    SplitSound(NoLists(), b, 12);
    SplitThenGrow(NoLists(), b, 12);
  }

  /** From the region from 2 to 4 GiB and an allocation of 16 bytes: growing that to 2 GiB less 16 bytes fails, and
      takes the rest of the memory away for good. */
  lemma GrowLosesMemory()
    ensures TWO_TO_FOUR.Pages()
    ensures var h := Run(Heap(SeedAll(NoLists(), [TWO_TO_FOUR]), {}), [Allocate(16, 16)]);
      && HeapInv(h) && Block(TWO_GIB, 12) in h.owned && ValidRequest(TWO_GIB - 16, 16)
      && !SameCover(Managed(h), Managed(GrowStep(h, Block(TWO_GIB, 12), TWO_GIB - 16, 16)))
  {
    hide Run;
    hide SeedAll;
    hide GrowStep;
    OnePageTakenReached();
    OnePageTakenInv();
    SixteenIsPower();
    TargetOrderIs(RequiredSize(TWO_GIB - 16, 16));
    GrowLosesMemoryIff(OnePageTaken(), Block(TWO_GIB, 12), TWO_GIB - 16, 16);
  }

  /** The heap of one free 4 GiB block at 4 GiB. */
  function FourGiBFree(): Heap { Heap(Push(NoLists(), Block(FOUR_GIB, 32)), {}) }

  lemma FourGiBFreeInv()
    ensures HeapInv(FourGiBFree()) && NoBuddies(FreeBlocks(FourGiBFree().free))
    ensures FirstFit(FourGiBFree().free, 31) == 32
  {
    hide FirstFit;
    hide Xor;
    var h, b := FourGiBFree(), Block(FOUR_GIB, 32);
    Pow2Bounds(32);
    ModUnique(FOUR_GIB, FOUR_GIB, 1, 0);
    PushBlocks(NoLists(), b);
    assert FreeBlocks(h.free) == {b};
    BuddyIs(b);
    assert h.free[31] == [] && h.free[32] == [FOUR_GIB];
  }

  const LOWER := Range(FOUR_GIB, FOUR_GIB + TWO_GIB)
  const UPPER := Range(FOUR_GIB + TWO_GIB, 2 * FOUR_GIB)

  /** The two regions, each pushed as one block: buddies, since the regions touch. */
  lemma TouchingRegions()
    ensures LOWER.Pages() && UPPER.Pages()
    ensures SeedAll(NoLists(), [LOWER, UPPER]) == NoLists()[31 := [UPPER.start, LOWER.start]]
  {
    hide Seed;
    Pow2Bounds(31);
    ModUnique(LOWER.start, TWO_GIB, 2, 0);
    ModUnique(UPPER.start, TWO_GIB, 3, 0);
    var ls := NoLists();
    SeedOne(ls, LOWER.start, 31);
    SeedOne(Push(ls, Block(LOWER.start, 31)), UPPER.start, 31);
    SeedAllOne(Push(ls, Block(LOWER.start, 31)), UPPER);
    assert [LOWER, UPPER][1..] == [UPPER];
    assert [UPPER.start] + ([LOWER.start] + []) == [UPPER.start, LOWER.start];
    assert Push(Push(ls, Block(LOWER.start, 31)), Block(UPPER.start, 31)) == ls[31 := [UPPER.start, LOWER.start]];
  }

  /** An allocation of almost 2 GiB takes the upper block, and freeing it merges the two. */
  lemma FourGiBReached()
    ensures LOWER.Pages() && UPPER.Pages()
    ensures var ops := [Allocate(TWO_GIB - 64, 16), Free(Block(UPPER.start, 31))];
      Run(Heap(SeedAll(NoLists(), [LOWER, UPPER]), {}), ops) == FourGiBFree()
  {
    hide Seed;
    hide SeedAll;
    hide FirstFit;
    hide FitsIn;
    hide Coalesce;
    TouchingRegions();
    var ls, b := SeedAll(NoLists(), [LOWER, UPPER]), Block(UPPER.start, 31);
    var ops := [Allocate(TWO_GIB - 64, 16), Free(b)];
    SixteenIsPower();
    Pow2Bounds(31);
    TargetOrderIs(RequiredSize(TWO_GIB - 64, 16));
    Pow2Bounds(30);
    TargetIs31(TWO_GIB - 16);
    FirstAt(ls, 31, 31);
    RequiredFits(b, TWO_GIB - 64, 16);
    var h1 := Heap(NoLists()[31 := [LOWER.start]], {b});
    assert Pop(ls, 31) == h1.free;
    assert Step(Heap(ls, {}), ops[0]) == h1;
    MergesToFour();
    assert Step(h1, ops[1]) == FourGiBFree();
    assert ops[1..] == [ops[1]];
    RunOne(h1, ops[1]);
  }

  lemma TargetIs31(required: nat)
    requires 0x4000_0000 < required <= 0x8000_0000
    ensures TargetOrder(required) == 31
  {
    TargetOrderIs(required);
    var t := TargetOrder(required);
    Pow2Bounds(t);
  }

  /** The upper block finds its buddy, and what they make does not. */
  lemma MergesToFour()
    ensures Coalesce(NoLists()[31 := [LOWER.start]], Block(UPPER.start, 31)) == FourGiBFree().free
  {
    hide Xor;
    Pow2Bounds(31);
    Pow2Bounds(32);
    ModUnique(LOWER.start, FOUR_GIB, 1, 0);
    ModUnique(LOWER.start, TWO_GIB, 2, 0);
    var whole, lower, upper := Block(LOWER.start, 32), Block(LOWER.start, 31), Block(UPPER.start, 31);
    HalvesAreBuddies(whole, lower, upper);
    var ls := NoLists()[31 := [LOWER.start]];
    assert Remove(ls, lower) == NoLists();
    assert !IsFree(NoLists(), whole.Buddy());
  }

  /** From two regions that touch, at 4 and at 6 GiB, an allocation and its free lead to a heap on which a request for
      2 GiB fails and leaves a pair of free buddies. */
  lemma FailureSplits()
    ensures LOWER.Pages() && UPPER.Pages()
    ensures var start := Heap(SeedAll(NoLists(), [LOWER, UPPER]), {});
      var h := Run(start, [Allocate(TWO_GIB - 64, 16), Free(Block(UPPER.start, 31))]);
      && HeapInv(h) && h.owned == {} && NoBuddies(FreeBlocks(h.free))
      && AllocateStep(h, TWO_GIB, 16).owned == {} && !NoBuddies(FreeBlocks(AllocateStep(h, TWO_GIB, 16).free))
  {
    hide NoBuddies;
    hide Run;
    hide SeedAll;
    hide AllocateStep;
    FourGiBReached();
    FourGiBFreeInv();
    SixteenIsPower();
    TargetOrderIs(RequiredSize(TWO_GIB, 16));
    AllocateFailure(FourGiBFree(), TWO_GIB, 16, 31);
  }

  // ---------------------------------------------------------------- growing in place

  const EIGHT_KIB := Block(0x10000, 13)

  lemma EightKiB()
    ensures EIGHT_KIB.Aligned() && EIGHT_KIB.Limit() == 0x12000 && Block(0x10000, 12).Aligned()
    ensures Seed(NoLists(), 0x10000, 0x12000) == Push(NoLists(), EIGHT_KIB)
  {
    hide Seed;
    Pow2Bounds(12);
    Pow2Bounds(13);
    ModUnique(0x10000, 0x2000, 8, 0);
    ModUnique(0x10000, 0x1000, 16, 0);
    SeedOne(NoLists(), 0x10000, 13);
  }

  lemma EightKiBPages()
    ensures AlignUp(0x10000, PAGE) == 0x10000 && AlignDown(0x12000, PAGE) == 0x12000
  {
    hide AlignUp;
    hide AlignDown;
    Pow2Bounds(12);
    ModUnique(0x10000, PAGE, 16, 0);
    ModUnique(0x12000, PAGE, 18, 0);
    AlignUpIs(0x10000, 12);
    AlignUpLeast(0x10000, 12, 0x10000);
    AlignDownIs(0x12000, 12);
  }

  /** What ALLOCATE(64, 64) finds on the heap of that block. */
  lemma CutInHalf()
    ensures IsPowerOfTwo(64) && TargetOrder(RequiredSize(64, 64)) == 12
    ensures FirstFit(Push(NoLists(), EIGHT_KIB), 12) == 13 && Pop(Push(NoLists(), EIGHT_KIB), 13) == NoLists()
    ensures FitsIn(Block(0x10000, 12), 64, 64) && UserAddress(0x10000, 64) == 0x10040
  {
    hide FirstFit;
    hide TargetOrder;
    hide UserAddress;
    EightKiB();
    SmallPower(6);
    TargetIs(RequiredSize(64, 64), 12);
    FirstAt(Push(NoLists(), EIGHT_KIB), 12, 13);
    Pow2Bounds(12);
    RequiredFits(Block(0x10000, 12), 64, 64);
    PayloadOffsetIs(Block(0x10000, 12), 64);
  }

  /** What RESIZE(0x10040, 5000, alignment) finds then. */
  lemma WholeAgain(k: nat, alignment: nat)
    requires k <= 6 && alignment == Pow2(k)
    ensures IsPowerOfTwo(alignment) && alignment <= 64 && 0x10040 % alignment == 0
    ensures TargetOrder(RequiredSize(5000, alignment)) == 13
    ensures FitsIn(EIGHT_KIB, 5000, alignment)
    ensures UserAddress(0x10000, alignment) == 0x10000 + PayloadOffset(alignment)
  {
    hide Pow2;
    hide TargetOrder;
    hide UserAddress;
    hide FitsIn;
    hide AlignUp;
    hide IsPowerOfTwo;
    EightKiB();
    SmallPower(k);
    Pow2Mono(k, 6);
    ModUnique(0x10040, 64, 0x401, 0);
    AlignedDown(0x10040, 6, k);
    Pow2Bounds(12);
    Pow2Bounds(13);
    TargetIs(RequiredSize(5000, alignment), 13);
    RequiredFits(EIGHT_KIB, 5000, alignment);
    PayloadOffsetIs(EIGHT_KIB, alignment);
  }

  /** It can grow back into the whole block. */
  lemma HalfGrowsBack()
    ensures CanGrow(Split(NoLists(), EIGHT_KIB, 12), Block(0x10000, 12), 13)
    ensures Grown(Block(0x10000, 12), 13) == EIGHT_KIB
  {
    EightKiB();
    SplitThenGrow(NoLists(), EIGHT_KIB, 12);
  }

  lemma SmallPower(k: nat)
    requires k <= 6
    ensures IsPowerOfTwo(Pow2(k)) && Pow2(6) == 64 && Pow2(4) == 16
  {
    Log2OfPow2(k);
    PowerOfTwoTest(Pow2(k));
  }

  /** A fresh heap of 8 KiB whose lower half has been handed out, for a payload of 64 bytes aligned to 64. */
  method HalfTaken(memory: Mem) returns (heap: Allocator, pointer: nat)
    ensures fresh(heap) && fresh(heap.heads) && heap.Valid() && pointer == 0x10040
    ensures heap.owned == map[0x10040 := Allocation(Block(0x10000, 12), 64, 64, true)]
    ensures heap.lists == Split(NoLists(), EIGHT_KIB, 12)
  {
    hide ListsOk;
    hide HeapInv;
    hide OwnedOk;
    hide FitsIn;
    hide FirstFit;
    hide TargetOrder;
    hide UserAddress;
    EightKiB();
    EightKiBPages();
    CutInHalf();
    heap := new Allocator(memory);
    heap.AddRegion(0x10000, 0x2000);
    var error;
    pointer, error := heap.Allocate(64, 64);
  }

  /** Growing that payload to 5000 bytes succeeds without moving it. */
  method GrownInPlace(memory: Mem) returns (heap: Allocator, pointer: nat, grown: nat, error: Error)
    ensures fresh(heap) && fresh(heap.heads) && heap.Valid() && pointer == grown == 0x10040 && error == None
    ensures heap.owned == map[0x10040 := Allocation(EIGHT_KIB, 5000, 64, false)]
  {
    hide ListsOk;
    hide HeapInv;
    hide OwnedOk;
    hide FitsIn;
    hide TargetOrder;
    hide UserAddress;
    hide CanGrow;
    hide Grown;
    hide Split;
    SmallPower(6);
    WholeAgain(6, 64);
    HalfGrowsBack();
    heap, pointer := HalfTaken(memory);
    grown, error := heap.Resize(pointer, 5000, 64, 64);
    assert heap.owned == map[0x10040 := Allocation(EIGHT_KIB, 5000, 64, false)];
  }

  /** It leaves a header that is marked FREED: the heap no longer knows its own pointer, and FREE of it halts. */
  method GrownInPlaceIsLost(memory: Mem) returns (pointer: nat, grown: nat, error: Error, known: nat, freed: bool)
    ensures pointer == grown == 0x10040 && error == None && known == 0 && !freed
  {
    hide ListsOk;
    hide HeapInv;
    hide OwnedOk;
    var heap;
    heap, pointer, grown, error := GrownInPlace(memory);
    known := heap.IsThisYours(grown);
    freed := heap.Free(grown);
  }

  /** Growing it with alignment 16 moves it down by 32 bytes, and its tenth byte, whatever its client wrote there, is
      lost. */
  method PayloadByteLost(memory: Mem, written: Byte) returns (pointer: nat, grown: nat, error: Error, kept: Byte)
    ensures pointer == 0x10040 && grown == 0x10020 && error == None && kept == FREED
  {
    hide ListsOk;
    hide HeapInv;
    hide OwnedOk;
    hide FitsIn;
    hide TargetOrder;
    hide UserAddress;
    hide CanGrow;
    hide Grown;
    hide Split;
    SmallPower(4);
    WholeAgain(4, 16);
    HalfGrowsBack();
    var heap;
    heap, pointer := HalfTaken(memory);
    PayloadIsTheClients(heap.memory, heap.heads[..], heap.lists, heap.owned, pointer, pointer + 9, [written]);
    heap.memory := Store(heap.memory, pointer + 9, [written]);
    grown, error := heap.Resize(pointer, 5000, 16, 64);
    kept := heap.memory(grown + 9);
  }
}
