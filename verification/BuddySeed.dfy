/** How `add_region` cuts a region into blocks, and the order that `order_for_block_size` assigns to each. */
module BuddySeed {
  import opened Bits
  import opened BuddyBlocks
  import opened BuddyLists

  const PAGE: nat := 4096

  // ---------------------------------------------------------------- order_for_block_size

  /** The value of a 32-bit `int` after it wraps. */
  function Int32(x: int): int {
    (x + 0x8000_0000) % 0x1_0000_0000 - 0x8000_0000
  }

  lemma Int32Small(x: int)
    requires -0x8000_0000 <= x < 0x8000_0000
    ensures Int32(x) == x
  {}

  /** The implicit conversion of an `int` to u64 in a comparison with a u64. */
  function IntToU64(x: int): int
    requires -0x8000_0000 <= x < 0x8000_0000
  {
    if x < 0 then x + U64_LIMIT else x
  }

  /** The loop of `order_for_block_size`, whose running size is a 32-bit `int`. */
  function OrderLoop(order: nat, current: int, blockSize: nat): nat
    requires -0x8000_0000 <= current < 0x8000_0000
    decreases MAX_ORDER - order, blockSize
  {
    if IntToU64(current) < blockSize && order < MAX_ORDER
    then OrderLoop(order + 1, Int32(2 * current), blockSize)
    else order
  }

  function OrderForBlockSize(blockSize: nat): nat { OrderLoop(MIN_ORDER, PAGE, blockSize) }

  lemma {:induction false} OrderLoopIs(order: nat, current: int, k: nat, blockSize: nat)
    requires order <= 30 && order <= k <= MAX_ORDER
    requires current == Pow2(order) <= 0x4000_0000 && blockSize == Pow2(k)
    ensures OrderLoop(order, current, blockSize) == if k <= 31 then k else 31
    decreases 31 - order
  {
    if order < k {
      Pow2Mono(order, k);
      Pow2Bounds(order);
      if order < 30 {
        Pow2Bounds(order + 1);
        Int32Small(2 * current);
        OrderLoopIs(order + 1, 2 * current, k, blockSize);
      } else {
        OrderLoopWraps(current, k, blockSize);
      }
    }
  }

  /** Doubling 2^30 makes the running `int` negative, which compares as a u64 above every block size. */
  lemma OrderLoopWraps(current: int, k: nat, blockSize: nat)
    requires 30 < k <= MAX_ORDER && current == 0x4000_0000 && blockSize == Pow2(k)
    ensures OrderLoop(30, current, blockSize) == 31
  {
    Pow2Bounds(k);
    assert Int32(2 * current) == -0x8000_0000;
    assert OrderLoop(31, -0x8000_0000, blockSize) == 31;
  }

  /** The wrap-around of the running `int` makes every block above 2 GiB be filed under order 31. */
  lemma OrderForBlockSizeIs(k: nat)
    requires MIN_ORDER <= k <= MAX_ORDER
    ensures OrderForBlockSize(Pow2(k)) == if k <= 31 then k else 31
  {
    Pow2Bounds(MIN_ORDER);
    OrderLoopIs(MIN_ORDER, PAGE, k, Pow2(k));
  }

  /** The order assigned to a power of two is its logarithm exactly up to 2 GiB. */
  lemma OrderCorrectIff(k: nat)
    requires MIN_ORDER <= k <= MAX_ORDER
    ensures Pow2(OrderForBlockSize(Pow2(k))) == Pow2(k) <==> Pow2(k) <= 0x8000_0000
  {
    OrderForBlockSizeIs(k);
    Pow2Bounds(k);
    Pow2Bounds(OrderForBlockSize(Pow2(k)));
  }

  // ---------------------------------------------------------------- next_block_size

  /** The loop of `next_block_size`. */
  function GrowSize(size: nat, required: nat): nat
    requires size > 0
    decreases U64_LIMIT - size, required
  {
    if size < required && size < 0x8000_0000_0000_0000 then GrowSize(2 * size, required) else size
  }

  function NextBlockSize(required: nat): nat { GrowSize(PAGE, required) }

  lemma {:induction false} GrowSizeIs(k: nat, required: nat) returns (j: nat)
    requires k <= 63
    ensures k <= j <= 63 && GrowSize(Pow2(k), required) == Pow2(j)
    ensures required <= Pow2(j) || j == 63
    ensures j == k || Pow2(j - 1) < required
    decreases 63 - k
  {
    Pow2Bounds(k);
    if Pow2(k) < required && Pow2(k) < 0x8000_0000_0000_0000 {
      j := GrowSizeIs(k + 1, required);
    } else {
      j := k;
    }
  }

  /** The order that ALLOCATE and RESIZE aim at for a request of `required` bytes in all. */
  function TargetOrder(required: nat): nat { OrderForBlockSize(NextBlockSize(required)) }

  /** The target order is the least one whose blocks hold the request, for requests up to 2 GiB; above, it is 31. */
  lemma TargetOrderIs(required: nat)
    ensures MIN_ORDER <= TargetOrder(required) <= 31
    ensures required <= 0x8000_0000 ==> required <= Pow2(TargetOrder(required))
    ensures required <= 0x8000_0000 && TargetOrder(required) > MIN_ORDER ==>
      Pow2(TargetOrder(required) - 1) < required
    ensures required > 0x8000_0000 ==> TargetOrder(required) == 31
  {
    Pow2Bounds(MIN_ORDER);
    var j := GrowSizeIs(MIN_ORDER, required);
    OrderForBlockSizeIs(j);
    Pow2Bounds(j);
    if j > MIN_ORDER { Pow2Bounds(j - 1); }
    if j >= 31 { Pow2Bounds(31); }
  }

  lemma TargetIs(required: nat, k: nat)
    requires MIN_ORDER <= k <= 31 && (k == MIN_ORDER || Pow2(k - 1) < required) && required <= Pow2(k)
    ensures TargetOrder(required) == k
  {
    hide Pow2;
    hide TargetOrder;
    TargetOrderIs(required);
    var t := TargetOrder(required);
    Pow2Mono(k, 31);
    Pow2Bounds(31);
    if t < k { Pow2Mono(t, k - 1); }
    if k < t { Pow2Mono(k, t - 1); }
  }

  lemma SixteenIsPower()
    ensures IsPowerOfTwo(16)
  {
    assert Pow2(4) == 16;
    Log2OfPow2(4);
    PowerOfTwoTest(16);
  }

  // ---------------------------------------------------------------- add_region

  /** The inner loop of `add_region`: halve the size until the address is a multiple of it. */
  function Shrink(current: nat, size: nat): nat
    requires size > 0
  {
    if size > PAGE && And(current, size - 1) != 0 then Shrink(current, size / 2) else size
  }

  /** The size of the next block of a region. */
  function ChunkSize(current: nat, end: nat): (r: nat)
    requires current < end < U64_LIMIT
  {
    FloorPow2Is(end - current);
    var size := Shrink(current, FloorPow2(end - current));
    if size < PAGE then PAGE else size
  }

  lemma {:induction false} ShrinkIs(current: nat, t: nat) returns (k: nat)
    requires current % PAGE == 0 && t >= MIN_ORDER
    ensures MIN_ORDER <= k <= t && Shrink(current, Pow2(t)) == Pow2(k)
    ensures current % Pow2(k) == 0
    ensures k == t || current % Pow2(k + 1) != 0
  {
    Pow2Bounds(t);
    AndMask(current, t);
    if t == MIN_ORDER {
      k := t;
    } else if current % Pow2(t) != 0 {
      k := ShrinkIs(current, t - 1);
    } else {
      k := t;
    }
  }

  lemma PageGap(current: nat, end: nat)
    requires current % PAGE == 0 && end % PAGE == 0 && current < end
    ensures end - current >= PAGE
  {}

  lemma FloorOrder(n: nat) returns (t: nat)
    requires PAGE <= n < U64_LIMIT
    ensures MIN_ORDER <= t < 64 && FloorPow2(n) == Pow2(t) <= n < Pow2(t + 1)
  {
    FloorPow2Is(n);
    t := Log2(n);
    Pow2Bounds(t + 1);
  }

  lemma ShrunkChunk(current: nat, end: nat, t: nat) returns (k: nat)
    requires current % PAGE == 0 && current < end < U64_LIMIT
    requires MIN_ORDER <= t < 64 && FloorPow2(end - current) == Pow2(t) <= end - current < Pow2(t + 1)
    ensures MIN_ORDER <= k < 64 && ChunkSize(current, end) == Pow2(k)
    ensures current % Pow2(k) == 0 && current + Pow2(k) <= end
    ensures current % Pow2(k + 1) != 0 || end - current < Pow2(k + 1)
  {
    k := ShrinkIs(current, t);
    Pow2Mono(k, t);
    assert Pow2(k) >= PAGE by { Pow2Bounds(k); }
  }

  /** Each chunk is the largest aligned power of two that fits at its address. */
  lemma ChunkIs(current: nat, end: nat) returns (k: nat)
    requires current % PAGE == 0 && end % PAGE == 0 && current < end < U64_LIMIT
    ensures MIN_ORDER <= k < 64 && ChunkSize(current, end) == Pow2(k)
    ensures current % Pow2(k) == 0 && current + Pow2(k) <= end
    ensures current % Pow2(k + 1) != 0 || end - current < Pow2(k + 1)
  {
    PageGap(current, end);
    var t := FloorOrder(end - current);
    k := ShrunkChunk(current, end, t);
  }

  lemma PageMultiple(k: nat)
    requires k >= MIN_ORDER
    ensures Pow2(k) % PAGE == 0
  {
    Pow2Bounds(MIN_ORDER);
    ModUnique(Pow2(k), Pow2(k), 1, 0);
    AlignedDown(Pow2(k), k, MIN_ORDER);
  }

  lemma ChunkFits(current: nat, end: nat)
    requires current % PAGE == 0 && end % PAGE == 0 && current < end < U64_LIMIT
    ensures current + ChunkSize(current, end) <= end
    ensures (current + ChunkSize(current, end)) % PAGE == 0
    ensures MIN_ORDER <= OrderForBlockSize(ChunkSize(current, end)) <= 31
  {
    var k := ChunkIs(current, end);
    OrderForBlockSizeIs(k);
    PageMultiple(k);
    ModAdd(current, Pow2(k), PAGE);
  }

  /** The lists after `add_region` has pushed the blocks of `[current, end)`. */
  function Seed(ls: FreeLists, current: nat, end: nat): FreeLists
    requires current % PAGE == 0 && end % PAGE == 0 && current <= end < U64_LIMIT
    decreases end - current
  {
    if current >= end then ls
    else
      ChunkFits(current, end);
      var size := ChunkSize(current, end);
      Seed(Push(ls, Block(current, OrderForBlockSize(size))), current + size, end)
  }

  /** The blocks that `add_region` cuts out of `[current, end)`. */
  ghost function SeedSet(current: nat, end: nat): set<Block>
    requires current % PAGE == 0 && end % PAGE == 0 && current <= end < U64_LIMIT
    decreases end - current
  {
    if current >= end then {}
    else
      ChunkFits(current, end);
      var size := ChunkSize(current, end);
      {Block(current, OrderForBlockSize(size))} + SeedSet(current + size, end)
  }

  /** The first block of a region: aligned, inside its chunk, and without its buddy in the rest of the region. */
  lemma FirstBlock(current: nat, end: nat) returns (k: nat, b: Block)
    requires current % PAGE == 0 && end % PAGE == 0 && 0 < current < end < U64_LIMIT && end <= MEMORY_LIMIT
    ensures MIN_ORDER <= k < 64 && ChunkSize(current, end) == Pow2(k)
    ensures b == Block(current, OrderForBlockSize(Pow2(k))) && b.order == if k <= 31 then k else 31
    ensures current % Pow2(k) == 0 && current + Pow2(k) <= end
    ensures current % Pow2(k + 1) != 0 || end - current < Pow2(k + 1)
    ensures b.Aligned() && b.Limit() <= current + Pow2(k) && InMemory(b)
    ensures forall c: Block :: current + Pow2(k) <= c.base && c.Limit() <= end && c.Aligned() ==> c.Buddy() != b
  {
    k := ChunkIs(current, end);
    OrderForBlockSizeIs(k);
    b := Block(current, OrderForBlockSize(Pow2(k)));
    AlignedDown(current, k, b.order);
    Pow2Mono(b.order, k);
    if b.order < k {
      Pow2Mono(b.order + 1, k);
      AlignedDown(current, k, b.order + 1);
    }
    forall c: Block | current + Pow2(k) <= c.base && c.Limit() <= end && c.Aligned() ensures c.Buddy() != b {
      BuddyIs(c);
      BuddyIs(b);
    }
  }

  lemma SeedSetStep(current: nat, end: nat) returns (k: nat, b: Block, next: nat)
    requires current % PAGE == 0 && end % PAGE == 0 && 0 < current < end < U64_LIMIT && end <= MEMORY_LIMIT
    ensures MIN_ORDER <= k < 64 && current % Pow2(k) == 0
    ensures current % Pow2(k + 1) != 0 || end - current < Pow2(k + 1)
    ensures next == current + Pow2(k) <= end && next % PAGE == 0
    ensures ChunkSize(current, end) == Pow2(k) && b == Block(current, OrderForBlockSize(Pow2(k)))
    ensures b.base == current && b.order == (if k <= 31 then k else 31)
    ensures b.Aligned() && b.Limit() <= next && InMemory(b)
    ensures forall c: Block :: next <= c.base && c.Limit() <= end && c.Aligned() ==> c.Buddy() != b
    ensures SeedSet(current, end) == {b} + SeedSet(next, end)
    ensures forall ls :: Seed(ls, current, end) == Seed(Push(ls, b), next, end)
  {
    ChunkFits(current, end);
    k, b := FirstBlock(current, end);
    next := current + Pow2(k);
  }

  lemma ConsTiling(b: Block, rest: set<Block>, next: nat)
    requires b.Aligned() && b.Limit() <= next
    requires forall c <- rest :: next <= c.base && c.Buddy() != b
    requires Tiling(rest) && NoBuddies(rest)
    ensures Tiling({b} + rest) && NoBuddies({b} + rest)
  {
    BuddyIs(b);
    forall c | c in rest ensures b.Buddy() != c { BuddyIs(c); }
  }

  /** What `add_region` pushes is a tiling of part of the region in which no two blocks are buddies. */
  lemma {:induction false} SeedSetSound(current: nat, end: nat)
    requires current % PAGE == 0 && end % PAGE == 0 && 0 < current <= end < U64_LIMIT && end <= MEMORY_LIMIT
    ensures Tiling(SeedSet(current, end)) && NoBuddies(SeedSet(current, end)) && AllInMemory(SeedSet(current, end))
    ensures forall b <- SeedSet(current, end) :: current <= b.base && b.Limit() <= end && b.order <= 31
    decreases end - current
  {
    if current < end {
      var k, b, next := SeedSetStep(current, end);
      SeedSetSound(next, end);
      ConsTiling(b, SeedSet(next, end), next);
    }
  }

  /** The lists `add_region` leaves behind: everything that was there, and the blocks of the region. */
  lemma {:induction false} SeedAdds(ls: FreeLists, current: nat, end: nat)
    requires current % PAGE == 0 && end % PAGE == 0 && 0 < current <= end < U64_LIMIT && end <= MEMORY_LIMIT
    requires NoRepeats(ls)
    requires forall b <- FreeBlocks(ls) :: b.Limit() <= current || end <= b.base
    ensures FreeBlocks(Seed(ls, current, end)) == FreeBlocks(ls) + SeedSet(current, end)
    ensures NoRepeats(Seed(ls, current, end))
    decreases end - current
  {
    if current < end {
      var k, b, next := SeedSetStep(current, end);
      PushBlocks(ls, b);
      SeedAdds(Push(ls, b), next, end);
    }
  }

  // ---------------------------------------------------------------- what add_region covers

  /** The region contains an aligned 4 GiB block. */
  predicate SpansAlignedFourGiB(start: nat, end: nat)
    requires start + FOUR_GIB <= U64_LIMIT
  {
    AlignUp(start, FOUR_GIB) + FOUR_GIB <= end
  }

  lemma SpanStart(start: nat)
    requires start + FOUR_GIB <= U64_LIMIT
    ensures AlignUp(start, FOUR_GIB) % FOUR_GIB == 0
    ensures start <= AlignUp(start, FOUR_GIB) < start + FOUR_GIB
  {
    Pow2Bounds(32);
    AlignUpIs(start, 32);
  }

  /** Cutting off a first chunk of at most 2 GiB does not change whether an aligned 4 GiB block is left. */
  lemma SpanStep(current: nat, end: nat, k: nat)
    requires end <= MEMORY_LIMIT && k <= 31 && current % Pow2(k) == 0 && current + Pow2(k) <= end
    requires current % Pow2(k + 1) != 0 || end - current < Pow2(k + 1)
    ensures SpansAlignedFourGiB(current, end) <==> SpansAlignedFourGiB(current + Pow2(k), end)
  {
    var next := current + Pow2(k);
    if current % FOUR_GIB == 0 {
      FourGiBAligned(current, k + 1);
      Pow2Bounds(k + 1);
      SpanTooShort(current, end);
      SpanTooShort(next, end);
    } else {
      SpanMoves(current, next, k);
    }
  }

  lemma SpanTooShort(start: nat, end: nat)
    requires start <= MEMORY_LIMIT && end - start < FOUR_GIB
    ensures !SpansAlignedFourGiB(start, end)
  {
    SpanStart(start);
  }

  lemma FourGiBAligned(x: nat, k: nat)
    requires x % FOUR_GIB == 0 && k <= 32
    ensures x % Pow2(k) == 0
  {
    Pow2Bounds(32);
    AlignedDown(x, 32, k);
  }

  /** The next multiple of 4 GiB is the same from both ends of a chunk that starts off such a multiple. */
  lemma SpanMoves(current: nat, next: nat, k: nat)
    requires k <= 31 && current % Pow2(k) == 0 && current % FOUR_GIB != 0
    requires next == current + Pow2(k) <= MEMORY_LIMIT
    ensures AlignUp(current, FOUR_GIB) == AlignUp(next, FOUR_GIB)
  {
    SpanStart(current);
    SpanStart(next);
    var m := AlignUp(current, FOUR_GIB);
    assert m >= next by {
      FourGiBAligned(m, k);
      if m < next { MultipleGap(current, m, Pow2(k)); }
    }
    SpanLeast(current, AlignUp(next, FOUR_GIB));
    SpanLeast(next, m);
  }

  lemma SpanLeast(value: nat, bound: nat)
    requires value <= bound && value + FOUR_GIB <= U64_LIMIT && bound % FOUR_GIB == 0
    ensures AlignUp(value, FOUR_GIB) <= bound
  {
    Pow2Bounds(32);
    AlignUpLeast(value, 32, bound);
  }

  ghost predicate CoversAll(s: set<Block>, start: nat, end: nat) {
    forall a: nat :: start <= a < end ==> Covers(s, a)
  }

  /** `add_region` hands every page of the region to the heap exactly when the region contains no aligned 4 GiB block:
      of such a block, or a larger one, only the first 2 GiB are ever pushed. */
  lemma {:induction false} SeedCoversIff(current: nat, end: nat)
    requires current % PAGE == 0 && end % PAGE == 0 && 0 < current <= end < U64_LIMIT && end <= MEMORY_LIMIT
    ensures CoversAll(SeedSet(current, end), current, end) <==> !SpansAlignedFourGiB(current, end)
    decreases end - current
  {
    SpanStart(current);
    if current < end {
      var k, b, next := SeedSetStep(current, end);
      SeedSetSound(next, end);
      if k <= 31 {
        SpanStep(current, end, k);
        SeedCoversIff(next, end);
        SeedCoverStep(b, SeedSet(next, end), SeedSet(current, end), current, next, end);
      } else {
        SpanHere(current, end, k);
        Pow2Bounds(k);
        LargeChunk(b, SeedSet(next, end), current, next, end);
      }
    }
  }

  lemma SpanHere(current: nat, end: nat, k: nat)
    requires 32 <= k && current % Pow2(k) == 0 && current + Pow2(k) <= end <= MEMORY_LIMIT
    ensures SpansAlignedFourGiB(current, end)
  {
    Pow2Bounds(k);
    assert current % FOUR_GIB == 0 by {
      Pow2Bounds(32);
      AlignedDown(current, k, 32);
    }
    SpanLeast(current, current);
  }

  lemma LargeChunk(b: Block, rest: set<Block>, current: nat, next: nat, end: nat)
    requires current + FOUR_GIB <= next <= end
    requires b == Block(current, 31)
    requires forall c <- rest :: next <= c.base
    ensures !CoversAll({b} + rest, current, end)
  {
    Pow2Bounds(31);
    var a := current + 0x8000_0000;
    assert !Covers({b} + rest, a) by {
      CoverUnion({b}, rest);
      assert !b.Holds(a);
    }
  }

  lemma SeedCoverStep(b: Block, rest: set<Block>, s: set<Block>, current: nat, next: nat, end: nat)
    requires s == {b} + rest && b.base == current && b.Limit() == next <= end
    requires forall c <- rest :: next <= c.base
    ensures CoversAll(s, current, end) <==> CoversAll(rest, next, end)
  {
    CoverUnion({b}, rest);
    assert b in {b};
    if CoversAll(s, current, end) {
      forall a: nat | next <= a < end ensures Covers(rest, a) { assert Covers(s, a); }
    }
    if CoversAll(rest, next, end) {
      forall a: nat | current <= a < end ensures Covers(s, a) {
        if a < next { assert Covers({b}, a); } else { assert Covers(rest, a); }
      }
    }
  }
}
