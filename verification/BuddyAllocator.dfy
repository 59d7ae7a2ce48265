/** `Buddy_Allocator_State`: the heap's operations as the kernel runs them, on list heads, links and headers in memory,
    each proved to perform the corresponding transformation of the free lists. */
module BuddyAllocator {
  import opened Bits
  import opened BuddyBlocks
  import opened BuddyLists
  import opened BuddySeed
  import opened BuddyRuns
  import opened Memory
  import opened BuddyState
  import opened BuddyMoves

  datatype Error = None | InvalidArgument | OutOfMemory | ModeNotImplemented

  class Allocator {
    /** Physical memory, shared with the clients. */
    var memory: Mem
    /** `free_lists`: the head of each list, 0 for null. */
    const heads: array<nat>

    ghost var lists: FreeLists
    ghost var owned: map<nat, Allocation>

    ghost predicate ListsValid()
      reads this, heads
    {
      heads.Length == MAX_ORDER + 1 && ListsOk(memory, heads[..], lists)
    }

    ghost predicate Valid()
      reads this, heads
    {
      heads.Length == MAX_ORDER + 1 && ValidState(memory, heads[..], lists, owned)
    }

    ghost function Heap(): Heap
      reads this
    {
      BuddyRuns.Heap.Heap(lists, OwnedBlocks(owned))
    }

    /** `clear`. */
    constructor (memory: Mem)
      ensures Valid() && fresh(heads)
      ensures this.memory == memory && lists == NoLists() && owned == map[]
    {
      this.memory := memory;
      heads := new nat[MAX_ORDER + 1](_ => 0);
      lists := NoLists();
      owned := map[];
    }

    method PushFreeBlock(base: nat, order: nat)
      requires ListsValid() && order <= MAX_ORDER && Unlisted(lists, base)
      modifies this`memory, this`lists, heads
      ensures ListsValid() && lists == Push(old(lists), Block(base, order))
      ensures order >= MIN_ORDER ==> SameOutside(old(memory), memory, {Block(base, order)})
      ensures LinksOnly(old(memory), memory)
    {
      LinkStored(memory, base, heads[order]);
      PushLinks(memory, heads[..], lists, Block(base, order));
      ghost var before := heads[..];
      if order >= MIN_ORDER {
        Pow2Bounds(order);
        StoreWordInside(memory, base, heads[order], {Block(base, order)}, Block(base, order));
      }
      memory := Store64(memory, base, heads[order]);
      heads[order] := base;
      lists := Push(lists, Block(base, order));
      assert heads[..] == before[order := base];
    }

    method RemoveFreeBlock(order: nat, base: nat) returns (found: bool)
      requires ListsValid() && order <= MAX_ORDER
      requires AllInMemory(FreeBlocks(lists))
      modifies this`memory, this`lists, heads
      ensures ListsValid()
      ensures found <==> IsFree(old(lists), Block(base, order))
      ensures lists == if found then Remove(old(lists), Block(base, order)) else old(lists)
      ensures SameOutside(old(memory), memory, FreeBlocks(old(lists))) && LinksOnly(old(memory), memory)
    {
      hide ListsOk;
      hide SameOutside;
      hide LinksOnly;
      SameOutsideSelf(memory, FreeBlocks(lists));
      LinksOnlySelf(memory);
      var previous, link;
      ghost var i;
      previous, link, i := FindLink(order, base);
      found := link != 0;
      if found {
        Unlink(order, base, previous, i);
      }
    }

    /** The walk of `remove_free_block` along the links; `previous` is 0 while the link is the head slot itself. */
    method FindLink(order: nat, base: nat) returns (previous: nat, link: nat, ghost i: nat)
      requires ListsValid() && order <= MAX_ORDER
      ensures i <= |lists[order]| && forall k :: 0 <= k < i ==> lists[order][k] != base
      ensures previous == if i == 0 then 0 else lists[order][i - 1]
      ensures if i < |lists[order]| then link == lists[order][i] == base && link != 0 else link == 0
    {
      hide ListsOk;
      previous, link, i := 0, heads[order], 0;
      ghost var s := lists[order];
      AtLink(memory, heads[..], lists, order, 0);
      while link != 0 && link != base
        invariant 0 <= i <= |s| && forall k :: 0 <= k < i ==> s[k] != base
        invariant previous == if i == 0 then 0 else s[i - 1]
        invariant link == if i < |s| then s[i] else 0
        decreases |s| - i
      {
        AtLink(memory, heads[..], lists, order, i + 1);
        previous, link, i := link, Load64(memory, link), i + 1;
      }
    }

    /** `*link = (*link)->next`. */
    method Unlink(order: nat, base: nat, previous: nat, ghost i: nat)
      requires ListsValid() && order <= MAX_ORDER && AllInMemory(FreeBlocks(lists))
      requires i < |lists[order]| && lists[order][i] == base
      requires previous == if i == 0 then 0 else lists[order][i - 1]
      modifies this`memory, this`lists, heads
      ensures ListsValid() && lists == Remove(old(lists), Block(base, order))
      ensures SameOutside(old(memory), memory, FreeBlocks(old(lists))) && LinksOnly(old(memory), memory)
    {
      ghost var before, m := heads[..], memory;
      AtLink(memory, heads[..], lists, order, i);
      if previous == 0 {
        heads[order] := Load64(memory, base);
        assert heads[..] == before[order := Load64(m, base)];
      } else {
        ghost var b := Block(previous, order);
        assert b in FreeBlocks(lists);
        Pow2Bounds(order);
        LinkStored(memory, previous, Load64(memory, base));
        StoreWordInside(memory, previous, Load64(memory, base), FreeBlocks(lists), b);
        memory := Store64(memory, previous, Load64(memory, base));
      }
      UnlinkAt(m, before, lists, order, i, memory, heads[..]);
      lists := Remove(lists, Block(base, order));
    }

    method IsFreeBlock(order: nat, base: nat) returns (free: bool)
      requires ListsValid() && order <= MAX_ORDER
      ensures free <==> IsFree(lists, Block(base, order))
    {
      var block := heads[order];
      ghost var i, s := 0, lists[order];
      AtLink(memory, heads[..], lists, order, 0);
      while block != 0
        invariant 0 <= i <= |s| && forall k :: 0 <= k < i ==> s[k] != base
        invariant block == if i < |s| then s[i] else 0
        decreases |s| - i
      {
        if block == base { return true; }
        AtLink(memory, heads[..], lists, order, i + 1);
        block, i := Load64(memory, block), i + 1;
      }
      free := false;
    }

    /** `order_for_block_size`, with its 32-bit running size. */
    static method OrderFor(blockSize: nat) returns (order: nat)
      ensures order == OrderForBlockSize(blockSize)
    {
      order := OrderFrom(MIN_ORDER, PAGE, blockSize);
    }

    static method OrderFrom(first: nat, size: int, blockSize: nat) returns (order: nat)
      requires -0x8000_0000 <= size < 0x8000_0000
      ensures order == OrderLoop(first, size, blockSize)
    {
      order := first;
      var current := size;
      while IntToU64(current) < blockSize && order < MAX_ORDER
        invariant -0x8000_0000 <= current < 0x8000_0000
        invariant OrderLoop(order, current, blockSize) == OrderLoop(first, size, blockSize)
        decreases MAX_ORDER - order
      {
        current := Int32(2 * current);
        order := order + 1;
      }
    }

    /** `next_block_size`. */
    static method NextSize(required: nat) returns (size: nat)
      ensures size == NextBlockSize(required)
    {
      size := PAGE;
      while size < required && size < 0x8000_0000_0000_0000
        invariant size > 0 && GrowSize(size, required) == NextBlockSize(required)
        decreases 0x8000_0000_0000_0000 - size
      {
        size := 2 * size;
      }
    }

    /** `add_region`, for a region beside everything the heap already has. */
    method AddRegion(base: nat, size: nat)
      requires Valid() && (base > 0 || size == 0) && base + size <= MEMORY_LIMIT
      requires forall b <- Managed(Heap()) :: b.Limit() <= AlignUp(base, PAGE) || AlignDown(base + size, PAGE) <= b.base
      modifies this`memory, this`lists, heads
      ensures Valid()
      ensures owned == old(owned)
      ensures var r := Range(AlignUp(base, PAGE), AlignDown(base + size, PAGE));
        if r.start >= r.end then memory == old(memory) && lists == old(lists)
        else r.Pages() && lists == Seed(old(lists), r.start, r.end)
             && SameOutside(old(memory), memory, SeedSet(r.start, r.end))
    {
      hide ListsOk;
      hide OwnedOk;
      RegionPages(base, size);
      var start, end := AlignUp(base, PAGE), AlignDown(base + size, PAGE);
      if start >= end { return; }
      ghost var m, h, ls, os, r := memory, heads[..], lists, owned, Range(start, end);
      assert forall b <- FreeBlocks(lists) :: b in Managed(Heap());
      PushRegion(start, end);
      SeedDone(m, h, ls, os, r, memory, heads[..]);
    }

    method PushRegion(start: nat, end: nat)
      requires ListsValid() && Range(start, end).Pages() && 0 < start < end <= MEMORY_LIMIT
      requires forall b <- FreeBlocks(lists) :: b.Limit() <= start || end <= b.base
      modifies this`memory, this`lists, heads
      ensures ListsValid() && lists == Seed(old(lists), start, end)
      ensures SameOutside(old(memory), memory, SeedSet(start, end))
    {
      hide ListsOk;
      hide SameOutside;
      ghost var m, s := memory, SeedSet(start, end);
      SameOutsideSelf(m, s);
      var current := start;
      while current < end
        invariant Range(current, end).Pages() && start <= current && ListsValid()
        invariant Seed(lists, current, end) == Seed(old(lists), start, end)
        invariant forall b <- FreeBlocks(lists) :: b.Limit() <= current || end <= b.base
        invariant SeedSet(current, end) <= s
        invariant SameOutside(m, memory, s)
        decreases end - current
      {
        ghost var m1, t := memory, SeedSet(current, end);
        current := PushChunk(current, end);
        CoverSubset(t, s);
        SameOutsideTrans(m, m1, memory, s, t);
      }
    }

    /** One turn of the loop of `add_region`. */
    method PushChunk(current: nat, end: nat) returns (next: nat)
      requires ListsValid() && Range(current, end).Pages() && 0 < current < end <= MEMORY_LIMIT
      requires forall b <- FreeBlocks(lists) :: b.Limit() <= current || end <= b.base
      modifies this`memory, this`lists, heads
      ensures ListsValid() && current < next && Range(next, end).Pages()
      ensures Seed(lists, next, end) == Seed(old(lists), current, end)
      ensures forall b <- FreeBlocks(lists) :: b.Limit() <= next || end <= b.base
      ensures SeedSet(next, end) <= SeedSet(current, end)
      ensures SameOutside(old(memory), memory, SeedSet(current, end))
    {
      hide ListsOk;
      hide SameOutside;
      hide ChunkSize;
      hide OrderForBlockSize;
      ghost var b, n := ChunkStep(lists, current, end);
      var size := NextChunk(current, end);
      var order := OrderFor(size);
      PushFreeBlock(current, order);
      CoverWithin(SeedSet(current, end), b, b);
      SameOutsideWider(old(memory), memory, {b}, SeedSet(current, end));
      next := current + size;
    }

    /** The size computation of `add_region`. */
    static method NextChunk(current: nat, end: nat) returns (size: nat)
      requires Range(current, end).Pages() && current < end
      ensures size == ChunkSize(current, end)
    {
      FloorPow2Is(end - current);
      size := FloorPow2(end - current);
      while size > PAGE && And(current, size - 1) != 0
        invariant size > 0 && Shrink(current, size) == Shrink(current, FloorPow2(end - current))
        decreases size
      {
        size := size / 2;
      }
      if size < PAGE { size := PAGE; }
    }

    /** The splitting loop of ALLOCATE. */
    method SplitDown(base: nat, order0: nat, target: nat)
      requires ListsValid() && MIN_ORDER <= target <= order0 <= MAX_ORDER && Freeable(lists, Block(base, order0))
      modifies this`memory, this`lists, heads
      ensures ListsValid() && lists == Split(old(lists), Block(base, order0), target)
      ensures Freeable(lists, Block(base, target))
      ensures SameOutside(old(memory), memory, {Block(base, order0)})
    {
      hide ListsOk;
      hide Freeable;
      var order := order0;
      ghost var b := Block(base, order0);
      while order > target
        invariant target <= order <= order0 && ListsValid() && Freeable(lists, Block(base, order))
        invariant Pow2(order) <= Pow2(order0)
        invariant Split(lists, Block(base, order), target) == Split(old(lists), b, target)
        invariant SameOutside(old(memory), memory, {b})
      {
        ghost var m, cur := memory, Block(base, order);
        order := order - 1;
        SplitOnce(base, order);
        CoverWithin({b}, b, cur);
        SameOutsideTrans(old(memory), m, memory, {b}, {cur});
      }
    }

    /** One turn of the splitting loop: the upper half of the block goes to the list of order `order`. */
    method SplitOnce(base: nat, order: nat)
      requires ListsValid() && MIN_ORDER <= order < MAX_ORDER && Freeable(lists, Block(base, order + 1))
      modifies this`memory, this`lists, heads
      ensures ListsValid() && lists == Push(old(lists), Block(base + Pow2(order), order))
      ensures Freeable(lists, Block(base, order))
      ensures SameOutside(old(memory), memory, {Block(base, order + 1)})
    {
      hide ListsOk;
      hide Freeable;
      ghost var b := Block(base, order + 1);
      ghost var lower, upper := HalvesUnlisted(lists, b);
      PushFreeBlock(base + Pow2(order), order);
      CoverWithin({b}, b, upper);
      SameOutsideWider(old(memory), memory, {upper}, {b});
    }

    /** ALLOCATE. For ssize arguments neither overflow test of the source can succeed, so they have no branch here. */
    method Allocate(size: int, alignment: int) returns (pointer: nat, error: Error)
      requires Valid() && size < 0x8000_0000_0000_0000 && alignment < 0x8000_0000_0000_0000
      modifies this, heads
      ensures Valid()
      ensures size < 0 || !IsPowerOfTwo(alignment) ==>
        pointer == 0 && error == InvalidArgument && memory == old(memory) && lists == old(lists) && owned == old(owned)
      ensures size == 0 && IsPowerOfTwo(alignment) ==>
        pointer == 0 && error == None && memory == old(memory) && lists == old(lists) && owned == old(owned)
      ensures ValidRequest(size, alignment) ==> Allocated(size, alignment, pointer, error)
      ensures ValidRequest(size, alignment) && error == None ==>
        Serves(pointer, size, alignment) && LeastFor(owned[pointer].block.order, size, alignment)
    {
      hide ListsOk;
      hide HeapInv;
      hide OwnedOk;
      hide LeastFor;
      if size < 0 || !IsPowerOfTwo(alignment) { return 0, InvalidArgument; }
      if size == 0 { return 0, None; }
      pointer, error := AllocateBlock(size, alignment);
      TargetIsLeast(size, alignment);
      if error == None { PlacedWithin(memory, lists, owned, pointer); }
    }

    method AllocateBlock(size: nat, alignment: nat) returns (pointer: nat, error: Error)
      requires Valid() && ValidRequest(size, alignment)
      modifies this, heads
      ensures Valid() && Allocated(size, alignment, pointer, error)
    {
      hide ListsOk;
      hide HeapInv;
      hide OwnedOk;
      var target := FindTarget(size, alignment);
      assert ListsValid();
      var order := FindFit(target);
      if order > MAX_ORDER {
        SameOutsideSelf(memory, FreeBlocks(lists));
        return 0, OutOfMemory;
      }
      pointer, error := AllocateFrom(order, target, size, alignment);
    }

    /** The order of the block that a request asks for. */
    static method FindTarget(size: nat, alignment: nat) returns (target: nat)
      requires ValidRequest(size, alignment)
      ensures target == TargetOrder(RequiredSize(size, alignment)) && MIN_ORDER <= target <= 31
    {
      RequiredNoWrap(size, alignment);
      var required := (size + alignment + HEADER_SIZE) % U64_LIMIT;
      TargetOrderIs(required);
      var blockSize := NextSize(required);
      target := OrderFor(blockSize);
    }

    /** The search of ALLOCATE for a nonempty list. */
    method FindFit(target: nat) returns (order: nat)
      requires ListsValid() && target <= MAX_ORDER
      ensures order == FirstFit(lists, target)
    {
      order := target;
      while order <= MAX_ORDER && heads[order] == 0
        invariant target <= order <= MAX_ORDER + 1
        invariant FirstFit(lists, order) == FirstFit(lists, target)
      {
        Heads(memory, heads[..], lists, order);
        order := order + 1;
      }
      if order <= MAX_ORDER { Heads(memory, heads[..], lists, order); }
    }

    /** Takes the first block of list `order` and cuts it down to order `target`. */
    method CutBlock(order: nat, target: nat) returns (base: nat)
      requires ListsValid() && MIN_ORDER <= target <= order <= MAX_ORDER && lists[order] != []
      requires Freeable(Pop(lists, order), Block(lists[order][0], order))
      modifies this`memory, this`lists, heads
      ensures ListsValid() && base == old(lists)[order][0]
      ensures lists == Split(Pop(old(lists), order), Block(base, order), target)
      ensures Freeable(lists, Block(base, target))
      ensures SameOutside(old(memory), memory, {Block(base, order)})
    {
      hide ListsOk;
      hide Freeable;
      ghost var m, h, ls := memory, heads[..], lists;
      HeadBound(m, h, ls, order);
      PopLinks(m, h, ls, order);
      base := heads[order];
      heads[order] := Load64(memory, base);
      lists := Pop(lists, order);
      assert heads[..] == h[order := Load64(m, base)];
      SplitDown(base, order, target);
    }

    method AllocateFrom(order: nat, target: nat, size: nat, alignment: nat) returns (pointer: nat, error: Error)
      requires Valid() && ValidRequest(size, alignment) && target == TargetOrder(RequiredSize(size, alignment))
      requires MIN_ORDER <= target <= order <= MAX_ORDER && order == FirstFit(lists, target)
      modifies this, heads
      ensures Valid() && Allocated(size, alignment, pointer, error)
    {
      hide ListsOk;
      hide HeapInv;
      hide OwnedOk;
      hide Freeable;
      hide SameOutside;
      hide AlignUp;
      hide And;
      hide TargetOrder;
      hide Split;
      hide FirstFit;
      assert 0 < alignment <= U64_LIMIT;
      hide IsPowerOfTwo;
      hide LinksOnly;
      hide WriteHeader;
      ghost var m, h, ls, os := memory, heads[..], lists, owned;
      PoppedOk(m, h, ls, os, order);
      assert ListsValid();
      ghost var b, c := Block(ls[order][0], order), Block(ls[order][0], target);
      var base := CutBlock(order, target);
      pointer := AlignUp(base + HEADER_SIZE, alignment);
      var end := (pointer + size) % U64_LIMIT;
      if end < pointer || end > base + Pow2(target) {
        ghost var m1 := memory;
        PushBack(base, target);
        Pow2Mono(target, order);
        CoverWithin({b}, b, c);
        SameOutsideTrans(m, m1, memory, {b}, {c});
        AllocateFailed(m, h, ls, os, order, b, c, memory, heads[..]);
        CoverWithin(FreeBlocks(ls), b, b);
        SameOutsideWider(m, memory, {b}, FreeBlocks(ls));
        return 0, OutOfMemory;
      }
      AllocateDone(m, h, ls, os, order, b, c, memory, heads[..], pointer, size, alignment);
      memory := WriteHeader(memory, pointer, Block(base, target), size, alignment);
      owned := os[pointer := Allocation(c, size, alignment, true)];
      error := None;
    }

    method PushBack(base: nat, order: nat)
      requires ListsValid() && order <= MAX_ORDER && Freeable(lists, Block(base, order))
      modifies this`memory, this`lists, heads
      ensures ListsValid() && lists == Push(old(lists), Block(base, order))
      ensures SameOutside(old(memory), memory, {Block(base, order)})
    {
      FreeableUnlisted(lists, Block(base, order));
      PushFreeBlock(base, order);
    }

    /** What ALLOCATE promises for a request it accepts. */
    twostate predicate Allocated(size: nat, alignment: nat, pointer: nat, error: Error)
      requires ValidRequest(size, alignment)
      reads this
    {
      var target := TargetOrder(RequiredSize(size, alignment));
      var o := if target <= MAX_ORDER then FirstFit(old(lists), target) else MAX_ORDER + 1;
      && Heap() == AllocateStep(old(Heap()), size, alignment)
      && (if o <= MAX_ORDER && FitsIn(Block(old(lists)[o][0], target), size, alignment) then
            && error == None && pointer == UserAddress(old(lists)[o][0], alignment) && pointer !in old(owned)
            && owned == old(owned)[pointer := Allocation(Block(old(lists)[o][0], target), size, alignment, true)]
            && SameOutside(old(memory), memory, {Block(old(lists)[o][0], o)})
          else
            && error == OutOfMemory && pointer == 0 && owned == old(owned)
            && SameOutside(old(memory), memory, FreeBlocks(old(lists))))
    }

    /** The loop of FREE: merge with free buddies, then push what has come of it. */
    method Release(base0: nat, order0: nat)
      requires ListsValid() && order0 <= MAX_ORDER && Freeable(lists, Block(base0, order0))
      modifies this`memory, this`lists, heads
      ensures ListsValid() && lists == Coalesce(old(lists), Block(base0, order0))
      ensures SameOutside(old(memory), memory, FreeBlocks(old(lists)) + {Block(base0, order0)})
      ensures LinksOnly(old(memory), memory)
    {
      hide ListsOk;
      hide Freeable;
      hide LinksOnly;
      LinksOnlySelf(memory);
      var base, order := base0, order0;
      ghost var b, s := Block(base0, order0), FreeBlocks(lists) + {Block(base0, order0)};
      while order < MAX_ORDER
        invariant order <= MAX_ORDER && ListsValid() && Freeable(lists, Block(base, order))
        invariant Coalesce(lists, Block(base, order)) == Coalesce(old(lists), b)
        invariant SameCover(s, FreeBlocks(lists) + {Block(base, order)})
        invariant SameOutside(old(memory), memory, s) && LinksOnly(old(memory), memory)
      {
        ghost var cur, ls, m := Block(base, order), lists, memory;
        FreeableInMemory(ls, cur);
        CoverUnion(FreeBlocks(ls), {cur});
        var buddy := Xor(base, Pow2(order));
        var found := RemoveFreeBlock(order, buddy);
        SameOutsideTrans(old(memory), m, memory, s, FreeBlocks(ls));
        LinksOnlyTrans(old(memory), m, memory);
        if !found { break; }
        MergeFreeable(ls, cur);
        if buddy < base { base := buddy; }
        order := order + 1;
        assert Block(base, order) == cur.Parent();
      }
      ghost var cur, m := Block(base, order), memory;
      FreeableUnlisted(lists, cur);
      CoverUnion(FreeBlocks(lists), {cur});
      PushFreeBlock(base, order);
      SameOutsideTrans(old(memory), m, memory, s, {cur});
      LinksOnlyTrans(old(memory), m, memory);
    }

    /** FREE, for a pointer that has been handed out, and for any other whose header does not say LIVE. `ok` is false
        when the "double free" assertion fires, before anything is changed. */
    method Free(pointer: nat) returns (ok: bool)
      requires Valid()
      requires pointer == 0 || pointer in owned || (pointer >= HEADER_SIZE && !StateIs(memory, pointer, LIVE))
      modifies this, heads
      ensures Valid()
      ensures ok <==> pointer == 0 || StateIs(old(memory), pointer, LIVE)
      ensures pointer != 0 && pointer in old(owned) ==> (ok <==> old(owned)[pointer].live)
      ensures !ok || pointer == 0 ==> memory == old(memory) && lists == old(lists) && owned == old(owned)
      ensures ok && pointer != 0 ==>
        && pointer in old(owned) && owned == old(owned) - {pointer} && StateIs(memory, pointer, FREED)
        && Heap() == FreeStep(old(Heap()), old(owned)[pointer].block)
        && SameOutside(old(memory), memory, FreeBlocks(old(lists)) + {old(owned)[pointer].block})
    {
      hide ListsOk;
      hide HeapInv;
      hide OwnedOk;
      hide Freeable;
      hide SameOutside;
      if pointer == 0 { return true; }
      ghost var m, h, ls, os := memory, heads[..], lists, owned;
      if pointer in os { FreeStart(m, h, ls, os, pointer); }
      var base, order, state := Load64(memory, pointer - 32), memory(pointer - 24), memory(pointer - 23);
      if state != LIVE { return false; }
      OwnedMultiple(m, h, ls, os, pointer);
      MarkAndRelease(pointer, base, order);
      FreeDone(m, h, ls, os, pointer, Block(base, order), memory, heads[..], lists);
      owned := os - {pointer};
      ok := true;
    }

    /** A second FREE of a pointer, with nothing in between, is caught and changes nothing. */
    method FreeTwice(pointer: nat) returns (first: bool, second: bool)
      requires Valid() && pointer != 0 && pointer in owned
      modifies this, heads
      ensures Valid() && (first <==> old(owned)[pointer].live) && !second
      ensures owned == if first then old(owned) - {pointer} else old(owned)
    {
      hide ListsOk;
      hide HeapInv;
      hide OwnedOk;
      hide SameOutside;
      first := Free(pointer);
      second := Free(pointer);
    }

    method MarkAndRelease(pointer: nat, base: nat, order: nat)
      requires heads.Length == MAX_ORDER + 1 && pointer >= HEADER_SIZE && order <= MAX_ORDER && pointer % 32 == 0
      requires base + 9 <= pointer - 23 < base + Pow2(order) && Freeable(lists, Block(base, order))
      requires ListsOk(Store(memory, pointer - 23, [FREED]), heads[..], lists)
      modifies this`memory, this`lists, heads
      ensures ListsValid() && lists == Coalesce(old(lists), Block(base, order))
      ensures SameOutside(old(memory), memory, FreeBlocks(old(lists)) + {Block(base, order)})
      ensures StateIs(memory, pointer, FREED)
    {
      hide ListsOk;
      hide Freeable;
      ghost var m0, s := memory, FreeBlocks(lists) + {Block(base, order)};
      StoreInside(memory, pointer - 23, [FREED], s, Block(base, order));
      memory := Store(memory, pointer - 23, [FREED]);
      ghost var m1 := memory;
      Release(base, order);
      SameOutsideTrans(m0, m1, memory, s, s);
      StateByte(pointer);
    }

    /** `kstd_memcpy`: quadwords upwards, then the remaining bytes. The regions may overlap when copying downwards. */
    method CopyMemory(to: nat, from: nat, length: int)
      requires to + 8 <= from
      modifies this`memory
      ensures Copied(old(memory), memory, from, to, if length <= 0 then 0 else length)
    {
      if length <= 0 { return; }
      hide Copied;
      var qwords := length / 8;
      CopyUnits(to, from, qwords, 8);
      ghost var m := memory;
      CopyUnits(to + 8 * qwords, from + 8 * qwords, length % 8, 1);
      CopiedTwice(old(memory), m, memory, from, to, 8 * qwords, length % 8);
    }

    /** Copies `count` units of `width` bytes, lowest first, reading each unit before writing it. */
    method CopyUnits(to: nat, from: nat, count: nat, width: nat)
      requires to + width <= from
      modifies this`memory
      ensures Copied(old(memory), memory, from, to, count * width)
    {
      hide Copied;
      ghost var m := memory;
      CopiedNone(m, from, to);
      var done, at := 0, 0;
      while done < count
        invariant 0 <= done <= count && at == done * width && Copied(m, memory, from, to, at)
      {
        ghost var m1, bytes := memory, Slice(memory, from + at, width);
        CopiedMore(m, m1, from, to, at, bytes);
        memory := Store(memory, to + at, Slice(memory, from + at, width));
        done, at := done + 1, at + width;
        assert at == done * width by { OneMore(done - 1, width); }
      }
    }

    /** The first pass of RESIZE over the buddies. */
    method CheckBuddies(base: nat, order0: nat, target: nat) returns (ok: bool)
      requires ListsValid() && order0 <= target <= MAX_ORDER
      ensures ok <==> CanGrow(lists, Block(base, order0), target)
    {
      var newBase, order := base, order0;
      while order < target
        invariant order0 <= order <= target
        invariant CanGrow(lists, Block(newBase, order), target) <==> CanGrow(lists, Block(base, order0), target)
      {
        var buddy := Xor(newBase, Pow2(order));
        var free := IsFreeBlock(order, buddy);
        if !free { return false; }
        if buddy < newBase { newBase := buddy; }
        order := order + 1;
      }
      ok := true;
    }

    /** The second pass of RESIZE over the buddies. */
    method AbsorbBuddies(base: nat, order0: nat, target: nat) returns (newBase: nat)
      requires ListsValid() && order0 <= target <= MAX_ORDER
      requires Freeable(lists, Block(base, order0)) && CanGrow(lists, Block(base, order0), target)
      modifies this`memory, this`lists, heads
      ensures ListsValid() && lists == Absorb(old(lists), Block(base, order0), target)
      ensures Block(newBase, target) == Grown(Block(base, order0), target)
      ensures SameOutside(old(memory), memory, FreeBlocks(old(lists))) && LinksOnly(old(memory), memory)
    {
      hide ListsOk;
      hide Freeable;
      hide SameOutside;
      hide Xor;
      hide LinksOnly;
      newBase := base;
      var order := order0;
      ghost var m, s := memory, FreeBlocks(lists);
      SameOutsideSelf(memory, s);
      LinksOnlySelf(memory);
      while order < target
        invariant order0 <= order <= target && ListsValid() && FreeBlocks(lists) <= s
        invariant Freeable(lists, Block(newBase, order)) && CanGrow(lists, Block(newBase, order), target)
        invariant Absorb(lists, Block(newBase, order), target) == Absorb(old(lists), Block(base, order0), target)
        invariant Grown(Block(newBase, order), target) == Grown(Block(base, order0), target)
        invariant SameOutside(m, memory, s) && LinksOnly(m, memory)
      {
        ghost var cur, m1, ls := Block(newBase, order), memory, lists;
        AbsorbOne(ls, cur, target);
        var buddy := Xor(newBase, Pow2(order));
        var found := RemoveFreeBlock(order, buddy);
        CoverSubset(FreeBlocks(ls), s);
        SameOutsideTrans(m, m1, memory, s, FreeBlocks(ls));
        LinksOnlyTrans(m, m1, memory);
        if buddy < newBase { newBase := buddy; }
        order := order + 1;
        assert Block(newBase, order) == cur.Parent();
      }
    }

    /** What RESIZE promises for a request it accepts on a pointer of its own: record the size in place, leave
        everything alone, move into the merged block, or give up after the buddies have gone. */
    twostate predicate Resized(pointer: nat, size: nat, alignment: nat, oldSize: int, result: nat, error: Error)
      requires ValidRequest(size, alignment) && pointer in old(owned)
      reads this
    {
      var a := old(owned)[pointer];
      var target := TargetOrder(RequiredSize(size, alignment));
      if pointer % alignment != 0 then
        GaveUp(result, error) && Untouched()
      else if size <= a.block.Limit() - pointer && alignment == a.alignment then
        && result == pointer && error == None && lists == old(lists)
        && owned == old(owned)[pointer := a.(size := size)]
        && (forall x: nat :: x < pointer - 16 || pointer - 8 <= x ==> memory(x) == old(memory)(x))
      else if target <= a.block.order || !CanGrow(old(lists), a.block, target) then
        GaveUp(result, error) && Untouched()
      else
        var c := Grown(a.block, target);
        && Heap() == GrowStep(old(Heap()), a.block, size, alignment)
        && SameOutside(old(memory), memory, FreeBlocks(old(lists)) + {a.block})
        && if FitsIn(c, size, alignment) then
             && error == None && result == UserAddress(c.base, alignment) && result !in old(owned) - {pointer}
             && owned == (old(owned) - {pointer})[result := Allocation(c, size, alignment, result != pointer)]
             && CarriedFrom(old(memory), memory, a.block, pointer, result, oldSize, size)
             && RestUntouched(old(memory), memory, pointer, result, oldSize, size)
             && PayloadFate(old(memory), memory, pointer, a, c, result, alignment, oldSize, size)
           else
             GaveUp(result, error) && owned == old(owned)
    }

    predicate GaveUp(result: nat, error: Error) { result == 0 && error == ModeNotImplemented }

    twostate predicate Untouched()
      reads this
    {
      memory == old(memory) && lists == old(lists) && owned == old(owned)
    }

    /** The pointer has been handed out for such a request: it is aligned, with room behind it for the payload. */
    ghost predicate Serves(pointer: nat, size: nat, alignment: nat)
      requires alignment > 0
      reads this
    {
      && pointer in owned && owned[pointer].size == size && pointer % alignment == 0
      && owned[pointer].block.base + 32 <= pointer && pointer + size <= owned[pointer].block.Limit()
    }

    /** RESIZE stays in its block, or goes to one of the least order that will do. */
    twostate predicate KeptOrLeast(pointer: nat, result: nat)
      requires pointer in old(owned) && result in owned
      reads this
    {
      var a := owned[result];
      a.block == old(owned)[pointer].block || LeastFor(a.block.order, a.size, a.alignment)
    }

    /** RESIZE. Neither overflow test of the source can succeed for ssize arguments, so they have no branch here. */
    method Resize(pointer: nat, size: int, alignment: int, oldSize: int) returns (result: nat, error: Error)
      requires Valid() && (pointer == 0 || pointer in owned)
      requires size < 0x8000_0000_0000_0000 && alignment < 0x8000_0000_0000_0000
      modifies this, heads
      ensures Valid()
      ensures size < 0 || !IsPowerOfTwo(alignment) ==> result == 0 && error == InvalidArgument && Untouched()
      ensures size == 0 && IsPowerOfTwo(alignment) ==> result == 0 && error == None && Untouched()
      ensures ValidRequest(size, alignment) && pointer == 0 ==> Allocated(size, alignment, result, error)
      ensures ValidRequest(size, alignment) && pointer != 0 ==>
        Resized(pointer, size, alignment, oldSize, result, error)
      ensures ValidRequest(size, alignment) && error == None ==> Serves(result, size, alignment)
      ensures ValidRequest(size, alignment) && error == None && pointer != 0 ==> KeptOrLeast(pointer, result)
    {
      hide ListsOk;
      hide HeapInv;
      hide OwnedOk;
      hide Serves;
      hide KeptOrLeast;
      if size < 0 || !IsPowerOfTwo(alignment) { return 0, InvalidArgument; }
      if size == 0 { return 0, None; }
      if pointer == 0 {
        result, error := Allocate(size, alignment);
        return;
      }
      if pointer % alignment != 0 { return 0, ModeNotImplemented; }
      result, error := ResizeAligned(pointer, size, alignment, oldSize);
    }

    method ResizeAligned(pointer: nat, size: nat, alignment: nat, oldSize: int) returns (result: nat, error: Error)
      requires Valid() && pointer in owned && ValidRequest(size, alignment) && pointer % alignment == 0
      modifies this, heads
      ensures Valid() && Resized(pointer, size, alignment, oldSize, result, error)
      ensures error == None ==> Serves(result, size, alignment) && KeptOrLeast(pointer, result)
    {
      hide ListsOk;
      hide HeapInv;
      hide OwnedOk;
      hide SameOutside;
      hide UserAddress;
      hide TargetOrder;
      hide CanGrow;
      hide Grown;
      hide IsPowerOfTwo;
      hide FitsIn;
      hide CarriedFrom;
      hide RestUntouched;
      hide PayloadFate;
      hide LeastFor;
      var base, oldOrder, oldAlignment, available := ReadBlock(pointer);
      if size <= available && alignment == oldAlignment {
        RecordSize(pointer, size);
        PlacedWithin(memory, lists, owned, pointer);
        return pointer, None;
      }
      var target := FindTarget(size, alignment);
      if target <= oldOrder || target > MAX_ORDER { return 0, ModeNotImplemented; }
      var ok := CheckBuddies(base, oldOrder, target);
      if !ok { return 0, ModeNotImplemented; }
      result, error := GrowBlock(pointer, base, oldOrder, target, size, alignment, oldSize);
      TargetIsLeast(size, alignment);
      if error == None { PlacedWithin(memory, lists, owned, result); }
    }

    /** What RESIZE reads from the header of `pointer`, and the bytes from there to the end of the block. */
    method ReadBlock(pointer: nat) returns (base: nat, order: nat, alignment: nat, available: nat)
      requires Valid() && pointer in owned
      ensures pointer >= HEADER_SIZE && Block(base, order) == owned[pointer].block && order <= MAX_ORDER
      ensures alignment == owned[pointer].alignment && pointer + available == owned[pointer].block.Limit()
    {
      hide ListsOk;
      hide HeapInv;
      hide OwnedOk;
      ReadHeader(memory, heads[..], lists, owned, pointer);
      base, order, alignment := Load64(memory, pointer - 32), memory(pointer - 24), Load64(memory, pointer - 8);
      available := (base + Pow2(order) - pointer) % U64_LIMIT;
    }

    /** The part of RESIZE that stays inside the block it has. */
    method RecordSize(pointer: nat, size: nat)
      requires Valid() && pointer in owned && pointer >= HEADER_SIZE
      requires 0 < size < 0x8000_0000_0000_0000 && pointer + size <= owned[pointer].block.Limit()
      modifies this`memory, this`owned
      ensures Valid() && owned == old(owned)[pointer := old(owned)[pointer].(size := size)]
      ensures forall x: nat :: x < pointer - 16 || pointer - 8 <= x ==> memory(x) == old(memory)(x)
    {
      hide ListsOk;
      hide HeapInv;
      hide OwnedOk;
      ResizedInPlace(memory, heads[..], lists, owned, pointer, size);
      memory := Store64(memory, pointer - 16, size);
      owned := owned[pointer := owned[pointer].(size := size)];
    }

    /** The part of RESIZE that merges buddies. */
    method GrowBlock(pointer: nat, base: nat, order: nat, target: nat, size: nat, alignment: nat, oldSize: int)
      returns (result: nat, error: Error)
      requires Valid() && pointer in owned && Block(base, order) == owned[pointer].block
      requires ValidRequest(size, alignment) && pointer % alignment == 0
      requires target == TargetOrder(RequiredSize(size, alignment)) && order < target <= MAX_ORDER
      requires CanGrow(lists, owned[pointer].block, target)
      modifies this, heads
      ensures Valid()
      ensures Heap() == GrowStep(old(Heap()), Block(base, order), size, alignment)
      ensures SameOutside(old(memory), memory, FreeBlocks(old(lists)) + {Block(base, order)})
      ensures var c := Grown(Block(base, order), target);
        if FitsIn(c, size, alignment) then
          && error == None && result == UserAddress(c.base, alignment) && result !in old(owned) - {pointer}
          && owned == (old(owned) - {pointer})[result := Allocation(c, size, alignment, result != pointer)]
          && CarriedFrom(old(memory), memory, Block(base, order), pointer, result, oldSize, size)
          && RestUntouched(old(memory), memory, pointer, result, oldSize, size)
          && PayloadFate(old(memory), memory, pointer, old(owned)[pointer], c, result, alignment, oldSize, size)
        else
          GaveUp(result, error) && owned == old(owned)
    {
      hide ListsOk;
      hide HeapInv;
      hide OwnedOk;
      hide Freeable;
      hide SameOutside;
      hide AlignUp;
      hide TargetOrder;
      hide CarriedFrom;
      hide RestUntouched;
      hide PayloadFate;
      hide LinksOnly;
      ghost var m, h, ls, os, b := memory, heads[..], lists, owned, Block(base, order);
      GrowStart(m, h, ls, os, pointer, target);
      assert ListsValid();
      var newBase := AbsorbBuddies(base, order, target);
      ghost var m1, r, c := memory, lists, Block(newBase, target);
      result := AlignUp(newBase + HEADER_SIZE, alignment);
      var end := (result + size) % U64_LIMIT;
      if end < result || end > newBase + Pow2(target) {
        ResizeGaveUp(m, h, ls, os, pointer, c, r, m1, heads[..]);
        SameOutsideMore(m, m1, FreeBlocks(ls), b);
        return 0, ModeNotImplemented;
      }
      PlaceGrown(m, h, ls, os, c, pointer, newBase, target, result, size, alignment, oldSize);
      error := None;
    }

    /** The part of RESIZE that moves into the merged block; `m`, `h`, `ls` and `os` are the state before the merge. */
    method PlaceGrown(ghost m: Mem, ghost h: seq<nat>, ghost ls: FreeLists, ghost os: map<nat, Allocation>,
                      ghost c: Block, pointer: nat, newBase: nat, target: nat, result: nat, size: nat, alignment: nat,
                      oldSize: int)
      requires ListsValid() && owned == os && c == Block(newBase, target)
      requires ValidState(m, h, ls, os) && Growing(ls, os, pointer, c, lists)
      requires SameOutside(m, memory, FreeBlocks(ls)) && LinksOnly(m, memory)
      requires ValidRequest(size, alignment) && pointer % alignment == 0
      requires result == UserAddress(newBase, alignment) && FitsIn(c, size, alignment)
      modifies this`memory, this`owned
      ensures result !in os - {pointer}
      ensures Valid() && owned == (os - {pointer})[result := Allocation(c, size, alignment, result != pointer)]
      ensures OwnedBlocks(owned) == OwnedBlocks(os) - {os[pointer].block} + {c}
      ensures SameOutside(m, memory, FreeBlocks(ls) + {os[pointer].block})
      ensures CarriedFrom(m, memory, os[pointer].block, pointer, result, oldSize, size)
      ensures RestUntouched(m, memory, pointer, result, oldSize, size)
      ensures PayloadFate(m, memory, pointer, os[pointer], c, result, alignment, oldSize, size)
    {
      hide ListsOk;
      hide HeapInv;
      hide OwnedOk;
      hide SameOutside;
      hide UserAddress;
      hide HeaderIs;
      hide CanGrow;
      hide Carried;
      hide CarriedFrom;
      hide RestUntouched;
      hide PayloadFate;
      hide LinksOnly;
      ghost var m1, r, b, a := memory, lists, os[pointer].block, Allocation(c, size, alignment, result != pointer);
      NewPayload(m, h, ls, os, pointer, c, r, result, size, alignment);
      OldBeside(m, ls, os, pointer);
      MovePayload(m, pointer, result, c, newBase, target, size, alignment, oldSize);
      ResizeDone(m, h, ls, os, pointer, b, c, r, m1, heads[..], result, a, memory);
      ResizedBlocks(m, h, ls, os, pointer, b, c, r, result, a);
      PayloadFrom(m, m1, memory, FreeBlocks(ls), b, pointer, result, oldSize, size);
      GrownFate(m, h, ls, os, pointer, c, r, memory, alignment, oldSize, size);
      owned := (os - {pointer})[result := a];
    }

    /** The last writes of RESIZE: the new header, the payload, and the old header's state. */
    method MovePayload(ghost m0: Mem, pointer: nat, result: nat, ghost c: Block, newBase: nat, target: nat, size: nat,
                       alignment: nat, oldSize: int)
      requires c == Block(newBase, target) && target <= MAX_ORDER
      requires pointer >= HEADER_SIZE && result >= HEADER_SIZE && (result == pointer || result + 32 <= pointer)
      requires c.base < U64_LIMIT && 0 < size < U64_LIMIT && alignment < U64_LIMIT
      requires c.base + HEADER_SIZE <= result && result + size <= c.Limit() && c.base + 32 <= pointer < c.Limit()
      requires LinksOnly(m0, memory)
      modifies this`memory
      ensures SameOutside(old(memory), memory, {c})
      ensures HeaderIs(memory, result, Allocation(c, size, alignment, result != pointer))
      ensures Carried(old(memory), memory, pointer, result, oldSize, size)
      ensures RestUntouched(m0, memory, pointer, result, oldSize, size)
    {
      ghost var m, n := memory, CopyLength(oldSize, size);
      memory := WriteHeader(memory, result, Block(newBase, target), size, alignment);
      if result != pointer && oldSize > 0 {
        CopyMemory(result, pointer, if oldSize < size then oldSize else size);
      }
      ghost var m2 := memory;
      assert Moved(m, m2, pointer, result, c, size, alignment, n);
      RegrownHeader(m, m2, pointer, result, c, size, alignment, n);
      RegrownPayload(m, m2, pointer, result, c, size, alignment, n);
      RegrownLocal(m, m2, pointer, result, c, size, alignment, n);
      RegrownRest(m0, m, m2, pointer, result, c, size, alignment, oldSize);
      memory := Store(memory, pointer - 23, [FREED]);
      CopiedIsCarried(m, memory, pointer, result, oldSize, size);
    }

    /** IS_THIS_YOURS, for any pointer with readable memory in front of it. It knows every live allocation, and accepts
        nothing whose header does not place the pointer in the block it names. */
    method IsThisYours(pointer: nat) returns (result: nat)
      requires Valid() && (pointer == 0 || HEADER_SIZE <= pointer < U64_LIMIT)
      ensures result == 0 || result == pointer
      ensures pointer != 0 && pointer in owned ==> (result == pointer <==> owned[pointer].live)
      ensures result != 0 <==>
        pointer != 0 && exists a: Allocation :: a.live && HeaderIs(memory, pointer, a) && Claims(pointer, a)
    {
      hide ListsOk;
      hide HeapInv;
      hide OwnedOk;
      hide AlignUp;
      hide And;
      if pointer == 0 { return 0; }
      ghost var os := owned;
      if pointer in os { LiveClaims(memory, heads[..], lists, os, pointer); }
      var state, order := memory(pointer - 23), memory(pointer - 24);
      if state != LIVE { return 0; }
      var size, alignment := Load64(memory, pointer - 16), Load64(memory, pointer - 8);
      if order < MIN_ORDER || order > MAX_ORDER || !IsPowerOfTwo(alignment) { return 0; }
      var base := Load64(memory, pointer - 32);
      ghost var a := Allocation(Block(base, order), size, alignment, true);
      assert HeaderIs(memory, pointer, a);
      if pointer in os { assert a == os[pointer]; }
      LoadBound(memory, pointer - 8);
      var user := AlignUp((base + HEADER_SIZE) % U64_LIMIT, alignment);
      if pointer != user || (user + size) % U64_LIMIT < user
         || (user + size) % U64_LIMIT > (base + Pow2(order)) % U64_LIMIT {
        return 0;
      }
      result := pointer;
    }
  }

  /** A payload is aligned as asked, and lies in its block behind the header. */
  lemma PlacedWithin(m: Mem, ls: FreeLists, owned: map<nat, Allocation>, p: nat)
    requires OwnedOk(m, owned) && HeapInv(BuddyRuns.Heap.Heap(ls, OwnedBlocks(owned))) && p in owned
    ensures owned[p].alignment > 0 && p % owned[p].alignment == 0
    ensures owned[p].block.base + 32 <= p && p + owned[p].size <= owned[p].block.Limit()
  {
    hide HeapInv;
    OldPlaced(m, owned, p);
    OwnedInMemory(ls, owned, p);
    UserAddressIs(owned[p].block.base, owned[p].alignment);
  }

  /** Pointers that have been handed out are multiples of 32. */
  lemma OwnedMultiple(m: Mem, heads: seq<nat>, ls: FreeLists, owned: map<nat, Allocation>, p: nat)
    requires ValidState(m, heads, ls, owned) && p in owned
    ensures p % 32 == 0
  {
    var b := owned[p].block;
    assert AllocationOk(m, p, owned[p]);
    assert b in OwnedBlocks(owned);
    assert b in Managed(Heap(ls, OwnedBlocks(owned)));
    PayloadMultiple(b, owned[p].alignment);
  }

  lemma RegionPages(base: nat, size: nat)
    requires base + size <= MEMORY_LIMIT
    ensures AlignUp(base, PAGE) % PAGE == 0 && base <= AlignUp(base, PAGE)
    ensures AlignDown(base + size, PAGE) % PAGE == 0 && AlignDown(base + size, PAGE) <= base + size
  {
    hide AlignUp;
    hide AlignDown;
    Pow2Bounds(12);
    AlignUpIs(base, 12);
    AlignDownIs(base + size, 12);
  }

  lemma RequiredNoWrap(size: nat, alignment: nat)
    requires ValidRequest(size, alignment)
    ensures (size + alignment + HEADER_SIZE) % U64_LIMIT == RequiredSize(size, alignment)
  {
    var a := AlignmentOrder(alignment);
  }

  /** A block of a region that has not been pushed yet. */
  lemma BlockUnlisted(ls: FreeLists, b: Block, next: nat, end: nat)
    requires InMemory(b) && b.Aligned() && b.Limit() <= next <= end
    requires forall c <- FreeBlocks(ls) :: c.Limit() <= b.base || end <= c.base
    ensures Unlisted(ls, b.base)
  {
    PageAligned(b);
  }

  lemma CoverSubset(s: set<Block>, t: set<Block>)
    requires s <= t
    ensures forall x: nat :: Covers(s, x) ==> Covers(t, x)
  {}

  /** The next block of a region, and what pushing it does to the lists. */
  lemma ChunkStep(ls: FreeLists, current: nat, end: nat) returns (b: Block, next: nat)
    requires Range(current, end).Pages() && 0 < current < end <= MEMORY_LIMIT
    requires forall c <- FreeBlocks(ls) :: c.Limit() <= current || end <= c.base
    ensures next == current + ChunkSize(current, end) && Range(next, end).Pages() && current < next
    ensures b == Block(current, OrderForBlockSize(ChunkSize(current, end))) && MIN_ORDER <= b.order <= MAX_ORDER
    ensures Unlisted(ls, current)
    ensures Seed(Push(ls, b), next, end) == Seed(ls, current, end)
    ensures forall c <- FreeBlocks(Push(ls, b)) :: c.Limit() <= next || end <= c.base
    ensures SeedSet(next, end) <= SeedSet(current, end) && b in SeedSet(current, end)
  {
    hide ChunkSize;
    hide OrderForBlockSize;
    var k;
    k, b, next := SeedSetStep(current, end);
    BlockUnlisted(ls, b, next, end);
    PushBlocks(ls, b);
  }

  /** The halves of a block that is being cut: the upper one may be pushed. */
  lemma HalvesUnlisted(ls: FreeLists, b: Block) returns (lower: Block, upper: Block)
    requires Freeable(ls, b) && MIN_ORDER < b.order <= MAX_ORDER
    ensures lower == Block(b.base, b.order - 1) && upper == Block(b.base + Pow2(b.order - 1), b.order - 1)
    ensures Freeable(Push(ls, upper), lower) && Unlisted(ls, upper.base)
  {
    lower, upper := SplitStep(ls, b);
    assert b in FreeBlocks(ls) + {b};
    HalvesAreBuddies(b, lower, upper);
    PageAligned(upper);
    forall c | c in FreeBlocks(ls) ensures c.base != upper.base {
      assert c in FreeBlocks(ls) + {b} && Disjoint(b, c);
    }
  }

  lemma Heads(m: Mem, heads: seq<nat>, ls: FreeLists, o: nat)
    requires ListsOk(m, heads, ls) && o <= MAX_ORDER
    ensures heads[o] == 0 <==> ls[o] == []
  {
    HeadBound(m, heads, ls, o);
    if ls[o] != [] { assert Block(ls[o][0], o) in FreeBlocks(ls); }
  }

  /** One turn of the second pass of RESIZE. */
  lemma AbsorbOne(ls: FreeLists, b: Block, target: nat)
    requires Freeable(ls, b) && b.order < target <= MAX_ORDER && CanGrow(ls, b, target)
    ensures IsFree(ls, b.Buddy()) && AllInMemory(FreeBlocks(ls))
    ensures var r := Remove(ls, b.Buddy());
      && Freeable(r, b.Parent()) && CanGrow(r, b.Parent(), target) && FreeBlocks(r) <= FreeBlocks(ls)
      && Absorb(r, b.Parent(), target) == Absorb(ls, b, target)
  {
    FreeableInMemory(ls, b);
    MergeFreeable(ls, b);
    CanGrowLocal(ls, Remove(ls, b.Buddy()), b.Parent(), target);
  }

  lemma FreeableInMemory(ls: FreeLists, b: Block)
    requires Freeable(ls, b)
    ensures AllInMemory(FreeBlocks(ls))
  {
    assert FreeBlocks(ls) <= FreeBlocks(ls) + {b};
  }
}
