/** Whole runs of the buddy heap over its blocks: what every operation keeps, and what a run that frees everything
    returns to. */
module BuddyRuns {
  import opened Bits
  import opened BuddyBlocks
  import opened BuddyLists
  import opened BuddySeed

  const HEADER_SIZE: nat := 32
  const TWO_GIB: nat := 0x8000_0000

  datatype Heap = Heap(free: FreeLists, owned: set<Block>)

  /** Free and owned blocks are aligned and disjoint and lie inside physical memory. */
  ghost predicate HeapInv(h: Heap) {
    && NoRepeats(h.free)
    && FreeBlocks(h.free) !! h.owned
    && Tiling(FreeBlocks(h.free) + h.owned)
    && AllInMemory(FreeBlocks(h.free) + h.owned)
  }

  /** The memory the heap manages, free and owned together. */
  ghost function Managed(h: Heap): set<Block> { FreeBlocks(h.free) + h.owned }

  function RequiredSize(size: nat, alignment: nat): nat { size + alignment + HEADER_SIZE }

  datatype Op =
    | Allocate(size: nat, alignment: nat)
    | Free(block: Block)
    | Grow(block: Block, size: nat, alignment: nat)
  {
    /** No request whose payload does not fit in a block of 2 GiB, the largest that the order computation can name. */
    predicate Nameable() {
      match this
      case Allocate(size, alignment) => Fitting(size, alignment)
      case Free(_) => true
      case Grow(_, size, alignment) => Fitting(size, alignment)
    }
  }

  /** The arguments that ALLOCATE and RESIZE accept: both are ssize, and a size of 0 is answered with null. */
  predicate ValidRequest(size: int, alignment: int) {
    0 < size < 0x8000_0000_0000_0000 && alignment < 0x8000_0000_0000_0000 && IsPowerOfTwo(alignment)
  }

  predicate Fitting(size: nat, alignment: nat) {
    ValidRequest(size, alignment) ==> PayloadOffset(alignment) + size <= TWO_GIB
  }

  /** Where the payload starts: past the header, rounded up. */
  function UserAddress(base: nat, alignment: nat): nat
    requires 0 < alignment <= U64_LIMIT
  {
    AlignUp(base + HEADER_SIZE, alignment)
  }

  /** The fit check of ALLOCATE and RESIZE, on u64. */
  predicate EndFits(user: nat, size: nat, limit: nat) {
    var end := (user + size) % U64_LIMIT;
    user <= end <= limit
  }

  predicate FitsIn(b: Block, size: nat, alignment: nat)
    requires 0 < alignment <= U64_LIMIT
  {
    EndFits(UserAddress(b.base, alignment), size, b.Limit())
  }

  /** ALLOCATE: cut a block of order `target` off the first block large enough; if the payload then does not fit, push
      the cut block back as it is. */
  function AllocateStep(h: Heap, size: nat, alignment: nat): Heap
    requires ValidRequest(size, alignment)
  {
    var target := TargetOrder(RequiredSize(size, alignment));
    TargetOrderIs(RequiredSize(size, alignment));
    var o := FirstFit(h.free, target);
    if o > MAX_ORDER then h
    else
      var b := Block(h.free[o][0], target);
      var cut := Split(Pop(h.free, o), Block(b.base, o), target);
      if FitsIn(b, size, alignment) then Heap(cut, h.owned + {b}) else Heap(Push(cut, b), h.owned)
  }

  function FreeStep(h: Heap, b: Block): Heap {
    if b in h.owned && b.order <= MAX_ORDER then Heap(Coalesce(h.free, b), h.owned - {b}) else h
  }

  /** The growing part of RESIZE: check every buddy, remove every buddy, and give up late if the payload does not
      fit. */
  function GrowStep(h: Heap, b: Block, size: nat, alignment: nat): Heap
    requires ValidRequest(size, alignment)
  {
    var target := TargetOrder(RequiredSize(size, alignment));
    TargetOrderIs(RequiredSize(size, alignment));
    if b in h.owned && b.order < target && CanGrow(h.free, b, target) then
      var c, absorbed := Grown(b, target), Absorb(h.free, b, target);
      if FitsIn(c, size, alignment) then Heap(absorbed, h.owned - {b} + {c}) else Heap(absorbed, h.owned)
    else h
  }

  function Step(h: Heap, op: Op): Heap {
    match op
    case Allocate(size, alignment) => if ValidRequest(size, alignment) then AllocateStep(h, size, alignment) else h
    case Free(b) => FreeStep(h, b)
    case Grow(b, size, alignment) => if ValidRequest(size, alignment) then GrowStep(h, b, size, alignment) else h
  }

  function Run(h: Heap, ops: seq<Op>): Heap
    decreases |ops|
  {
    if ops == [] then h else Run(Step(h, ops[0]), ops[1..])
  }

  lemma RunOne(h: Heap, op: Op)
    ensures Run(h, [op]) == Step(h, op)
  {
    hide Step;
    assert [op][1..] == [];
  }

  // ---------------------------------------------------------------- where the payload goes

  lemma AlignmentOrder(alignment: nat) returns (a: nat)
    requires alignment < 0x8000_0000_0000_0000 && IsPowerOfTwo(alignment)
    ensures alignment == Pow2(a) && a <= 62 && alignment <= 0x4000_0000_0000_0000
  {
    PowerOfTwoTest(alignment);
    a := Log2(alignment);
    Pow2Bounds(a);
    Pow2Bounds(a + 1);
  }

  lemma UserAddressRange(base: nat, alignment: nat)
    requires alignment < 0x8000_0000_0000_0000 && IsPowerOfTwo(alignment) && base <= MEMORY_LIMIT
    ensures base + HEADER_SIZE <= UserAddress(base, alignment) < base + HEADER_SIZE + alignment
    ensures alignment <= 0x4000_0000_0000_0000
  {
    UserAddressIs(base, alignment);
    var a := AlignmentOrder(alignment);
  }

  /** The payload starts at the first multiple of the alignment that leaves room for the header. */
  lemma UserAddressIs(base: nat, alignment: nat)
    requires alignment < 0x8000_0000_0000_0000 && IsPowerOfTwo(alignment) && base <= MEMORY_LIMIT
    ensures UserAddress(base, alignment) % alignment == 0
    ensures base + HEADER_SIZE <= UserAddress(base, alignment) < base + HEADER_SIZE + alignment
  {
    var a := AlignmentOrder(alignment);
    AlignUpIs(base + HEADER_SIZE, a);
  }

  /** Nothing wraps for addresses in physical memory: the u64 fit check is the plain one. */
  lemma FitsInIs(b: Block, size: nat, alignment: nat)
    requires ValidRequest(size, alignment) && b.Limit() <= MEMORY_LIMIT
    ensures FitsIn(b, size, alignment) <==> UserAddress(b.base, alignment) + size <= b.Limit()
  {
    UserAddressRange(b.base, alignment);
    EndFitsIs(UserAddress(b.base, alignment), size, b.Limit());
  }

  lemma EndFitsIs(user: nat, size: nat, limit: nat)
    requires user + size < U64_LIMIT
    ensures EndFits(user, size, limit) <==> user + size <= limit
  {}

  /** A request that the block was chosen for always fits. */
  lemma RequiredFits(b: Block, size: nat, alignment: nat)
    requires ValidRequest(size, alignment) && b.Limit() <= MEMORY_LIMIT
    requires RequiredSize(size, alignment) <= b.Size()
    ensures FitsIn(b, size, alignment)
  {
    FitsInIs(b, size, alignment);
    UserAddressRange(b.base, alignment);
  }

  /** The order is the least whose blocks hold header, payload and room to align it, if 2 GiB can hold them. */
  predicate LeastFor(order: nat, size: nat, alignment: nat) {
    size + alignment + 32 <= 0x8000_0000 ==>
      size + alignment + 32 <= Pow2(order) && (order == 12 || (order > 12 && Pow2(order - 1) < size + alignment + 32))
  }

  lemma TargetIsLeast(size: nat, alignment: nat)
    ensures LeastFor(TargetOrder(RequiredSize(size, alignment)), size, alignment)
  {
    hide TargetOrder;
    hide Pow2;
    TargetOrderIs(RequiredSize(size, alignment));
  }

  /** In an aligned block the payload starts at offset 32 or at the alignment, whichever is larger. */
  function PayloadOffset(alignment: nat): nat { if alignment <= HEADER_SIZE then HEADER_SIZE else alignment }

  lemma PayloadOffsetIs(b: Block, alignment: nat)
    requires b.Aligned() && InMemory(b) && IsPowerOfTwo(alignment) && alignment <= b.Size()
    ensures UserAddress(b.base, alignment) == b.base + PayloadOffset(alignment)
  {
    InMemoryOrder(b);
    Pow2Bounds(b.order);
    var a := AlignmentOrder(alignment);
    UserAddressIs(b.base, alignment);
    if a > b.order { Pow2Mono(b.order, a); }
    Pow2Injective(5, 5);
    AlignedDown(b.base, b.order, a);
    var off := PayloadOffset(alignment);
    assert off % alignment == 0 by {
      Pow2Values();
      if a <= 5 {
        Pow2Mono(a, 5);
        ModUnique(32, 32, 1, 0);
        AlignedDown(32, 5, a);
      } else {
        Pow2Mono(5, a);
        ModUnique(alignment, alignment, 1, 0);
      }
    }
    ModAdd(b.base, off, alignment);
    MultipleGapEither(UserAddress(b.base, alignment), b.base + off, alignment);
  }

  lemma MultipleGapEither(x: nat, y: nat, m: nat)
    requires m > 0 && x % m == 0 && y % m == 0 && x < y + m && y < x + m
    ensures x == y
  {
    if x <= y { MultipleGap(x, y, m); } else { MultipleGap(y, x, m); }
  }

  // ---------------------------------------------------------------- what each step keeps

  /** `h'` satisfies the invariant, manages the same memory, and has no buddy pair that `h` did not have. */
  ghost predicate Keeps(h: Heap, h': Heap) {
    && HeapInv(h')
    && SameCover(Managed(h), Managed(h'))
    && (NoBuddies(FreeBlocks(h.free)) ==> NoBuddies(FreeBlocks(h'.free)))
  }

  /** Moving a block between the free lists and the owned set, with recutting of the free part. */
  lemma TakeKeeps(h: Heap, b: Block, ls: FreeLists, r: FreeLists, c: Block)
    requires HeapInv(h) && b in FreeBlocks(h.free) && NoRepeats(ls)
    requires FreeBlocks(ls) == FreeBlocks(h.free) - {b}
    requires Recut(ls, b, r, c)
    ensures c !in h.owned
    ensures HeapInv(Heap(r, h.owned + {c})) && SameCover(Managed(h), Managed(Heap(r, h.owned + {c})))
  {
    var s, t := FreeBlocks(ls) + {b}, FreeBlocks(r) + {c};
    assert s == FreeBlocks(h.free);
    Retile(s, t, h.owned);
    assert t + h.owned == FreeBlocks(r) + (h.owned + {c});
  }

  lemma AllocateKeeps(h: Heap, size: nat, alignment: nat)
    requires HeapInv(h) && ValidRequest(size, alignment) && Fitting(size, alignment)
    ensures Keeps(h, AllocateStep(h, size, alignment))
  {
    var target := TargetOrder(RequiredSize(size, alignment));
    TargetOrderIs(RequiredSize(size, alignment));
    var o := FirstFit(h.free, target);
    if o <= MAX_ORDER {
      var b, c := CutKeeps(h, o, target);
      TargetFitsIff(c, size, alignment);
    }
  }

  lemma CutKeeps(h: Heap, o: nat, target: nat) returns (b: Block, c: Block)
    requires HeapInv(h) && MIN_ORDER <= target <= o <= MAX_ORDER && h.free[o] != []
    ensures b == Block(h.free[o][0], o) && c == Block(b.base, target)
    ensures InMemory(b) && InMemory(c) && c.Aligned()
    ensures var cut := Split(Pop(h.free, o), b, target);
      && Keeps(h, Heap(cut, h.owned + {c})) && Freeable(cut, c) && c !in h.owned
  {
    b, c := Block(h.free[o][0], o), Block(h.free[o][0], target);
    var popped := Pop(h.free, o);
    PopBlocks(h.free, o);
    PoppedFreeable(h, b, popped);
    SplitSound(popped, b, target);
    var cut := Split(popped, b, target);
    TakeKeeps(h, b, popped, cut, c);
    assert b in Managed(h);
    assert c in Managed(Heap(cut, h.owned + {c}));
  }

  lemma PoppedFreeable(h: Heap, b: Block, popped: FreeLists)
    requires HeapInv(h) && b in FreeBlocks(h.free) && NoRepeats(popped)
    requires FreeBlocks(popped) == FreeBlocks(h.free) - {b}
    ensures Freeable(popped, b)
    ensures NoBuddies(FreeBlocks(h.free)) ==> NoBuddies(FreeBlocks(popped))
  {
    assert FreeBlocks(popped) + {b} == FreeBlocks(h.free);
    TilingSubset(Managed(h), FreeBlocks(h.free));
  }

  lemma OwnedFreeable(h: Heap, b: Block)
    requires HeapInv(h) && b in h.owned
    ensures Freeable(h.free, b) && b.order <= MAX_ORDER
    ensures (FreeBlocks(h.free) + {b}) !! (h.owned - {b})
    ensures FreeBlocks(h.free) + {b} + (h.owned - {b}) == Managed(h)
  {
    TilingSubset(Managed(h), FreeBlocks(h.free) + {b});
    assert b in Managed(h);
    InMemoryOrder(b);
    assert FreeBlocks(h.free) + {b} + (h.owned - {b}) == Managed(h);
  }

  lemma FreeKeeps(h: Heap, b: Block)
    requires HeapInv(h)
    ensures Keeps(h, FreeStep(h, b))
  {
    if b in h.owned && b.order <= MAX_ORDER {
      OwnedFreeable(h, b);
      CoalesceSound(h.free, b);
      Retile(FreeBlocks(h.free) + {b}, FreeBlocks(Coalesce(h.free, b)), h.owned - {b});
    }
  }

  lemma GrowBlockKeeps(h: Heap, b: Block, target: nat)
    requires HeapInv(h) && b in h.owned && b.order <= target <= MAX_ORDER && CanGrow(h.free, b, target)
    ensures Keeps(h, Heap(Absorb(h.free, b, target), h.owned - {b} + {Grown(b, target)}))
    ensures Grown(b, target).Aligned() && InMemory(Grown(b, target))
    ensures Grown(b, target).base <= b.base && b.Limit() <= Grown(b, target).Limit()
    ensures FreeBlocks(Absorb(h.free, b, target)) <= FreeBlocks(h.free)
  {
    OwnedFreeable(h, b);
    AbsorbSound(h.free, b, target);
    var r, c := Absorb(h.free, b, target), Grown(b, target);
    Retile(FreeBlocks(h.free) + {b}, FreeBlocks(r) + {c}, h.owned - {b});
    assert FreeBlocks(r) + {c} + (h.owned - {b}) == FreeBlocks(r) + (h.owned - {b} + {c});
    assert c in FreeBlocks(r) + {c};
  }

  lemma GrowKeeps(h: Heap, b: Block, size: nat, alignment: nat)
    requires HeapInv(h) && ValidRequest(size, alignment) && Fitting(size, alignment)
    ensures Keeps(h, GrowStep(h, b, size, alignment))
  {
    var target := TargetOrder(RequiredSize(size, alignment));
    TargetOrderIs(RequiredSize(size, alignment));
    if b in h.owned && b.order < target && CanGrow(h.free, b, target) {
      GrowBlockKeeps(h, b, target);
      TargetFitsIff(Grown(b, target), size, alignment);
    }
  }

  /** Every operation keeps the blocks aligned and disjoint, manages exactly the same memory, and creates no free
      buddy pair. */
  lemma StepKeeps(h: Heap, op: Op)
    requires HeapInv(h) && op.Nameable()
    ensures Keeps(h, Step(h, op))
  {
    match op
    case Allocate(size, alignment) =>
      if ValidRequest(size, alignment) { AllocateKeeps(h, size, alignment); }
    case Free(b) => FreeKeeps(h, b);
    case Grow(b, size, alignment) =>
      if ValidRequest(size, alignment) { GrowKeeps(h, b, size, alignment); }
  }

  // ---------------------------------------------------------------- requests above 2 GiB

  /** The late failure of RESIZE drops the merged buddies from the heap; it happens exactly when the payload does not
      fit in the 2 GiB block that such a request is given. */
  lemma GrowLosesMemoryIff(h: Heap, b: Block, size: nat, alignment: nat)
    requires HeapInv(h) && ValidRequest(size, alignment)
    requires b in h.owned && b.order < TargetOrder(RequiredSize(size, alignment))
    requires CanGrow(h.free, b, TargetOrder(RequiredSize(size, alignment)))
    ensures !SameCover(Managed(h), Managed(GrowStep(h, b, size, alignment)))
      <==> PayloadOffset(alignment) + size > TWO_GIB
  {
    var target := TargetOrder(RequiredSize(size, alignment));
    TargetOrderIs(RequiredSize(size, alignment));
    var c, r := Grown(b, target), Absorb(h.free, b, target);
    GrowBlockKeeps(h, b, target);
    TargetFitsIff(c, size, alignment);
    if FitsIn(c, size, alignment) {
      assert GrowStep(h, b, size, alignment) == Heap(r, h.owned - {b} + {c});
    } else {
      assert GrowStep(h, b, size, alignment) == Heap(r, h.owned);
      LostBuddy(h, b, r, c);
    }
  }

  /** A block of the target order holds the request exactly when the payload offset and the size fit in 2 GiB. */
  lemma TargetFitsIff(c: Block, size: nat, alignment: nat)
    requires ValidRequest(size, alignment) && c.Aligned() && InMemory(c)
    requires c.order == TargetOrder(RequiredSize(size, alignment))
    ensures FitsIn(c, size, alignment) <==> PayloadOffset(alignment) + size <= TWO_GIB
  {
    TargetOrderIs(RequiredSize(size, alignment));
    if RequiredSize(size, alignment) <= TWO_GIB {
      RequiredFits(c, size, alignment);
    } else {
      Pow2Bounds(31);
      FitsInIs(c, size, alignment);
      if alignment <= TWO_GIB {
        PayloadOffsetIs(c, alignment);
      } else {
        PayloadBeyond(c, alignment);
      }
    }
  }

  /** A payload aligned to more than 2 GiB never starts inside a 2 GiB block. */
  lemma PayloadBeyond(c: Block, alignment: nat)
    requires c.Aligned() && InMemory(c) && c.order == 31
    requires TWO_GIB < alignment < 0x8000_0000_0000_0000 && IsPowerOfTwo(alignment)
    ensures UserAddress(c.base, alignment) >= c.Limit()
  {
    var a := AlignmentOrder(alignment);
    Pow2Bounds(a);
    UserAddressIs(c.base, alignment);
    var u := UserAddress(c.base, alignment);
    AlignedDown(u, a, 31);
    if u < c.Limit() { MultipleGap(c.base, u, Pow2(31)); }
  }

  /** Once the buddies have been absorbed and the grown block is not handed out, some of its memory is in no block. */
  lemma LostBuddy(h: Heap, b: Block, r: FreeLists, c: Block)
    requires HeapInv(h) && b in h.owned && b.order < c.order
    requires Keeps(h, Heap(r, h.owned - {b} + {c})) && FreeBlocks(r) <= FreeBlocks(h.free)
    requires c.base <= b.base && b.Limit() <= c.Limit()
    ensures !SameCover(Managed(h), Managed(Heap(r, h.owned)))
  {
    var grown := Managed(Heap(r, h.owned - {b} + {c}));
    Pow2Mono(b.order, c.order);
    var a := if c.base < b.base then c.base else b.Limit();
    assert c.Holds(a) && !b.Holds(a) && c in grown;
    assert Covers(grown, a) && Covers(Managed(h), a);
    assert c !in Managed(h) by {
      assert b in Managed(h) && c.Holds(b.base) && b.Holds(b.base);
      if c in Managed(h) { TilingShares(Managed(h), b, c, b.base); }
    }
    if Covers(Managed(Heap(r, h.owned)), a) {
      var d :| d in Managed(Heap(r, h.owned)) && d.Holds(a);
      assert d == b || d in grown;
      NotOverlapping(grown, c, d, a);
    }
  }

  lemma NotOverlapping(s: set<Block>, c: Block, d: Block, a: nat)
    requires Tiling(s) && c in s && c.Holds(a) && d.Holds(a)
    ensures d in s ==> d == c
  {}

  lemma {:induction false} SplitKeepsFree(ls: FreeLists, b: Block, target: nat, c: Block)
    requires b.order <= MAX_ORDER && IsFree(ls, c)
    ensures IsFree(Split(ls, b, target), c)
    decreases b.order
  {
    if b.order > target {
      var half := b.order - 1;
      SplitKeepsFree(Push(ls, Block(b.base + Pow2(half), half)), Block(b.base, half), target, c);
    }
  }

  /** The last upper half that a split pushes is the buddy of the block it leaves. */
  lemma {:induction false} SplitLeavesBuddy(ls: FreeLists, b: Block, target: nat)
    requires target < b.order <= MAX_ORDER && b.Aligned()
    ensures IsFree(Split(ls, b, target), Block(b.base, target).Buddy())
    decreases b.order
  {
    hide Xor;
    var half := b.order - 1;
    var lower, upper := Block(b.base, half), Block(b.base + Pow2(half), half);
    HalvesAreBuddies(b, lower, upper);
    if half > target {
      SplitLeavesBuddy(Push(ls, upper), lower, target);
    } else {
      SplitKeepsFree(Push(ls, upper), lower, target, upper);
    }
  }

  /** An ALLOCATE that fails its fit check leaves the lists as they were exactly when it did not have to split;
      otherwise it leaves a free buddy pair behind. */
  lemma AllocateFailure(h: Heap, size: nat, alignment: nat, target: nat)
    requires HeapInv(h) && NoBuddies(FreeBlocks(h.free)) && ValidRequest(size, alignment)
    requires target == TargetOrder(RequiredSize(size, alignment)) <= MAX_ORDER && FirstFit(h.free, target) <= MAX_ORDER
    requires PayloadOffset(alignment) + size > TWO_GIB
    ensures var h' := AllocateStep(h, size, alignment);
      && h'.owned == h.owned && SameCover(Managed(h), Managed(h'))
      && (h'.free == h.free <==> FirstFit(h.free, target) == target)
      && (NoBuddies(FreeBlocks(h'.free)) <==> FirstFit(h.free, target) == target)
  {
    TargetOrderIs(RequiredSize(size, alignment));
    var o := FirstFit(h.free, target);
    var b, c := CutKeeps(h, o, target);
    var cut := Split(Pop(h.free, o), b, target);
    TargetFitsIff(c, size, alignment);
    PushBlocks(cut, c);
    assert Managed(Heap(Push(cut, c), h.owned)) == Managed(Heap(cut, h.owned + {c}));
    if o == target {
      PushPop(h.free, o);
    } else {
      assert b in Managed(h);
      SplitLeavesBuddy(Pop(h.free, o), b, target);
      assert !NoBuddies(FreeBlocks(Push(cut, c)));
    }
  }

  /** The state shows beforehand that the operation does no harm: its payload fits, or it neither splits nor merges. */
  predicate Harmless(h: Heap, op: Op) {
    op.Nameable() ||
    match op
    case Allocate(size, alignment) =>
      var target := TargetOrder(RequiredSize(size, alignment));
      TargetOrderIs(RequiredSize(size, alignment));
      FirstFit(h.free, target) == target || FirstFit(h.free, target) > MAX_ORDER
    case Free(_) => true
    case Grow(b, size, alignment) =>
      var target := TargetOrder(RequiredSize(size, alignment));
      TargetOrderIs(RequiredSize(size, alignment));
      !(b in h.owned && b.order < target && CanGrow(h.free, b, target))
  }

  /** Exactly when an operation on a heap without free buddies keeps the invariant, the memory managed and the absence
      of buddies. */
  lemma StepKeepsIff(h: Heap, op: Op)
    requires HeapInv(h) && NoBuddies(FreeBlocks(h.free))
    ensures Keeps(h, Step(h, op)) <==> Harmless(h, op)
  {
    if op.Nameable() {
      StepKeeps(h, op);
    } else if op.Allocate? {
      var target := TargetOrder(RequiredSize(op.size, op.alignment));
      TargetOrderIs(RequiredSize(op.size, op.alignment));
      if FirstFit(h.free, target) <= MAX_ORDER { AllocateFailure(h, op.size, op.alignment, target); }
    } else {
      var target := TargetOrder(RequiredSize(op.size, op.alignment));
      TargetOrderIs(RequiredSize(op.size, op.alignment));
      if op.block in h.owned && op.block.order < target && CanGrow(h.free, op.block, target) {
        GrowLosesMemoryIff(h, op.block, op.size, op.alignment);
      }
    }
  }

  /** Every operation of the run is harmless when its turn comes, as it is if its payload fits in 2 GiB. */
  predicate AllHarmless(h: Heap, ops: seq<Op>)
    decreases |ops|
  {
    ops != [] ==> Harmless(h, ops[0]) && AllHarmless(Step(h, ops[0]), ops[1..])
  }

  lemma {:induction false} RunKeeps(h: Heap, ops: seq<Op>)
    requires HeapInv(h) && NoBuddies(FreeBlocks(h.free)) && AllHarmless(h, ops)
    ensures Keeps(h, Run(h, ops))
    decreases |ops|
  {
    if ops != [] {
      StepKeepsIff(h, ops[0]);
      RunKeeps(Step(h, ops[0]), ops[1..]);
    }
  }

  /** After any run that ends with nothing owned, the free lists hold exactly the blocks they held at the start. */
  lemma RunReturnsToStart(h: Heap, ops: seq<Op>)
    requires HeapInv(h) && NoBuddies(FreeBlocks(h.free)) && h.owned == {} && AllHarmless(h, ops)
    requires Run(h, ops).owned == {}
    ensures FreeBlocks(Run(h, ops).free) == FreeBlocks(h.free)
  {
    RunKeeps(h, ops);
    var e := Run(h, ops);
    assert Managed(h) == FreeBlocks(h.free) && Managed(e) == FreeBlocks(e.free);
    CanonicalTiling(FreeBlocks(h.free), FreeBlocks(e.free));
  }

  // ---------------------------------------------------------------- no block above 2 GiB

  ghost predicate AllSmall(s: set<Block>) {
    forall b <- s :: b.order <= 31
  }

  /** However the memory of fully coalesced blocks of at most 2 GiB is cut up, no larger aligned block fits in it. */
  lemma StaysSmall(s: set<Block>, t: set<Block>)
    requires Tiling(s) && NoBuddies(s) && AllSmall(s) && Tiling(t) && SameCover(s, t)
    ensures AllSmall(t)
  {
    forall b | b in t ensures b.order <= 31 {
      assert Covers(t, b.base);
      var c :| c in s && c.Holds(b.base);
      if b.order > 31 {
        Nested(c, b, b.base);
        forall a: nat | b.Holds(a) ensures Covers(s, a) { assert Covers(t, a); }
        CoveredBySmaller(s, b, c);
      }
    }
  }

  /** Where no block is larger than 2 GiB, ALLOCATE never splits for a request that does not fit in 2 GiB. */
  lemma AllocateHarmless(h: Heap, size: nat, alignment: nat)
    requires AllSmall(FreeBlocks(h.free))
    ensures Harmless(h, Allocate(size, alignment))
  {
    var target := TargetOrder(RequiredSize(size, alignment));
    TargetOrderIs(RequiredSize(size, alignment));
    var o := FirstFit(h.free, target);
    if o <= MAX_ORDER { assert Block(h.free[o][0], o) in FreeBlocks(h.free); }
    if target < 31 && !Fitting(size, alignment) { OffsetWithin(alignment); }
  }

  lemma OffsetWithin(alignment: nat)
    ensures PayloadOffset(alignment) <= alignment + HEADER_SIZE
  {}

  /** Every growth of the run is harmless when its turn comes. */
  predicate GrowthHarmless(h: Heap, ops: seq<Op>)
    decreases |ops|
  {
    ops != [] ==> (ops[0].Grow? ==> Harmless(h, ops[0])) && GrowthHarmless(Step(h, ops[0]), ops[1..])
  }

  /** Then everything else is, too, if the heap was made from blocks of at most 2 GiB. */
  lemma {:induction false} SmallRunHarmless(s: set<Block>, h: Heap, ops: seq<Op>)
    requires Tiling(s) && NoBuddies(s) && AllSmall(s)
    requires HeapInv(h) && NoBuddies(FreeBlocks(h.free)) && SameCover(s, Managed(h)) && GrowthHarmless(h, ops)
    ensures AllHarmless(h, ops)
    decreases |ops|
  {
    hide Harmless;
    if ops != [] {
      StaysSmall(s, Managed(h));
      if ops[0].Allocate? { AllocateHarmless(h, ops[0].size, ops[0].alignment); }
      if ops[0].Free? { FreeHarmless(h, ops[0].block); }
      StepKeepsIff(h, ops[0]);
      SmallRunHarmless(s, Step(h, ops[0]), ops[1..]);
    }
  }

  lemma FreeHarmless(h: Heap, b: Block)
    ensures Harmless(h, Free(b))
  {}

  // ---------------------------------------------------------------- seeding

  datatype Range = Range(start: nat, end: nat) {
    predicate Pages() { start % PAGE == 0 && end % PAGE == 0 && start <= end < U64_LIMIT }
  }

  ghost predicate Seedable(rs: seq<Range>) {
    && (forall r <- rs :: r.Pages() && 0 < r.start && r.end <= MEMORY_LIMIT)
    && (forall i, j :: 0 <= i < j < |rs| ==> rs[i].end < rs[j].start || rs[j].end < rs[i].start)
  }

  /** The lists after `add_region` has been called for every range. */
  function SeedAll(ls: FreeLists, rs: seq<Range>): FreeLists
    requires forall r :: r in rs ==> r.Pages()
    decreases |rs|
  {
    if rs == [] then ls else assert rs[0].Pages(); SeedAll(Seed(ls, rs[0].start, rs[0].end), rs[1..])
  }

  /** Adding one region that does not touch anything the heap already has. */
  lemma SeedKeeps(ls: FreeLists, r: Range)
    requires r.Pages() && 0 < r.start && r.end <= MEMORY_LIMIT
    requires HeapInv(Heap(ls, {})) && NoBuddies(FreeBlocks(ls))
    requires forall b <- FreeBlocks(ls) :: b.Limit() < r.start || r.end < b.base
    ensures HeapInv(Heap(Seed(ls, r.start, r.end), {}))
    ensures NoBuddies(FreeBlocks(Seed(ls, r.start, r.end)))
    ensures forall b <- FreeBlocks(Seed(ls, r.start, r.end)) ::
      b in FreeBlocks(ls) || (r.start <= b.base && b.Limit() <= r.end && b.order <= 31)
  {
    var s, t := FreeBlocks(ls), SeedSet(r.start, r.end);
    assert Managed(Heap(ls, {})) == s;
    SeedAdds(ls, r.start, r.end);
    SeedSetSound(r.start, r.end);
    JoinApart(s, t, r.start, r.end);
    assert Managed(Heap(Seed(ls, r.start, r.end), {})) == s + t;
  }

  lemma JoinApart(s: set<Block>, t: set<Block>, start: nat, end: nat)
    requires Tiling(s) && Tiling(t) && NoBuddies(s) && NoBuddies(t)
    requires forall b <- s :: b.Limit() < start || end < b.base
    requires forall c <- t :: start <= c.base && c.Limit() <= end
    ensures Tiling(s + t) && NoBuddies(s + t)
  {
    forall b, c | b in s && c in t ensures Disjoint(b, c) && Apart(b, c) {}
    JoinTilings(s, t);
    forall b | b in s + t ensures b.Buddy() !in s + t {
      var c := b.Buddy();
      if b in s && c in t { ApartNotBuddies(b, c); }
      if b in t && c in s { ApartNotBuddies(c, b); }
    }
  }

  ghost predicate Apart(b: Block, c: Block) { b.Limit() < c.base || c.Limit() < b.base }

  lemma JoinTilings(s: set<Block>, t: set<Block>)
    requires Tiling(s) && Tiling(t)
    requires forall b, c :: b in s && c in t ==> Disjoint(b, c)
    ensures Tiling(s + t)
  {}

  lemma ApartNotBuddies(b: Block, c: Block)
    requires b.Aligned() && c.Aligned() && Apart(b, c)
    ensures b.Buddy() != c && c.Buddy() != b
  {
    BuddyBeside(b);
    BuddyBeside(c);
  }

  /** Seeding regions that do not touch one another leaves an invariant heap without buddy pairs. */
  lemma {:induction false} SeedAllSound(ls: FreeLists, rs: seq<Range>)
    requires Seedable(rs) && HeapInv(Heap(ls, {})) && NoBuddies(FreeBlocks(ls)) && AllSmall(FreeBlocks(ls))
    requires forall i, b :: 0 <= i < |rs| && b in FreeBlocks(ls) ==> b.Limit() < rs[i].start || rs[i].end < b.base
    ensures HeapInv(Heap(SeedAll(ls, rs), {})) && NoBuddies(FreeBlocks(SeedAll(ls, rs)))
    ensures AllSmall(FreeBlocks(SeedAll(ls, rs)))
    decreases |rs|
  {
    if rs != [] {
      SeedKeeps(ls, rs[0]);
      var ls1 := Seed(ls, rs[0].start, rs[0].end);
      forall i, b | 0 <= i < |rs[1..]| && b in FreeBlocks(ls1)
        ensures b.Limit() < rs[1..][i].start || rs[1..][i].end < b.base
      {
        assert rs[1..][i] == rs[i + 1];
      }
      SeedAllSound(ls1, rs[1..]);
    }
  }

  function NoLists(): (ls: FreeLists)
    ensures FreeBlocks(ls) == {}
  {
    seq(MAX_ORDER + 1, _ => [])
  }

  /** The whole life of a heap: cleared, seeded with regions that do not touch, used in any way that does not grow a
      block for a payload that does not fit, and emptied. Its free lists then hold exactly the blocks that `add_region`
      first built. */
  lemma EmptiedHeapIsAsSeeded(rs: seq<Range>, ops: seq<Op>)
    requires Seedable(rs) && GrowthHarmless(Heap(SeedAll(NoLists(), rs), {}), ops)
    requires Run(Heap(SeedAll(NoLists(), rs), {}), ops).owned == {}
    ensures FreeBlocks(Run(Heap(SeedAll(NoLists(), rs), {}), ops).free) == FreeBlocks(SeedAll(NoLists(), rs))
  {
    var h := Heap(SeedAll(NoLists(), rs), {});
    assert HeapInv(Heap(NoLists(), {}));
    SeedAllSound(NoLists(), rs);
    assert Managed(h) == FreeBlocks(h.free);
    SmallRunHarmless(FreeBlocks(h.free), h, ops);
    RunReturnsToStart(h, ops);
  }
}
