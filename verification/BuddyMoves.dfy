/** Where RESIZE moves a payload, and what its last write does to it. */
module BuddyMoves {
  import opened Bits
  import opened BuddyBlocks
  import opened BuddyLists
  import opened BuddySeed
  import opened BuddyRuns
  import opened Memory
  import opened BuddyState

  // ---------------------------------------------------------------- distances

  /** Payloads start at multiples of 32, whatever the alignment. */
  lemma PayloadMultiple(b: Block, alignment: nat)
    requires b.Aligned() && InMemory(b) && IsPowerOfTwo(alignment) && alignment < 0x8000_0000_0000_0000
    ensures UserAddress(b.base, alignment) % 32 == 0
  {
    var a := AlignmentOrder(alignment);
    var u := UserAddress(b.base, alignment);
    assert Pow2(5) == 32;
    UserAddressIs(b.base, alignment);
    if a >= 5 {
      AlignedDown(u, a, 5);
    } else {
      PageAligned(b);
      HeaderAligned(b.base, a);
      AlignUpLeast(b.base + HEADER_SIZE, a, b.base + HEADER_SIZE);
    }
  }

  lemma HeaderAligned(base: nat, a: nat)
    requires base % PAGE == 0 && a <= 5
    ensures (base + HEADER_SIZE) % Pow2(a) == 0 && (base + HEADER_SIZE) % 32 == 0
  {
    PageThen32(base);
    Aligned32(base + HEADER_SIZE, a);
  }

  lemma PageThen32(base: nat)
    requires base % PAGE == 0
    ensures (base + HEADER_SIZE) % 32 == 0
  {
    var q := base / PAGE;
    assert base == 4096 * q;
    ModUnique(base + HEADER_SIZE, 32, 128 * q + 1, 0);
  }

  lemma Aligned32(x: nat, a: nat)
    requires x % 32 == 0 && a <= 5
    ensures x % Pow2(a) == 0
  {
    assert Pow2(5) == 32;
    AlignedDown(x, 5, a);
  }

  /** A grown block starts its payload at the old payload, or at least a header below it. */
  lemma MoveDistance(p: nat, b: Block, oldAlignment: nat, c: Block, alignment: nat)
    requires b.Aligned() && InMemory(b) && c.Aligned() && InMemory(c) && c.base <= b.base
    requires IsPowerOfTwo(oldAlignment) && oldAlignment < 0x8000_0000_0000_0000
    requires p == UserAddress(b.base, oldAlignment)
    requires IsPowerOfTwo(alignment) && alignment < 0x8000_0000_0000_0000 && p % alignment == 0
    ensures var q := UserAddress(c.base, alignment); q == p || q + 32 <= p
  {
    var a := AlignmentOrder(alignment);
    var q := UserAddress(c.base, alignment);
    UserAddressRange(b.base, oldAlignment);
    PayloadMultiple(b, oldAlignment);
    PayloadMultiple(c, alignment);
    AlignUpLeast(c.base + HEADER_SIZE, a, p);
    MultiplesApart(q, p);
  }

  lemma MultiplesApart(x: nat, y: nat)
    requires x % 32 == 0 && y % 32 == 0 && x <= y
    ensures x == y || x + 32 <= y
  {}

  /** An aligned payload pointer lies inside its block, so neither its own alignment nor the one asked of it exceeds the
      block size. */
  lemma AlignmentWithin(p: nat, a: Allocation, alignment: nat) returns (k: nat)
    requires Placed(p, a) && a.block.Aligned()
    requires IsPowerOfTwo(alignment) && alignment < 0x8000_0000_0000_0000 && p % alignment == 0
    ensures alignment == Pow2(k) && k < a.block.order && alignment <= a.block.Size()
  {
    k := AlignmentOrder(alignment);
    if k >= a.block.order {
      AlignedDown(p, k, a.block.order);
      MultipleGap(a.block.base, p, a.block.Size());
    }
    Pow2Mono(k, a.block.order);
  }

  /** Where the payload lies in its block and where it will lie in the grown one. */
  lemma OldAndNewOffset(p: nat, a: Allocation, c: Block, alignment: nat)
    requires Placed(p, a) && a.block.Aligned() && InMemory(a.block) && c.Aligned() && InMemory(c)
    requires a.block.order <= c.order
    requires IsPowerOfTwo(alignment) && alignment < 0x8000_0000_0000_0000 && p % alignment == 0
    ensures p == a.block.base + PayloadOffset(a.alignment)
    ensures UserAddress(c.base, alignment) == c.base + PayloadOffset(alignment)
    ensures PayloadOffset(alignment) <= PayloadOffset(a.alignment)
  {
    var k := AlignmentWithin(p, a, alignment);
    UserAddressIs(a.block.base, a.alignment);
    var j := AlignmentWithin(p, a, a.alignment);
    Pow2Mono(a.block.order, c.order);
    PayloadOffsetIs(a.block, a.alignment);
    PayloadOffsetIs(c, alignment);
    AlignedDown(a.block.base, a.block.order, k);
    ModSub(p, a.block.base, alignment);
    AlignmentDivides(PayloadOffset(a.alignment), alignment);
  }

  lemma AlignmentDivides(offset: nat, alignment: nat)
    requires alignment > 0 && offset >= HEADER_SIZE && offset % alignment == 0
    ensures PayloadOffset(alignment) <= offset
  {
    if offset < alignment { ModUnique(offset, alignment, 0, offset); }
  }

  // ---------------------------------------------------------------- the payload

  /** The number of payload bytes RESIZE copies when the payload moves. */
  function CopyLength(oldSize: int, size: nat): nat {
    if oldSize <= 0 then 0 else if oldSize < size then oldSize else size
  }

  /** What address `x` of the new payload holds after RESIZE has moved it from `p` to `q`: the old byte, except where
      the retired header's state byte lies inside the new payload. */
  function MovedByte(m: Mem, p: nat, q: nat, x: nat): Byte
    requires q <= x
  {
    if q != p && x == p - 23 then FREED else m(p + (x - q))
  }

  /** The whole old payload is found at the new place. */
  ghost predicate PayloadIntact(m: Mem, m': Mem, p: nat, q: nat, n: nat) {
    forall x: nat :: q <= x < q + n ==> m'(x) == m(p + (x - q))
  }

  ghost predicate PayloadMoved(m: Mem, m': Mem, p: nat, q: nat, n: nat) {
    forall x: nat :: q <= x < q + n ==> m'(x) == MovedByte(m, p, q, x)
  }

  /** RESIZE carries over as many bytes as it is told the payload had, up to the new size. */
  ghost predicate Carried(m: Mem, m': Mem, p: nat, q: nat, oldSize: int, size: nat) {
    forall x: nat :: q <= x && x < q + oldSize && x < q + size ==> m'(x) == MovedByte(m, p, q, x)
  }

  /** The same for the bytes that came from the old block `b`. */
  ghost predicate CarriedFrom(m: Mem, m': Mem, b: Block, p: nat, q: nat, oldSize: int, size: nat) {
    forall x: nat :: q <= x && x < q + oldSize && x < q + size && p + (x - q) < b.Limit() ==>
      m'(x) == MovedByte(m, p, q, x)
  }

  /** What it writes to: the new header at `q`, these bytes if the payload moves, the old state byte, and links. */
  predicate Written(p: nat, q: nat, oldSize: int, size: nat, x: nat) {
    || q - HEADER_SIZE <= x < q
    || (q != p && q <= x && x < q + oldSize && x < q + size)
    || x == p - 23
    || InLink(x)
  }

  /** It writes to nothing else. */
  ghost predicate RestUntouched(m: Mem, m': Mem, p: nat, q: nat, oldSize: int, size: nat) {
    forall x: nat :: Written(p, q, oldSize, size, x) || m'(x) == m(x)
  }

  lemma CopiedIsCarried(m: Mem, m': Mem, p: nat, q: nat, oldSize: int, size: nat)
    requires PayloadMoved(m, m', p, q, CopyLength(oldSize, size))
    ensures Carried(m, m', p, q, oldSize, size)
  {}

  /** What becomes of the recorded payload if RESIZE is told its size, or less: it is found at `q` exactly if the block
      grew downwards, or if it survives the mark. */
  ghost predicate PayloadFate(m: Mem, m': Mem, p: nat, a: Allocation, c: Block, q: nat, alignment: nat, oldSize: int,
                              size: nat)
  {
    0 <= oldSize <= size && oldSize <= a.size ==>
      (PayloadIntact(m, m', p, q, oldSize) <==>
       c.base != a.block.base || Survives(m, p, PayloadOffset(a.alignment), PayloadOffset(alignment), oldSize))
  }

  lemma PayloadFateIs(m: Mem, m': Mem, p: nat, a: Allocation, c: Block, alignment: nat, oldSize: int, size: nat)
    requires Placed(p, a) && a.block.Aligned() && InMemory(a.block) && InMemory(c)
    requires a.block.order <= c.order && c == Grown(a.block, c.order)
    requires IsPowerOfTwo(alignment) && alignment < 0x8000_0000_0000_0000 && p % alignment == 0
    requires CarriedFrom(m, m', a.block, p, UserAddress(c.base, alignment), oldSize, size)
    ensures PayloadFate(m, m', p, a, c, UserAddress(c.base, alignment), alignment, oldSize, size)
  {
    hide PayloadIntact;
    hide Survives;
    if 0 <= oldSize <= size && oldSize <= a.size {
      GrowKeepsPayloadIff(m, m', p, a, c, alignment, oldSize);
    }
  }

  /** Exactly when growing keeps the payload: it did not move, or it ends below the retired state byte, or that byte
      already had the value it is overwritten with. */
  lemma PayloadIntactIff(m: Mem, m': Mem, p: nat, q: nat, n: nat)
    requires p >= HEADER_SIZE && (q == p || q + 32 <= p) && PayloadMoved(m, m', p, q, n)
    ensures PayloadIntact(m, m', p, q, n) <==> q == p || q + n <= p - 23 || m(p + (p - 23 - q)) == FREED
  {
    if q != p && p - 23 < q + n {
      assert m'(p - 23) == MovedByte(m, p, q, p - 23);
    }
  }

  /** `n` payload bytes are not hurt by moving from offset `from` to offset `to` in a block that keeps its base. */
  predicate Survives(m: Mem, p: nat, from: nat, to: nat, n: nat) {
    to == from || to + n <= from - 23 || (p + from >= to + 23 && m(p + from - to - 23) == FREED)
  }

  /** Exactly when growing keeps the `n` bytes of a payload: the block grew downwards, or the payload stays where it is,
      or it ends below the byte that is marked FREED, or that byte of the payload is 0x5A anyway. */
  lemma GrowKeepsPayloadIff(m: Mem, m': Mem, p: nat, a: Allocation, c: Block, alignment: nat, n: nat)
    requires Placed(p, a) && a.block.Aligned() && InMemory(a.block) && InMemory(c)
    requires a.block.order <= c.order && c == Grown(a.block, c.order)
    requires IsPowerOfTwo(alignment) && alignment < 0x8000_0000_0000_0000 && p % alignment == 0
    requires n <= a.size && PayloadKept(m, m', a.block, p, UserAddress(c.base, alignment), n)
    ensures PayloadIntact(m, m', p, UserAddress(c.base, alignment), n) <==>
      c.base != a.block.base || Survives(m, p, PayloadOffset(a.alignment), PayloadOffset(alignment), n)
  {
    GrownBase(a.block, c.order);
    OldAndNewOffset(p, a, c, alignment);
    MoveDistance(p, a.block, a.alignment, c, alignment);
    PayloadIntactIff(m, m', p, UserAddress(c.base, alignment), n);
  }

  // ---------------------------------------------------------------- the state after RESIZE

  /** `m'` is `m` with `n` bytes copied. */
  ghost predicate Copied(m: Mem, m': Mem, from: nat, to: nat, n: nat) {
    forall x: nat {:trigger m'(x)} :: m'(x) == if to <= x < to + n then m(from + (x - to)) else m(x)
  }

  /** Copying the next bytes, which must not yet have been written to. */
  lemma CopiedMore(m: Mem, m': Mem, from: nat, to: nat, n: nat, bytes: seq<Byte>)
    requires Copied(m, m', from, to, n) && to + |bytes| <= from
    requires forall i :: 0 <= i < |bytes| ==> bytes[i] == m'(from + n + i)
    ensures Copied(m, Store(m', to + n, bytes), from, to, n + |bytes|)
  {
    var m2 := Store(m', to + n, bytes);
    forall x: nat
      ensures m2(x) == if to <= x < to + n + |bytes| then m(from + (x - to)) else m(x)
    {
      if to + n <= x < to + n + |bytes| {
        assert bytes[x - (to + n)] == m'(from + n + (x - (to + n)));
        assert m'(from + (x - to)) == m(from + (x - to));
      } else {
        assert m2(x) == m'(x);
      }
    }
  }

  lemma CopiedNone(m: Mem, from: nat, to: nat)
    ensures Copied(m, m, from, to, 0)
  {}

  lemma CopiedTwice(m: Mem, m1: Mem, m2: Mem, from: nat, to: nat, n: nat, k: nat)
    requires Copied(m, m1, from, to, n) && Copied(m1, m2, from + n, to + n, k) && to <= from
    ensures Copied(m, m2, from, to, n + k)
  {
    forall x: nat ensures m2(x) == if to <= x < to + n + k then m(from + (x - to)) else m(x) {
      if to + n <= x < to + n + k { assert m1(from + n + (x - (to + n))) == m(from + (x - to)); }
    }
  }

  /** The new header has been written, and the payload copied if it moves. */
  ghost predicate Moved(m: Mem, m': Mem, p: nat, q: nat, c: Block, size: nat, alignment: nat, n: nat) {
    p >= HEADER_SIZE && q >= HEADER_SIZE && c.order <= MAX_ORDER
    && Copied(WriteHeader(m, q, c, size, alignment), m', p, q, if q == p then 0 else n)
  }

  /** The header that RESIZE leaves, its last write included: live exactly if the payload has moved. */
  lemma RegrownHeader(m: Mem, m2: Mem, p: nat, q: nat, c: Block, size: nat, alignment: nat, n: nat)
    requires Moved(m, m2, p, q, c, size, alignment, n) && (q == p || q + 32 <= p)
    requires c.base < U64_LIMIT && size < U64_LIMIT && alignment < U64_LIMIT
    ensures HeaderIs(Store(m2, p - 23, [FREED]), q, Allocation(c, size, alignment, q != p))
  {
    hide WriteHeader;
    var m1 := WriteHeader(m, q, c, size, alignment);
    var m3 := Store(m2, p - 23, [FREED]);
    HeaderWritten(m, q, c, size, alignment);
    forall x: nat | q - 32 <= x < q && x != p - 23 ensures m1(x) == m3(x) {
      assert m3(x) == m2(x);
    }
    LoadSame(m1, m3, q - 32);
    LoadSame(m1, m3, q - 16);
    LoadSame(m1, m3, q - 8);
  }

  /** Exactly when the grown block is left with a live header. Growing in place, the usual case, leaves a header that a
      later FREE takes for a double free. `m` is the memory once the buddies are unlinked, `m2` the one before the last
      write of RESIZE. */
  lemma GrownIsLiveIff(m: Mem, m2: Mem, p: nat, a: Allocation, c: Block, size: nat, alignment: nat, n: nat)
    requires Placed(p, a) && a.block.Aligned() && InMemory(a.block) && InMemory(c)
    requires a.block.order <= c.order && c == Grown(a.block, c.order)
    requires ValidRequest(size, alignment) && p % alignment == 0
    requires Moved(m, m2, p, UserAddress(c.base, alignment), c, size, alignment, n)
    ensures StateIs(Store(m2, p - 23, [FREED]), UserAddress(c.base, alignment), LIVE) <==>
      c.base != a.block.base || PayloadOffset(alignment) != PayloadOffset(a.alignment)
  {
    hide UserAddress;
    hide Moved;
    GrownBase(a.block, c.order);
    OldAndNewOffset(p, a, c, alignment);
    MoveDistance(p, a.block, a.alignment, c, alignment);
    InMemoryOrder(c);
    RegrownHeader(m, m2, p, UserAddress(c.base, alignment), c, size, alignment, n);
  }

  lemma RegrownPayload(m: Mem, m2: Mem, p: nat, q: nat, c: Block, size: nat, alignment: nat, n: nat)
    requires Moved(m, m2, p, q, c, size, alignment, n) && (q == p || q + 32 <= p)
    ensures PayloadMoved(m, Store(m2, p - 23, [FREED]), p, q, n)
  {
    hide WriteHeader;
    var m3 := Store(m2, p - 23, [FREED]);
    forall x: nat | q <= x < q + n ensures m3(x) == MovedByte(m, p, q, x) {
      HeaderLocal(m, q, c, size, alignment, p + (x - q));
    }
  }

  lemma RegrownRest(m: Mem, m1: Mem, m2: Mem, p: nat, q: nat, c: Block, size: nat, alignment: nat, oldSize: int)
    requires LinksOnly(m, m1) && Moved(m1, m2, p, q, c, size, alignment, CopyLength(oldSize, size))
    ensures RestUntouched(m, Store(m2, p - 23, [FREED]), p, q, oldSize, size)
  {
    hide WriteHeader;
    hide InLink;
    var m3 := Store(m2, p - 23, [FREED]);
    forall x: nat | !Written(p, q, oldSize, size, x) ensures m3(x) == m(x) {
      assert m3(x) == m2(x);
      HeaderLocal(m1, q, c, size, alignment, x);
    }
  }

  lemma RegrownLocal(m: Mem, m2: Mem, p: nat, q: nat, c: Block, size: nat, alignment: nat, n: nat)
    requires Moved(m, m2, p, q, c, size, alignment, n) && (q == p || q + 32 <= p) && n <= size
    requires c.base + HEADER_SIZE <= q && q + size <= c.Limit() && c.base + 32 <= p < c.Limit()
    ensures SameOutside(m, Store(m2, p - 23, [FREED]), {c})
  {
    hide WriteHeader;
    var m3 := Store(m2, p - 23, [FREED]);
    forall x: nat | !Covers({c}, x) ensures m(x) == m3(x) {
      assert !c.Holds(x);
      assert m3(x) == m2(x);
      HeaderLocal(m, q, c, size, alignment, x);
    }
  }

  /** A payload moved out of the old block, seen from before the buddies were unlinked. */
  lemma PayloadFrom(m: Mem, m1: Mem, m2: Mem, s: set<Block>, b: Block, p: nat, q: nat, oldSize: int, size: nat)
    requires SameOutside(m, m1, s) && (forall c <- s :: Disjoint(b, c)) && b.base + HEADER_SIZE <= p
    requires Carried(m1, m2, p, q, oldSize, size)
    ensures CarriedFrom(m, m2, b, p, q, oldSize, size)
  {
    forall x: nat | q <= x && x < q + oldSize && x < q + size && p + (x - q) < b.Limit()
      ensures m2(x) == MovedByte(m, p, q, x)
    {
      assert b.Holds(p + (x - q));
      assert !Covers(s, p + (x - q));
    }
  }

  /** The first `n` bytes of the payload, those that came from the old block `b`. */
  ghost predicate PayloadKept(m: Mem, m': Mem, b: Block, p: nat, q: nat, n: nat) {
    forall x: nat :: q <= x < q + n && p + (x - q) < b.Limit() ==> m'(x) == MovedByte(m, p, q, x)
  }

  /** The blocks written to by a RESIZE that grows: the free blocks and the block itself. */
  lemma GrownCover(ls: FreeLists, b: Block, target: nat)
    requires Freeable(ls, b) && b.order <= target <= MAX_ORDER && CanGrow(ls, b, target)
    ensures forall x: nat :: Covers({Grown(b, target)}, x) ==> Covers(FreeBlocks(ls) + {b}, x)
  {
    AbsorbSound(ls, b, target);
    CoverUnion(FreeBlocks(Absorb(ls, b, target)), {Grown(b, target)});
  }

  /** The lists and the owned blocks once the buddies have been absorbed, before anything is written to the grown
      block. */
  lemma AbsorbedBeside(m: Mem, heads: seq<nat>, ls: FreeLists, owned: map<nat, Allocation>, p: nat, target: nat)
    requires ValidState(m, heads, ls, owned) && p in owned
    requires owned[p].block.order < target <= MAX_ORDER && CanGrow(ls, owned[p].block, target)
    ensures var c, r, rest := Grown(owned[p].block, target), Absorb(ls, owned[p].block, target), owned - {p};
      && Freeable(ls, owned[p].block) && c.Aligned() && InMemory(c)
      && HeapInv(Heap(r, OwnedBlocks(rest) + {c})) && c !in OwnedBlocks(rest) && OneBlockEach(rest)
      && OwnedBlocks(rest) == OwnedBlocks(owned) - {owned[p].block}
      && (forall d :: d in FreeBlocks(r) ==> Disjoint(c, d))
      && (forall q, d :: q in rest && d in {c} ==> Disjoint(d, rest[q].block))
      && c.base <= owned[p].block.base && owned[p].block.Limit() <= c.Limit()
  {
    var h, b, rest := Heap(ls, OwnedBlocks(owned)), owned[p].block, owned - {p};
    var c, r := Grown(b, target), Absorb(ls, b, target);
    assert b in OwnedBlocks(owned);
    OwnedFreeable(h, b);
    GrowBlockKeeps(h, b, target);
    OwnedBlocksWithout(owned, p);
    OwnedBeside(ls, owned, p);
    var g := Heap(r, OwnedBlocks(rest) + {c});
    assert c in Managed(g);
    assert c !in OwnedBlocks(rest) by { NotOwned(h, b, c); }
    forall d | d in FreeBlocks(r) ensures Disjoint(c, d) { assert d in Managed(g); }
    forall q | q in rest ensures Disjoint(c, rest[q].block) {
      assert rest[q].block in OwnedBlocks(rest) && rest[q].block in Managed(g);
    }
  }

  lemma NotOwned(h: Heap, b: Block, c: Block)
    requires HeapInv(h) && b in h.owned && c.base <= b.base && b.Limit() <= c.Limit()
    ensures c !in h.owned - {b}
  {
    assert b in Managed(h);
    assert c in h.owned - {b} ==> c in Managed(h) && Disjoint(b, c);
  }

  /** `c` is the block of pointer `p` grown to its order, `r` the lists without the buddies it absorbed. */
  ghost predicate Growing(ls: FreeLists, owned: map<nat, Allocation>, p: nat, c: Block, r: FreeLists) {
    && p in owned && owned[p].block.order < c.order <= MAX_ORDER && CanGrow(ls, owned[p].block, c.order)
    && c == Grown(owned[p].block, c.order) && r == Absorb(ls, owned[p].block, c.order)
  }

  /** Where the payload goes, and that it fits there. */
  lemma NewPayload(m: Mem, heads: seq<nat>, ls: FreeLists, owned: map<nat, Allocation>, p: nat, c: Block, r: FreeLists,
                   q: nat, size: nat, alignment: nat)
    requires ValidState(m, heads, ls, owned) && Growing(ls, owned, p, c, r)
    requires ValidRequest(size, alignment) && p % alignment == 0
    requires q == UserAddress(c.base, alignment) && FitsIn(c, size, alignment)
    ensures p >= HEADER_SIZE && q >= HEADER_SIZE && (q == p || q + 32 <= p)
    ensures c.base < U64_LIMIT && c.base + HEADER_SIZE <= q && q + size <= c.Limit() && c.base + 32 <= p < c.Limit()
    ensures Placed(q, Allocation(c, size, alignment, q != p))
  {
    AbsorbedBeside(m, heads, ls, owned, p, c.order);
    OldPlaced(m, owned, p);
    NewPlaced(c, q, size, alignment, Allocation(c, size, alignment, q != p));
    OwnedInMemory(ls, owned, p);
    MoveDistance(p, owned[p].block, owned[p].alignment, c, alignment);
  }

  lemma GrownFate(m: Mem, heads: seq<nat>, ls: FreeLists, owned: map<nat, Allocation>, p: nat, c: Block, r: FreeLists,
                  m2: Mem, alignment: nat, oldSize: int, size: nat)
    requires ValidState(m, heads, ls, owned) && Growing(ls, owned, p, c, r)
    requires ValidRequest(size, alignment) && p % alignment == 0
    requires CarriedFrom(m, m2, owned[p].block, p, UserAddress(c.base, alignment), oldSize, size)
    ensures PayloadFate(m, m2, p, owned[p], c, UserAddress(c.base, alignment), alignment, oldSize, size)
  {
    hide CarriedFrom;
    hide PayloadFate;
    AbsorbedBeside(m, heads, ls, owned, p, c.order);
    OldPlaced(m, owned, p);
    OwnedInMemory(ls, owned, p);
    PayloadFateIs(m, m2, p, owned[p], c, alignment, oldSize, size);
  }

  /** The state after a RESIZE that moves pointer `p` to `q` in the grown block `c`. */
  lemma ResizeDone(m: Mem, heads: seq<nat>, ls: FreeLists, owned: map<nat, Allocation>, p: nat, b: Block, c: Block,
                   r: FreeLists, m1: Mem, heads1: seq<nat>, q: nat, a: Allocation, m2: Mem)
    requires p in owned && owned[p].block == b && a.block == c && c.Holds(q)
    requires ValidState(m, heads, ls, owned) && Growing(ls, owned, p, c, r)
    requires ListsOk(m1, heads1, r) && SameOutside(m, m1, FreeBlocks(ls)) && SameOutside(m1, m2, {c})
    requires AllocationOk(m2, q, a)
    ensures SameOutside(m, m2, FreeBlocks(ls) + {b}) && q !in owned - {p}
    ensures ValidState(m2, heads1, r, (owned - {p})[q := a])
  {
    hide AllocationOk;
    hide ListsOk;
    hide SameOutside;
    hide Disjoint;
    var rest := owned - {p};
    AbsorbedBeside(m, heads, ls, owned, p, c.order);
    GrownFrames(m, m1, m2, ls, b, c);
    ListsAfterGrowth(m1, m2, heads1, r, OwnedBlocks(rest) + {c}, c);
    RestSame(m, m1, m2, ls, owned, p, c);
    FreshInGrown(m2, rest, c, q);
    OwnedWith(m2, rest, q, a);
  }

  /** The blocks owned after such a RESIZE. */
  lemma ResizedBlocks(m: Mem, heads: seq<nat>, ls: FreeLists, owned: map<nat, Allocation>, p: nat, b: Block, c: Block,
                      r: FreeLists, q: nat, a: Allocation)
    requires p in owned && owned[p].block == b && a.block == c && c.Holds(q)
    requires ValidState(m, heads, ls, owned) && Growing(ls, owned, p, c, r)
    ensures OwnedBlocks((owned - {p})[q := a]) == OwnedBlocks(owned) - {b} + {c}
  {
    hide AllocationOk;
    hide ListsOk;
    hide Disjoint;
    var rest := owned - {p};
    AbsorbedBeside(m, heads, ls, owned, p, c.order);
    FreshInGrown(m, rest, c, q);
    OwnedBlocksWith(rest, q, a);
  }

  lemma GrownFrames(m: Mem, m1: Mem, m2: Mem, ls: FreeLists, b: Block, c: Block)
    requires Freeable(ls, b) && b.order <= c.order <= MAX_ORDER && CanGrow(ls, b, c.order) && c == Grown(b, c.order)
    requires SameOutside(m, m1, FreeBlocks(ls)) && SameOutside(m1, m2, {c})
    ensures SameOutside(m, m2, FreeBlocks(ls) + {b})
  {
    GrownCover(ls, b, c.order);
    CoverUnion(FreeBlocks(ls), {b});
    SameOutsideWider(m, m1, FreeBlocks(ls), FreeBlocks(ls) + {b});
    SameOutsideTrans(m, m1, m2, FreeBlocks(ls) + {b}, {c});
  }

  lemma ListsAfterGrowth(m1: Mem, m2: Mem, heads1: seq<nat>, r: FreeLists, owned: set<Block>, c: Block)
    requires ListsOk(m1, heads1, r) && SameOutside(m1, m2, {c}) && HeapInv(Heap(r, owned))
    requires forall d :: d in FreeBlocks(r) ==> Disjoint(c, d)
    ensures ListsOk(m2, heads1, r)
  {
    FreeInMemory(Heap(r, owned));
    ListsSame(m1, m2, heads1, r, {c});
  }

  lemma NewPlaced(c: Block, q: nat, size: nat, alignment: nat, a: Allocation)
    requires InMemory(c) && ValidRequest(size, alignment) && q == UserAddress(c.base, alignment)
    requires FitsIn(c, size, alignment) && a.block == c && a.size == size && a.alignment == alignment
    ensures Placed(q, a) && q >= HEADER_SIZE && c.order <= MAX_ORDER && c.base < U64_LIMIT
  {
    InMemoryOrder(c);
    UserAddressRange(c.base, alignment);
    FitsInIs(c, size, alignment);
  }

  /** The other allocations are untouched both by the unlinking and by the writes to the grown block. */
  lemma RestSame(m: Mem, m1: Mem, m2: Mem, ls: FreeLists, owned: map<nat, Allocation>, p: nat, c: Block)
    requires OwnedOk(m, owned) && p in owned && HeapInv(Heap(ls, OwnedBlocks(owned)))
    requires SameOutside(m, m1, FreeBlocks(ls)) && SameOutside(m1, m2, {c})
    requires forall q, d :: q in owned - {p} && d in {c} ==> Disjoint(d, (owned - {p})[q].block)
    ensures OwnedOk(m2, owned - {p})
  {
    hide AllocationOk;
    OwnedBlocksWithout(owned, p);
    OthersBeside(ls, owned, p);
    OwnedSame(m, m1, owned - {p}, FreeBlocks(ls));
    OwnedSame(m1, m2, owned - {p}, {c});
  }

  lemma FreshInGrown(m: Mem, rest: map<nat, Allocation>, c: Block, q: nat)
    requires OwnedOk(m, rest) && c.Holds(q)
    requires forall p, d :: p in rest && d in {c} ==> Disjoint(d, rest[p].block)
    ensures q !in rest
  {
    hide AllocationOk;
    if q in rest {
      OldPlaced(m, rest, q);
      assert Disjoint(c, rest[q].block) by { assert c in {c}; }
      PayloadInBlock(q, rest[q], c);
    }
  }

  /** The state after RESIZE has absorbed the buddies and then given up. */
  lemma ResizeGaveUp(m: Mem, heads: seq<nat>, ls: FreeLists, owned: map<nat, Allocation>, p: nat, c: Block,
                     r: FreeLists, m1: Mem, heads1: seq<nat>)
    requires ValidState(m, heads, ls, owned) && Growing(ls, owned, p, c, r)
    requires ListsOk(m1, heads1, r) && SameOutside(m, m1, FreeBlocks(ls))
    ensures ValidState(m1, heads1, r, owned)
  {
    var h, b := Heap(ls, OwnedBlocks(owned)), owned[p].block;
    assert b in OwnedBlocks(owned);
    OwnedFreeable(h, b);
    AbsorbSound(ls, b, c.order);
    assert Managed(Heap(r, h.owned)) <= Managed(h);
    TilingSubset(Managed(h), Managed(Heap(r, h.owned)));
    forall q, d | q in owned && d in FreeBlocks(ls) ensures Disjoint(d, owned[q].block) {
      OwnedBeside(ls, owned, q);
    }
    OwnedSame(m, m1, owned, FreeBlocks(ls));
  }

  /** The state after RESIZE has only recorded a new size. */
  lemma ResizedInPlace(m: Mem, heads: seq<nat>, ls: FreeLists, owned: map<nat, Allocation>, p: nat, size: nat)
    requires ValidState(m, heads, ls, owned) && p in owned
    requires 0 < size < 0x8000_0000_0000_0000 && p + size <= owned[p].block.Limit()
    ensures p >= HEADER_SIZE
    ensures var a := owned[p].(size := size);
      && ValidState(Store64(m, p - 16, size), heads, ls, owned[p := a])
      && OwnedBlocks(owned[p := a]) == OwnedBlocks(owned)
  {
    hide HeaderIs;
    hide UserAddress;
    hide IsPowerOfTwo;
    hide HeapInv;
    hide ListsOk;
    var a, m' := owned[p].(size := size), Store64(m, p - 16, size);
    OldPlaced(m, owned, p);
    assert AllocationOk(m, p, owned[p]);
    StoreWordInside(m, p - 16, size, {a.block}, a.block);
    OwnedBlockIsLocal(m, m', heads, ls, owned, p);
    SizeWritten(m, p, owned[p], size);
    SameOwnedBlocks(owned, p, a);
    assert AllocationOk(m', p, a);
  }

  lemma SizeWritten(m: Mem, p: nat, a: Allocation, size: nat)
    requires p >= HEADER_SIZE && HeaderIs(m, p, a) && size < U64_LIMIT
    ensures HeaderIs(Store64(m, p - 16, size), p, a.(size := size))
  {
    LoadStored(m, p - 16, size);
    LoadElsewhere(m, p - 16, size, p - 32);
    LoadElsewhere(m, p - 16, size, p - 8);
  }

  lemma SameOwnedBlocks(owned: map<nat, Allocation>, p: nat, a: Allocation)
    requires OneBlockEach(owned) && p in owned && a.block == owned[p].block
    ensures OwnedBlocks(owned[p := a]) == OwnedBlocks(owned) && OneBlockEach(owned[p := a])
  {
    var o := owned[p := a];
    forall b | b in OwnedBlocks(owned) ensures b in OwnedBlocks(o) {
      var q :| q in owned && owned[q].block == b;
      assert q in o && o[q].block == b;
    }
    forall b | b in OwnedBlocks(o) ensures b in OwnedBlocks(owned) {
      var q :| q in o && o[q].block == b;
      assert q in owned && owned[q].block == b;
    }
  }

  /** What RESIZE reads from the header of a pointer of its own. */
  lemma ReadHeader(m: Mem, heads: seq<nat>, ls: FreeLists, owned: map<nat, Allocation>, p: nat)
    requires ValidState(m, heads, ls, owned) && p in owned
    ensures p >= HEADER_SIZE && HeaderIs(m, p, owned[p]) && p < owned[p].block.Limit() < U64_LIMIT
    ensures owned[p].block.order <= MAX_ORDER
  {
    OldPlaced(m, owned, p);
    assert AllocationOk(m, p, owned[p]);
    OwnedInMemory(ls, owned, p);
    InMemoryOrder(owned[p].block);
  }

  /** The state in which RESIZE starts to absorb buddies. */
  lemma GrowStart(m: Mem, heads: seq<nat>, ls: FreeLists, owned: map<nat, Allocation>, p: nat, target: nat)
    requires ValidState(m, heads, ls, owned) && p in owned
    requires owned[p].block.order < target <= MAX_ORDER && CanGrow(ls, owned[p].block, target)
    ensures Freeable(ls, owned[p].block) && owned[p].block in OwnedBlocks(owned)
    ensures Growing(ls, owned, p, Grown(owned[p].block, target), Absorb(ls, owned[p].block, target))
    ensures Grown(owned[p].block, target).base <= MEMORY_LIMIT
  {
    AbsorbedBeside(m, heads, ls, owned, p, target);
    assert owned[p].block in OwnedBlocks(owned);
  }

  lemma OldBeside(m: Mem, ls: FreeLists, owned: map<nat, Allocation>, p: nat)
    requires HeapInv(Heap(ls, OwnedBlocks(owned))) && OwnedOk(m, owned) && p in owned
    ensures forall c <- FreeBlocks(ls) :: Disjoint(owned[p].block, c)
    ensures owned[p].block.base + HEADER_SIZE <= p
  {
    OldPlaced(m, owned, p);
    OwnedBeside(ls, owned, p);
  }

  lemma SameOutsideMore(m: Mem, m': Mem, s: set<Block>, b: Block)
    requires SameOutside(m, m', s)
    ensures SameOutside(m, m', s + {b})
  {
    CoverUnion(s, {b});
  }

  // ---------------------------------------------------------------- recognising a pointer

  /** The header `a` places `p` in its block, in u64 arithmetic. */
  ghost predicate Claims(p: nat, a: Allocation) {
    && MIN_ORDER <= a.block.order <= MAX_ORDER && IsPowerOfTwo(a.alignment) && a.alignment <= U64_LIMIT
    && p == AlignUp((a.block.base + HEADER_SIZE) % U64_LIMIT, a.alignment)
    && p <= (p + a.size) % U64_LIMIT <= a.block.Limit() % U64_LIMIT
  }

  lemma LiveClaims(m: Mem, heads: seq<nat>, ls: FreeLists, owned: map<nat, Allocation>, p: nat)
    requires ValidState(m, heads, ls, owned) && p in owned
    ensures p >= HEADER_SIZE && HeaderIs(m, p, owned[p]) && Claims(p, owned[p])
  {
    hide HeaderIs;
    hide Claims;
    hide Placed;
    OldPlaced(m, owned, p);
    assert AllocationOk(m, p, owned[p]);
    OwnedInMemory(ls, owned, p);
    PlacedClaims(p, owned[p]);
  }

  lemma PlacedClaims(p: nat, a: Allocation)
    requires Placed(p, a) && InMemory(a.block)
    ensures Claims(p, a)
  {
    hide And;
    hide IsPowerOfTwo;
    InMemoryOrder(a.block);
    SmallMod(a.block.base + HEADER_SIZE);
    SmallMod(p + a.size);
    SmallMod(a.block.Limit());
  }

  lemma SmallMod(x: nat)
    ensures x < U64_LIMIT ==> x % U64_LIMIT == x
  {}
}
