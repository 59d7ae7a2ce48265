/** The buddy heap as it lies in memory: free lists threaded through the free blocks, a header in front of every
    payload, and the invariant that ties both to the blocks. */
module BuddyState {
  import opened Basics
  import opened Bits
  import opened BuddyBlocks
  import opened BuddyLists
  import opened BuddySeed
  import opened BuddyRuns
  import opened Memory

  const LIVE: Byte := 0xA5
  const FREED: Byte := 0x5A

  // ---------------------------------------------------------------- free lists in memory

  /** `p` heads a null-terminated list of exactly the addresses `s`, each link in the first word of its block. */
  ghost predicate Chain(m: Mem, p: nat, s: seq<nat>)
    decreases |s|
  {
    if s == [] then p == 0 else p == s[0] && p != 0 && Chain(m, Load64(m, p), s[1..])
  }

  ghost predicate Linked(m: Mem, heads: seq<nat>, ls: FreeLists) {
    |heads| == MAX_ORDER + 1 && forall o :: 0 <= o <= MAX_ORDER ==> Chain(m, heads[o], ls[o])
  }

  ghost predicate SameBase(b: Block, c: Block) { b.base == c.base }

  /** Blocks at distinct page addresses, so that their first words do not overlap. */
  ghost predicate PageSpread(s: set<Block>) {
    && (forall b <- s :: 0 < b.base < MEMORY_LIMIT && b.base % PAGE == 0)
    && (forall b, c {:trigger SameBase(b, c)} :: b in s && c in s && SameBase(b, c) ==> b == c)
  }

  ghost predicate ListsOk(m: Mem, heads: seq<nat>, ls: FreeLists) {
    Linked(m, heads, ls) && NoRepeats(ls) && PageSpread(FreeBlocks(ls))
  }

  lemma PageAligned(b: Block)
    requires b.Aligned() && b.order >= MIN_ORDER
    ensures b.base % PAGE == 0
  {
    Pow2Bounds(MIN_ORDER);
    AlignedDown(b.base, b.order, MIN_ORDER);
  }

  lemma TilingSpread(s: set<Block>)
    requires Tiling(s) && AllInMemory(s)
    ensures PageSpread(s)
  {
    forall b | b in s ensures 0 < b.base < MEMORY_LIMIT && b.base % PAGE == 0 {
      PageAligned(b);
    }
    forall b, c | b in s && c in s && SameBase(b, c) ensures b == c {
      assert b == c || Disjoint(b, c);
    }
  }

  lemma {:induction false} ChainSame(m: Mem, m': Mem, p: nat, s: seq<nat>)
    requires forall b <- s :: SameOn(m, m', b, 8)
    ensures Chain(m, p, s) == Chain(m', p, s)
    decreases |s|
  {
    if s != [] {
      if p == s[0] { LoadSame(m, m', p); }
      ChainSame(m, m', Load64(m, p), s[1..]);
    }
  }

  /** Writing away from the first words of the free blocks leaves the lists as they are. */
  lemma LinkedSame(m: Mem, m': Mem, heads: seq<nat>, ls: FreeLists)
    requires Linked(m, heads, ls)
    requires forall b <- FreeBlocks(ls) :: SameOn(m, m', b.base, 8)
    ensures Linked(m', heads, ls)
  {
    forall o | 0 <= o <= MAX_ORDER ensures Chain(m', heads[o], ls[o]) {
      forall x | x in ls[o] ensures SameOn(m, m', x, 8) {
        assert Block(x, o) in FreeBlocks(ls);
      }
      ChainSame(m, m', heads[o], ls[o]);
    }
  }

  lemma PagesApart(x: nat, y: nat)
    requires x % PAGE == 0 && y % PAGE == 0 && x != y
    ensures x + PAGE <= y || y + PAGE <= x
  {}

  lemma HeadBound(m: Mem, heads: seq<nat>, ls: FreeLists, o: nat)
    requires ListsOk(m, heads, ls) && o <= MAX_ORDER
    ensures heads[o] < MEMORY_LIMIT
    ensures heads[o] == if ls[o] == [] then 0 else ls[o][0]
  {
    if ls[o] != [] { assert Block(ls[o][0], o) in FreeBlocks(ls); }
  }

  /** A page address that heads no free block. */
  ghost predicate Unlisted(ls: FreeLists, base: nat) {
    0 < base < MEMORY_LIMIT && base % PAGE == 0 && forall c <- FreeBlocks(ls) :: c.base != base
  }

  /** What `push_free_block` does to memory and heads makes the list one longer. */
  lemma PushLinks(m: Mem, heads: seq<nat>, ls: FreeLists, b: Block)
    requires ListsOk(m, heads, ls) && b.order <= MAX_ORDER && Unlisted(ls, b.base)
    ensures ListsOk(Store64(m, b.base, heads[b.order]), heads[b.order := b.base], Push(ls, b))
  {
    var m' := Store64(m, b.base, heads[b.order]);
    forall c | c in FreeBlocks(ls) ensures SameOn(m, m', c.base, 8) {
      PagesApart(c.base, b.base);
    }
    LinkedSame(m, m', heads, ls);
    HeadBound(m, heads, ls, b.order);
    LoadStored(m, b.base, heads[b.order]);
    assert ([b.base] + ls[b.order])[1..] == ls[b.order];
    assert b !in FreeBlocks(ls);
    PushBlocks(ls, b);
  }

  /** Unlinking the head of a list. */
  lemma PopLinks(m: Mem, heads: seq<nat>, ls: FreeLists, o: nat)
    requires ListsOk(m, heads, ls) && o <= MAX_ORDER && ls[o] != []
    ensures ListsOk(m, heads[o := Load64(m, heads[o])], Pop(ls, o))
  {
    PopBlocks(ls, o);
  }

  ghost predicate OnPages(s: seq<nat>) {
    forall i :: 0 <= i < |s| ==> s[i] % PAGE == 0 && s[i] < MEMORY_LIMIT
  }

  ghost predicate SameLinks(m: Mem, m': Mem, s: seq<nat>) {
    forall i :: 0 <= i < |s| ==> Load64(m, s[i]) == Load64(m', s[i])
  }

  lemma {:induction false} ChainSameLinks(m: Mem, m': Mem, p: nat, s: seq<nat>)
    requires SameLinks(m, m', s)
    ensures Chain(m, p, s) == Chain(m', p, s)
    decreases |s|
  {
    if s != [] && p == s[0] {
      forall i | 0 <= i < |s[1..]| ensures Load64(m, s[1..][i]) == Load64(m', s[1..][i]) {
        assert s[1..][i] == s[i + 1];
      }
      ChainSameLinks(m, m', Load64(m, p), s[1..]);
    }
  }

  /** Giving `a` the link of its successor `b`, and no other link a new value, takes `b` out of the chain. */
  lemma {:induction false} ChainSplice(m: Mem, m': Mem, p: nat, pre: seq<nat>, a: nat, b: nat, post: seq<nat>)
    requires Chain(m, p, pre + ([a, b] + post))
    requires SameLinks(m, m', pre) && SameLinks(m, m', post) && Load64(m', a) == Load64(m, b)
    ensures Chain(m', p, pre + ([a] + post))
    decreases |pre|
  {
    if pre == [] {
      assert pre + ([a, b] + post) == [a] + ([b] + post) && pre + ([a] + post) == [a] + post;
      SpliceHere(m, m', p, a, b, post);
    } else {
      var x, rest := pre[0], pre[1..];
      ChainAppend(m, p, pre, [a, b] + post);
      ChainSplice(m, m', Load64(m, x), rest, a, b, post);
      ChainAppend(m', p, pre, [a] + post);
    }
  }

  lemma ChainAppend(m: Mem, p: nat, pre: seq<nat>, s: seq<nat>)
    requires pre != []
    ensures Chain(m, p, pre + s) <==> p == pre[0] && pre[0] != 0 && Chain(m, Load64(m, pre[0]), pre[1..] + s)
  {
    assert (pre + s)[1..] == pre[1..] + s;
  }

  lemma SpliceHere(m: Mem, m': Mem, p: nat, a: nat, b: nat, post: seq<nat>)
    requires Chain(m, p, [a] + ([b] + post))
    requires SameLinks(m, m', post) && Load64(m', a) == Load64(m, b)
    ensures Chain(m', p, [a] + post)
  {
    ChainCons(m, p, a, [b] + post);
    ChainCons(m, Load64(m, a), b, post);
    ChainSameLinks(m, m', Load64(m, b), post);
    ChainCons(m', p, a, post);
  }

  /** Storing a link in the block at `a` leaves every other link alone. */
  lemma StoreOneLink(m: Mem, a: nat, next: nat, s: seq<nat>)
    requires OnPages(s) && a % PAGE == 0 && a !in s && next < U64_LIMIT
    ensures SameLinks(m, Store64(m, a, next), s) && Load64(Store64(m, a, next), a) == next
  {
    LoadStored(m, a, next);
    forall i | 0 <= i < |s| ensures Load64(m, s[i]) == Load64(Store64(m, a, next), s[i]) {
      PagesApart(s[i], a);
      LoadElsewhere(m, a, next, s[i]);
    }
  }

  lemma ChainCons(m: Mem, p: nat, x: nat, rest: seq<nat>)
    ensures Chain(m, p, [x] + rest) <==> p == x && x != 0 && Chain(m, Load64(m, x), rest)
  {
    assert ([x] + rest)[1..] == rest;
  }

  /** Following a chain past its first part. */
  lemma {:induction false} ChainSuffix(m: Mem, p: nat, pre: seq<nat>, s: seq<nat>) returns (q: nat)
    requires Chain(m, p, pre + s)
    ensures Chain(m, q, s)
    ensures q == if pre == [] then p else Load64(m, pre[|pre| - 1])
    decreases |pre|
  {
    if pre == [] {
      assert pre + s == s;
      q := p;
    } else {
      assert (pre + s)[1..] == pre[1..] + s;
      q := ChainSuffix(m, Load64(m, p), pre[1..], s);
    }
  }

  /** Everything `remove_free_block` needs to know about list `o` when it has walked past the blocks `pre`. */
  lemma AtLink(m: Mem, heads: seq<nat>, ls: FreeLists, o: nat, i: nat)
    requires ListsOk(m, heads, ls) && o <= MAX_ORDER && i <= |ls[o]|
    ensures OnPages(ls[o]) && Distinct(ls[o])
    ensures forall k :: 0 <= k < |ls[o]| ==> ls[o][k] > 0
    ensures var link := if i == 0 then heads[o] else Load64(m, ls[o][i - 1]);
      link == if i < |ls[o]| then ls[o][i] else 0
  {
    forall k | 0 <= k < |ls[o]| ensures 0 < ls[o][k] < MEMORY_LIMIT && ls[o][k] % PAGE == 0 {
      assert Block(ls[o][k], o) in FreeBlocks(ls);
    }
    assert ls[o] == ls[o][..i] + ls[o][i..];
    var q := ChainSuffix(m, heads[o], ls[o][..i], ls[o][i..]);
  }

  /** Taking the block at position `i` out of list `o`, by whatever link leads to it. */
  lemma UnlinkAt(m: Mem, heads: seq<nat>, ls: FreeLists, o: nat, i: nat, m': Mem, heads': seq<nat>)
    requires ListsOk(m, heads, ls) && o <= MAX_ORDER && i < |ls[o]|
    requires i == 0 ==> m' == m && heads' == heads[o := Load64(m, ls[o][0])]
    requires i > 0 ==> m' == Store64(m, ls[o][i - 1], Load64(m, ls[o][i])) && heads' == heads
    ensures ListsOk(m', heads', Remove(ls, Block(ls[o][i], o)))
  {
    var b := Block(ls[o][i], o);
    RemoveBlocks(ls, b);
    RemoveAt(ls, o, i);
    if i == 0 {
      PopLinks(m, heads, ls, o);
    } else {
      forall k | 0 <= k <= MAX_ORDER ensures Chain(m', heads[k], Remove(ls, b)[k]) {
        if k == o {
          UnlinkMiddle(m, heads, ls, o, i, m');
        } else {
          AtLink(m, heads, ls, o, i + 1);
          OtherListSame(m, heads, ls, o, i - 1, k, Load64(m, ls[o][i]));
        }
      }
    }
  }

  lemma RemoveAt(ls: FreeLists, o: nat, i: nat)
    requires o <= MAX_ORDER && Distinct(ls[o]) && i < |ls[o]|
    ensures Remove(ls, Block(ls[o][i], o)) == ls[o := ls[o][..i] + ls[o][i + 1..]]
    ensures i == 0 ==> Remove(ls, Block(ls[o][i], o)) == Pop(ls, o)
  {
    var s := ls[o];
    assert s == s[..i] + ([s[i]] + s[i + 1..]);
    WithoutSplit(s[..i], s[i], s[i + 1..]);
    assert i == 0 ==> s[..i] + s[i + 1..] == s[1..];
  }

  lemma UnlinkMiddle(m: Mem, heads: seq<nat>, ls: FreeLists, o: nat, i: nat, m': Mem)
    requires ListsOk(m, heads, ls) && o <= MAX_ORDER && 0 < i < |ls[o]|
    requires m' == Store64(m, ls[o][i - 1], Load64(m, ls[o][i]))
    ensures Chain(m', heads[o], ls[o][..i] + ls[o][i + 1..])
  {
    var s := ls[o];
    var pre, a, b, post := s[..i - 1], s[i - 1], s[i], s[i + 1..];
    AtLink(m, heads, ls, o, i + 1);
    DistinctSplit(s, i - 1);
    StoreOneLink(m, a, Load64(m, b), pre);
    StoreOneLink(m, a, Load64(m, b), post);
    MiddleSplit(s, i);
    ChainSplice(m, m', heads[o], pre, a, b, post);
  }

  lemma MiddleSplit(s: seq<nat>, i: nat)
    requires 0 < i < |s|
    ensures s == s[..i - 1] + ([s[i - 1], s[i]] + s[i + 1..])
    ensures s[..i] + s[i + 1..] == s[..i - 1] + ([s[i - 1]] + s[i + 1..])
  {}

  lemma DistinctSplit(s: seq<nat>, j: nat)
    requires Distinct(s) && j < |s|
    ensures s[j] !in s[..j] && s[j] !in s[j + 1..] && (j + 1 < |s| ==> s[j] !in s[j + 2..])
  {}

  lemma OtherListSame(m: Mem, heads: seq<nat>, ls: FreeLists, o: nat, j: nat, k: nat, next: nat)
    requires ListsOk(m, heads, ls) && o <= MAX_ORDER && j < |ls[o]| && k <= MAX_ORDER && k != o && next < U64_LIMIT
    ensures Chain(Store64(m, ls[o][j], next), heads[k], ls[k])
  {
    AtLink(m, heads, ls, o, 0);
    AtLink(m, heads, ls, k, 0);
    var a := ls[o][j];
    assert Block(a, o) in FreeBlocks(ls);
    assert a !in ls[k] by {
      assert SameBase(Block(a, o), Block(a, k));
      assert a in ls[k] ==> Block(a, k) in FreeBlocks(ls);
    }
    StoreOneLink(m, a, next, ls[k]);
    ChainSameLinks(m, Store64(m, a, next), heads[k], ls[k]);
  }

  lemma {:induction false} WithoutSplit(pre: seq<nat>, x: nat, post: seq<nat>)
    requires x !in pre
    ensures Without(pre + ([x] + post), x) == pre + post
    decreases |pre|
  {
    if pre == [] {
      assert pre + ([x] + post) == [x] + post && pre + post == post;
    } else {
      assert (pre + ([x] + post))[1..] == pre[1..] + ([x] + post);
      WithoutSplit(pre[1..], x, post);
      assert pre + post == [pre[0]] + (pre[1..] + post);
    }
  }

  // ---------------------------------------------------------------- frames

  /** The memories agree outside the blocks of `s`. */
  ghost predicate SameOutside(m: Mem, m': Mem, s: set<Block>) {
    forall x: nat :: !Covers(s, x) ==> m(x) == m'(x)
  }

  lemma SameOutsideTrans(m: Mem, m': Mem, m'': Mem, s: set<Block>, t: set<Block>)
    requires SameOutside(m, m', s) && SameOutside(m', m'', t)
    requires forall x: nat :: Covers(t, x) ==> Covers(s, x)
    ensures SameOutside(m, m'', s)
  {}

  lemma SameOutsideSelf(m: Mem, s: set<Block>)
    ensures SameOutside(m, m, s)
  {}

  lemma SameOutsideWider(m: Mem, m': Mem, s: set<Block>, t: set<Block>)
    requires SameOutside(m, m', s) && forall x: nat :: Covers(s, x) ==> Covers(t, x)
    ensures SameOutside(m, m', t)
  {}

  /** Storing inside a block of `s`. */
  lemma StoreInside(m: Mem, at: nat, bytes: seq<Byte>, s: set<Block>, b: Block)
    requires b in s && b.base <= at && at + |bytes| <= b.Limit()
    ensures SameOutside(m, Store(m, at, bytes), s)
  {
    forall x: nat | !Covers(s, x) ensures m(x) == Store(m, at, bytes)(x) {
      assert !b.Holds(x);
    }
  }

  lemma StoreWordInside(m: Mem, at: nat, v: nat, s: set<Block>, b: Block)
    requires b in s && b.base <= at && at + 8 <= b.Limit()
    ensures SameOutside(m, Store64(m, at, v), s)
  {
    StoreInside(m, at, seq(8, i requires 0 <= i < 8 => ByteOf(v, i)), s, b);
  }

  /** A block beside those written to keeps its bytes. */
  lemma BlockSame(m: Mem, m': Mem, s: set<Block>, d: Block)
    requires SameOutside(m, m', s) && forall b <- s :: Disjoint(b, d)
    ensures SameOn(m, m', d.base, d.Size())
  {
    forall x: nat | d.base <= x < d.base + d.Size() ensures m(x) == m'(x) {
      assert !Covers(s, x);
    }
  }

  /** Writing inside blocks that are not on the lists leaves the lists as they are. */
  lemma ListsSame(m: Mem, m': Mem, heads: seq<nat>, ls: FreeLists, s: set<Block>)
    requires ListsOk(m, heads, ls) && SameOutside(m, m', s) && AllInMemory(FreeBlocks(ls))
    requires forall b, c :: b in s && c in FreeBlocks(ls) ==> Disjoint(b, c)
    ensures ListsOk(m', heads, ls)
  {
    forall c | c in FreeBlocks(ls) ensures SameOn(m, m', c.base, 8) {
      BlockSame(m, m', s, c);
      Pow2Bounds(c.order);
    }
    LinkedSame(m, m', heads, ls);
  }

  // ---------------------------------------------------------------- headers

  /** What the heap knows of a pointer it has returned: its block, and what was last requested for it. `live` is false
      once RESIZE has marked the header of the grown block itself as freed. */
  datatype Allocation = Allocation(block: Block, size: nat, alignment: nat, live: bool)

  ghost function OwnedBlocks(owned: map<nat, Allocation>): set<Block> {
    set p | p in owned :: owned[p].block
  }
  /** Only the first words of pages, which hold links, may differ. Payloads start at multiples of 32, so that the state
      byte of a header is never among them. */
  ghost predicate LinksOnly(m: Mem, m': Mem) {
    forall x: nat :: InLink(x) || m'(x) == m(x)
  }

  predicate InLink(x: nat) { x % 32 < 8 }

  lemma LinksOnlySelf(m: Mem)
    ensures LinksOnly(m, m)
  {}

  lemma LinksOnlyTrans(m: Mem, m': Mem, m'': Mem)
    requires LinksOnly(m, m') && LinksOnly(m', m'')
    ensures LinksOnly(m, m'')
  {}

  lemma LinkStored(m: Mem, base: nat, v: nat)
    requires base % PAGE == 0
    ensures LinksOnly(m, Store64(m, base, v))
  {
    forall x: nat | base <= x < base + 8 ensures InLink(x) { LinkByte(base, x); }
  }

  lemma LinkByte(base: nat, x: nat)
    requires base % PAGE == 0 && base <= x < base + 8
    ensures InLink(x)
  {
    var q := base / PAGE;
    assert base == 4096 * q;
    ModUnique(x, 32, 128 * q, x - base);
  }

  lemma StateByte(p: nat)
    requires p >= HEADER_SIZE && p % 32 == 0
    ensures !InLink(p - 23)
  {
    ModUnique(p - 23, 32, p / 32 - 1, 9);
  }

  /** The state byte of the header in front of `p`, if there is room for one. */
  predicate StateIs(m: Mem, p: nat, state: Byte) {
    p >= HEADER_SIZE && m(p - 23) == state
  }

  /** The 32 bytes in front of the payload `p`. */
  ghost predicate HeaderIs(m: Mem, p: nat, a: Allocation)
    requires p >= HEADER_SIZE
  {
    && Load64(m, p - 32) == a.block.base
    && m(p - 24) == a.block.order
    && m(p - 23) == (if a.live then LIVE else FREED)
    && Load64(m, p - 16) == a.size
    && Load64(m, p - 8) == a.alignment
  }

  /** Placement new of an `Allocation_Header`; the two padding bytes at offset 14 keep what they held. */
  function WriteHeader(m: Mem, p: nat, b: Block, size: nat, alignment: nat): Mem
    requires p >= HEADER_SIZE && b.order <= MAX_ORDER
  {
    var tagged := Store(Store64(m, p - 32, b.base), p - 24, [b.order, LIVE, 0, 0, 0, 0]);
    Store64(Store64(tagged, p - 16, size), p - 8, alignment)
  }

  lemma HeaderWritten(m: Mem, p: nat, b: Block, size: nat, alignment: nat)
    requires p >= HEADER_SIZE && b.order <= MAX_ORDER
    requires b.base < U64_LIMIT && size < U64_LIMIT && alignment < U64_LIMIT
    ensures HeaderIs(WriteHeader(m, p, b, size, alignment), p, Allocation(b, size, alignment, true))
  {
    var tag: seq<Byte> := [b.order, LIVE, 0, 0, 0, 0];
    var m1 := Store64(m, p - 32, b.base);
    var m2 := Store(m1, p - 24, tag);
    var m3 := Store64(m2, p - 16, size);
    var m4 := Store64(m3, p - 8, alignment);
    assert Load64(m4, p - 32) == b.base by {
      LoadStored(m, p - 32, b.base);
      LoadBeside(m1, p - 24, tag, p - 32);
      LoadElsewhere(m2, p - 16, size, p - 32);
      LoadElsewhere(m3, p - 8, alignment, p - 32);
    }
    assert Load64(m4, p - 16) == size by {
      LoadStored(m2, p - 16, size);
      LoadElsewhere(m3, p - 8, alignment, p - 16);
    }
    assert Load64(m4, p - 8) == alignment by { LoadStored(m3, p - 8, alignment); }
    assert m2(p - 24) == b.order && m2(p - 23) == LIVE;
    assert m3(p - 24) == m2(p - 24) && m3(p - 23) == m2(p - 23);
    assert m4(p - 24) == m3(p - 24) && m4(p - 23) == m3(p - 23);
    assert m4 == WriteHeader(m, p, b, size, alignment);
  }

  lemma HeaderLocal(m: Mem, p: nat, b: Block, size: nat, alignment: nat, x: nat)
    requires p >= HEADER_SIZE && b.order <= MAX_ORDER && (x < p - 32 || p <= x)
    ensures WriteHeader(m, p, b, size, alignment)(x) == m(x)
  {}

  /** Header and payload lie inside the block, the payload where ALLOCATE puts it. */
  ghost predicate Placed(p: nat, a: Allocation) {
    && ValidRequest(a.size, a.alignment)
    && p == UserAddress(a.block.base, a.alignment)
    && a.block.base + HEADER_SIZE <= p && p + a.size <= a.block.Limit()
  }

  lemma HeaderSame(m: Mem, m': Mem, p: nat, a: Allocation)
    requires Placed(p, a) && SameOn(m, m', p - 32, 32) && HeaderIs(m, p, a)
    ensures HeaderIs(m', p, a)
  {
    LoadSame(m, m', p - 32);
    LoadSame(m, m', p - 16);
    LoadSame(m, m', p - 8);
  }

  ghost predicate AllocationOk(m: Mem, p: nat, a: Allocation) {
    Placed(p, a) && HeaderIs(m, p, a)
  }

  ghost predicate OneBlockEach(owned: map<nat, Allocation>) {
    forall p, q :: p in owned && q in owned && p != q ==> owned[p].block != owned[q].block
  }

  ghost predicate OwnedOk(m: Mem, owned: map<nat, Allocation>) {
    OneBlockEach(owned) && forall p <- owned :: AllocationOk(m, p, owned[p])
  }

  /** The invariant of the allocator. */
  ghost predicate ValidState(m: Mem, heads: seq<nat>, ls: FreeLists, owned: map<nat, Allocation>) {
    ListsOk(m, heads, ls) && HeapInv(Heap(ls, OwnedBlocks(owned))) && OwnedOk(m, owned)
  }

  lemma AllocationSame(m: Mem, m': Mem, p: nat, a: Allocation, s: set<Block>)
    requires AllocationOk(m, p, a) && SameOutside(m, m', s) && forall b <- s :: Disjoint(b, a.block)
    ensures AllocationOk(m', p, a)
  {
    BlockSame(m, m', s, a.block);
    HeaderSame(m, m', p, a);
  }

  /** Allocations in blocks beside those written to keep their headers. */
  lemma OwnedSame(m: Mem, m': Mem, owned: map<nat, Allocation>, s: set<Block>)
    requires OwnedOk(m, owned) && SameOutside(m, m', s)
    requires forall p, b :: p in owned && b in s ==> Disjoint(b, owned[p].block)
    ensures OwnedOk(m', owned)
  {
    forall p | p in owned ensures AllocationOk(m', p, owned[p]) {
      AllocationSame(m, m', p, owned[p], s);
    }
  }

  /** Taking one pointer out of the table takes exactly its block out of the owned set. */
  lemma OwnedBlocksWithout(owned: map<nat, Allocation>, p: nat)
    requires OneBlockEach(owned) && p in owned
    ensures OwnedBlocks(owned - {p}) == OwnedBlocks(owned) - {owned[p].block}
    ensures OneBlockEach(owned - {p})
  {
    forall b | b in OwnedBlocks(owned) - {owned[p].block} ensures b in OwnedBlocks(owned - {p}) {
      var q :| q in owned && owned[q].block == b;
      assert q in owned - {p};
    }
  }

  lemma OwnedBlocksWith(owned: map<nat, Allocation>, p: nat, a: Allocation)
    requires OneBlockEach(owned) && a.block !in OwnedBlocks(owned) && p !in owned
    ensures OwnedBlocks(owned[p := a]) == OwnedBlocks(owned) + {a.block}
    ensures OneBlockEach(owned[p := a])
  {
    var o := owned[p := a];
    forall b | b in OwnedBlocks(owned) ensures b in OwnedBlocks(o) {
      var q :| q in owned && owned[q].block == b;
      assert q in o && o[q].block == b;
    }
    assert p in o && o[p].block == a.block;
  }

  /** The blocks of the heap other than one of its owned blocks lie beside it. */
  lemma OwnedBeside(ls: FreeLists, owned: map<nat, Allocation>, p: nat)
    requires HeapInv(Heap(ls, OwnedBlocks(owned))) && OneBlockEach(owned) && p in owned
    ensures forall c :: c in FreeBlocks(ls) ==> Disjoint(owned[p].block, c)
    ensures forall q :: q in owned && q != p ==> Disjoint(owned[p].block, owned[q].block)
  {
    var s, b := Managed(Heap(ls, OwnedBlocks(owned))), owned[p].block;
    assert b in OwnedBlocks(owned);
    forall c | c in FreeBlocks(ls) ensures Disjoint(b, c) { assert c in s && b in s && b != c; }
    forall q | q in owned && q != p ensures Disjoint(b, owned[q].block) {
      assert owned[q].block in OwnedBlocks(owned);
    }
  }

  lemma OldPlaced(m: Mem, owned: map<nat, Allocation>, p: nat)
    requires OwnedOk(m, owned) && p in owned
    ensures Placed(p, owned[p]) && p >= HEADER_SIZE
  {
    assert AllocationOk(m, p, owned[p]);
  }

  lemma OwnedInMemory(ls: FreeLists, owned: map<nat, Allocation>, p: nat)
    requires HeapInv(Heap(ls, OwnedBlocks(owned))) && p in owned
    ensures owned[p].block.Aligned() && InMemory(owned[p].block)
  {
    assert owned[p].block in Managed(Heap(ls, OwnedBlocks(owned)));
  }

  /** Writing inside one owned block leaves the lists and the other allocations as they are. */
  lemma OwnedBlockIsLocal(m: Mem, m': Mem, heads: seq<nat>, ls: FreeLists, owned: map<nat, Allocation>, p: nat)
    requires ListsOk(m, heads, ls) && HeapInv(Heap(ls, OwnedBlocks(owned))) && OwnedOk(m, owned) && p in owned
    requires SameOutside(m, m', {owned[p].block})
    ensures ListsOk(m', heads, ls)
    ensures forall q :: q in owned && q != p ==> AllocationOk(m', q, owned[q])
  {
    hide AllocationOk;
    hide ListsOk;
    hide HeapInv;
    hide SameOutside;
    hide Disjoint;
    OwnedBeside(ls, owned, p);
    FreeInMemory(Heap(ls, OwnedBlocks(owned)));
    ListsSame(m, m', heads, ls, {owned[p].block});
    OthersSame(m, m', owned, p);
  }

  lemma FreeInMemory(h: Heap)
    requires HeapInv(h)
    ensures AllInMemory(FreeBlocks(h.free)) && Tiling(FreeBlocks(h.free))
  {
    assert FreeBlocks(h.free) <= FreeBlocks(h.free) + h.owned;
  }

  lemma OthersSame(m: Mem, m': Mem, owned: map<nat, Allocation>, p: nat)
    requires OwnedOk(m, owned) && p in owned && SameOutside(m, m', {owned[p].block})
    requires forall q :: q in owned && q != p ==> Disjoint(owned[p].block, owned[q].block)
    ensures forall q :: q in owned && q != p ==> AllocationOk(m', q, owned[q])
  {
    hide AllocationOk;
    forall q | q in owned && q != p ensures AllocationOk(m', q, owned[q]) {
      AllocationSame(m, m', q, owned[q], {owned[p].block});
    }
  }

  /** A client may write anything into its own payload. */
  lemma PayloadIsTheClients(m: Mem, heads: seq<nat>, ls: FreeLists, owned: map<nat, Allocation>, p: nat, at: nat,
                            bytes: seq<Byte>)
    requires ValidState(m, heads, ls, owned) && p in owned
    requires p <= at && at + |bytes| <= p + owned[p].size
    ensures ValidState(Store(m, at, bytes), heads, ls, owned)
  {
    var b, m' := owned[p].block, Store(m, at, bytes);
    assert AllocationOk(m, p, owned[p]);
    StoreInside(m, at, bytes, {b}, b);
    OwnedBlockIsLocal(m, m', heads, ls, owned, p);
    HeaderSame(m, m', p, owned[p]);
  }

  // ---------------------------------------------------------------- one operation at a time

  lemma FreeableUnlisted(ls: FreeLists, b: Block)
    requires Freeable(ls, b) && b.order <= MAX_ORDER
    ensures Unlisted(ls, b.base) && b.order >= MIN_ORDER
  {
    var s := FreeBlocks(ls) + {b};
    assert b in s;
    TilingSpread(s);
    forall c | c in FreeBlocks(ls) ensures c.base != b.base { assert c.base == b.base ==> SameBase(b, c); }
  }

  /** The free blocks and the block of `p` lie beside every other allocation. */
  lemma OthersBeside(ls: FreeLists, owned: map<nat, Allocation>, p: nat)
    requires HeapInv(Heap(ls, OwnedBlocks(owned))) && OneBlockEach(owned) && p in owned
    ensures forall q, b :: q in owned - {p} && b in FreeBlocks(ls) + {owned[p].block} ==>
      Disjoint(b, (owned - {p})[q].block)
  {
    forall q, b | q in owned - {p} && b in FreeBlocks(ls) + {owned[p].block} ensures Disjoint(b, owned[q].block) {
      OwnedBeside(ls, owned, q);
      if b == owned[p].block { OwnedBeside(ls, owned, p); }
    }
  }

  /** Marking a header touches nothing but its own block. */
  lemma MarkState(m: Mem, p: nat, a: Allocation, state: Byte)
    requires AllocationOk(m, p, a)
    ensures SameOutside(m, Store(m, p - 23, [state]), {a.block})
  {
    StoreInside(m, p - 23, [state], {a.block}, a.block);
  }

  /** What FREE finds, and the lists once it has marked the header. */
  lemma FreeStart(m: Mem, heads: seq<nat>, ls: FreeLists, owned: map<nat, Allocation>, p: nat)
    requires ValidState(m, heads, ls, owned) && p in owned
    ensures p >= HEADER_SIZE && HeaderIs(m, p, owned[p])
    ensures var b, m1 := owned[p].block, Store(m, p - 23, [FREED]);
      && b.order <= MAX_ORDER && Freeable(ls, b) && b.base + 9 <= p - 23 < b.Limit()
      && ListsOk(m1, heads, ls)
  {
    var b, m1 := owned[p].block, Store(m, p - 23, [FREED]);
    assert AllocationOk(m, p, owned[p]);
    assert b in OwnedBlocks(owned);
    OwnedFreeable(Heap(ls, OwnedBlocks(owned)), b);
    MarkState(m, p, owned[p], FREED);
    OwnedBlockIsLocal(m, m1, heads, ls, owned, p);
  }

  /** The state after FREE. */
  lemma FreeDone(m: Mem, heads: seq<nat>, ls: FreeLists, owned: map<nat, Allocation>, p: nat, b: Block, m': Mem,
                 heads': seq<nat>, ls': FreeLists)
    requires ValidState(m, heads, ls, owned) && p in owned && owned[p].block == b && b.order <= MAX_ORDER
    requires ls' == Coalesce(ls, b) && ListsOk(m', heads', ls')
    requires SameOutside(m, m', FreeBlocks(ls) + {b})
    ensures ValidState(m', heads', ls', owned - {p})
    ensures Heap(ls', OwnedBlocks(owned - {p})) == FreeStep(Heap(ls, OwnedBlocks(owned)), b)
  {
    hide AllocationOk;
    hide ListsOk;
    hide SameOutside;
    hide Disjoint;
    assert b in OwnedBlocks(owned);
    FreeKeeps(Heap(ls, OwnedBlocks(owned)), b);
    OwnedBlocksWithout(owned, p);
    OthersBeside(ls, owned, p);
    assert OwnedOk(m, owned - {p});
    OwnedSame(m, m', owned - {p}, FreeBlocks(ls) + {b});
  }

  lemma CoverWithin(s: set<Block>, b: Block, c: Block)
    requires b in s && b.base <= c.base && c.Limit() <= b.Limit()
    ensures forall x: nat :: Covers({c}, x) ==> Covers(s, x)
  {
    forall x: nat | Covers({c}, x) ensures Covers(s, x) { assert b.Holds(x); }
  }

  /** The free block that ALLOCATE cuts lies beside every allocation and every other free block. */
  lemma FreeBeside(ls: FreeLists, owned: map<nat, Allocation>, b: Block)
    requires HeapInv(Heap(ls, OwnedBlocks(owned))) && b in FreeBlocks(ls)
    ensures forall q, c :: q in owned && c in {b} ==> Disjoint(c, owned[q].block)
  {
    forall q | q in owned ensures Disjoint(b, owned[q].block) {
      assert owned[q].block in OwnedBlocks(owned);
      assert b in Managed(Heap(ls, OwnedBlocks(owned)));
    }
  }

  lemma PayloadInBlock(p: nat, a: Allocation, b: Block)
    requires Placed(p, a) && Disjoint(a.block, b)
    ensures !b.Holds(p)
  {}

  lemma FreshPointer(ls: FreeLists, owned: map<nat, Allocation>, b: Block, p: nat, m: Mem)
    requires HeapInv(Heap(ls, OwnedBlocks(owned))) && b in FreeBlocks(ls) && b.Holds(p) && OwnedOk(m, owned)
    ensures p !in owned
  {
    FreeBeside(ls, owned, b);
    if p in owned {
      assert AllocationOk(m, p, owned[p]);
      PayloadInBlock(p, owned[p], b);
    }
  }

  /** The state after ALLOCATE has cut `c` off the free block `b` and written its header. */
  lemma AllocateDone(m: Mem, heads: seq<nat>, ls: FreeLists, owned: map<nat, Allocation>, o: nat, b: Block, c: Block,
                     m1: Mem, heads1: seq<nat>, p: nat, size: nat, alignment: nat)
    requires ValidState(m, heads, ls, owned) && MIN_ORDER <= c.order <= o <= MAX_ORDER && ls[o] != []
    requires b == Block(ls[o][0], o) && c.base == b.base
    requires ListsOk(m1, heads1, Split(Pop(ls, o), b, c.order)) && SameOutside(m, m1, {b})
    requires ValidRequest(size, alignment) && p == UserAddress(c.base, alignment) && FitsIn(c, size, alignment)
    ensures p >= HEADER_SIZE && p !in owned
    ensures var m2, a := WriteHeader(m1, p, c, size, alignment), Allocation(c, size, alignment, true);
      && Placed(p, a) && OwnedBlocks(owned[p := a]) == OwnedBlocks(owned) + {c}
      && ValidState(m2, heads1, Split(Pop(ls, o), b, c.order), owned[p := a])
      && SameOutside(m, m2, {b})
  {
    var h := Heap(ls, OwnedBlocks(owned));
    var b0, c0 := CutKeeps(h, o, c.order);
    var cut := Split(Pop(ls, o), b, c.order);
    var a := Allocation(c, size, alignment, true);
    UserAddressRange(c.base, alignment);
    FitsInIs(c, size, alignment);
    Pow2Mono(c.order, o);
    FreshPointer(ls, owned, b, p, m);
    HeaderDone(m1, heads1, cut, owned, c, p, a);
    var m2 := WriteHeader(m1, p, c, size, alignment);
    HeaderInside(m, m1, p, b, c, a);
    FreeBeside(ls, owned, b);
    OwnedSame(m, m2, owned, {b});
    OwnedWith(m2, owned, p, a);
  }

  lemma HeaderInside(m: Mem, m1: Mem, p: nat, b: Block, c: Block, a: Allocation)
    requires SameOutside(m, m1, {b}) && c.base == b.base && c.Limit() <= b.Limit() && c.order <= MAX_ORDER
    requires a.block == c && Placed(p, a)
    ensures SameOutside(m, WriteHeader(m1, p, c, a.size, a.alignment), {b})
  {
    forall x: nat | !Covers({b}, x) ensures WriteHeader(m1, p, c, a.size, a.alignment)(x) == m(x) {
      assert !b.Holds(x);
      HeaderLocal(m1, p, c, a.size, a.alignment, x);
    }
  }

  lemma OwnedWith(m: Mem, owned: map<nat, Allocation>, p: nat, a: Allocation)
    requires OwnedOk(m, owned) && AllocationOk(m, p, a)
    requires a.block !in OwnedBlocks(owned) && p !in owned
    ensures OwnedBlocks(owned[p := a]) == OwnedBlocks(owned) + {a.block}
    ensures OwnedOk(m, owned[p := a])
  {
    OwnedBlocksWith(owned, p, a);
  }

  /** Writing the header of a block that is being handed out. */
  lemma HeaderDone(m: Mem, heads: seq<nat>, ls: FreeLists, owned: map<nat, Allocation>, c: Block, p: nat, a: Allocation)
    requires ListsOk(m, heads, ls) && Freeable(ls, c) && c.order <= MAX_ORDER
    requires a.block == c && a.live && Placed(p, a)
    ensures var m' := WriteHeader(m, p, c, a.size, a.alignment);
      ListsOk(m', heads, ls) && AllocationOk(m', p, a)
  {
    var m' := WriteHeader(m, p, c, a.size, a.alignment);
    var s := FreeBlocks(ls) + {c};
    assert c in s;
    HeaderWritten(m, p, c, a.size, a.alignment);
    forall x: nat | !Covers({c}, x) ensures m(x) == m'(x) {
      assert !c.Holds(x);
      HeaderLocal(m, p, c, a.size, a.alignment, x);
    }
    forall d | d in FreeBlocks(ls) ensures Disjoint(c, d) { assert d in s; }
    ListsSame(m, m', heads, ls, {c});
  }

  /** The state after an ALLOCATE that failed its fit check has pushed the block it cut back. */
  lemma AllocateFailed(m: Mem, heads: seq<nat>, ls: FreeLists, owned: map<nat, Allocation>, o: nat, b: Block, c: Block,
                       m': Mem, heads': seq<nat>)
    requires ValidState(m, heads, ls, owned) && MIN_ORDER <= c.order <= o <= MAX_ORDER && ls[o] != []
    requires b == Block(ls[o][0], o) && c.base == b.base
    requires ListsOk(m', heads', Push(Split(Pop(ls, o), b, c.order), c)) && SameOutside(m, m', {b})
    ensures ValidState(m', heads', Push(Split(Pop(ls, o), b, c.order), c), owned)
  {
    hide AllocationOk;
    hide ListsOk;
    hide SameOutside;
    hide Disjoint;
    hide Split;
    var h := Heap(ls, OwnedBlocks(owned));
    var b0, c0 := CutKeeps(h, o, c.order);
    var cut := Split(Pop(ls, o), b, c.order);
    PushBlocks(cut, c);
    assert Managed(Heap(Push(cut, c), h.owned)) == Managed(Heap(cut, h.owned + {c}));
    FreeBeside(ls, owned, b);
    OwnedSame(m, m', owned, {b});
  }

  lemma PoppedOk(m: Mem, heads: seq<nat>, ls: FreeLists, owned: map<nat, Allocation>, o: nat)
    requires ValidState(m, heads, ls, owned) && o <= MAX_ORDER && ls[o] != []
    ensures var b := Block(ls[o][0], o);
      && ListsOk(m, heads[o := Load64(m, heads[o])], Pop(ls, o)) && heads[o] == b.base
      && b in FreeBlocks(ls) && Freeable(Pop(ls, o), b)
      && 0 < b.base && b.Limit() <= MEMORY_LIMIT
  {
    var b := Block(ls[o][0], o);
    PopLinks(m, heads, ls, o);
    HeadBound(m, heads, ls, o);
    PopBlocks(ls, o);
    PoppedFreeable(Heap(ls, OwnedBlocks(owned)), b, Pop(ls, o));
    assert b in FreeBlocks(Pop(ls, o)) + {b};
  }

  /** The state after `add_region`. */
  lemma SeedDone(m: Mem, heads: seq<nat>, ls: FreeLists, owned: map<nat, Allocation>, r: Range, m': Mem,
                 heads': seq<nat>)
    requires ValidState(m, heads, ls, owned)
    requires r.Pages() && 0 < r.start && r.end <= MEMORY_LIMIT
    requires forall b <- Managed(Heap(ls, OwnedBlocks(owned))) :: b.Limit() <= r.start || r.end <= b.base
    requires ListsOk(m', heads', Seed(ls, r.start, r.end)) && SameOutside(m, m', SeedSet(r.start, r.end))
    ensures ValidState(m', heads', Seed(ls, r.start, r.end), owned)
  {
    var s, t := Managed(Heap(ls, OwnedBlocks(owned))), SeedSet(r.start, r.end);
    assert forall b <- FreeBlocks(ls) :: b in s;
    SeedAdds(ls, r.start, r.end);
    SeedSetSound(r.start, r.end);
    forall b, c | b in s && c in t ensures Disjoint(b, c) {}
    JoinTilings(s, t);
    assert Managed(Heap(Seed(ls, r.start, r.end), OwnedBlocks(owned))) == s + t;
    NotOverlapped(s, t);
    forall p, b | p in owned && b in t ensures Disjoint(b, owned[p].block) {
      assert owned[p].block in OwnedBlocks(owned);
    }
    OwnedSame(m, m', owned, t);
  }

  lemma NotOverlapped(s: set<Block>, t: set<Block>)
    requires forall b, c :: b in s && c in t ==> Disjoint(b, c)
    ensures s !! t
  {
    forall b | b in s ensures b !in t { assert b in t ==> Disjoint(b, b); }
  }
}
