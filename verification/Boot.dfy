/** `initialize`: the usable regions of the boot loader's map, less everything reserved, become the blocks of the
    heap. */
module Boot {
  import opened Bits
  import opened BuddyBlocks
  import opened BuddyLists
  import opened BuddySeed
  import opened BuddyRuns
  import opened Memory
  import opened BuddyState
  import opened BuddyAllocator
  import opened MemoryMap
  import opened Multiboot
  import TemporaryAllocator
  import Arenas

  /** An address in a page that the range touches. */
  ghost predicate Takes(r: Reservation, a: nat)
    requires r.end <= U64_LIMIT - PAGE
  {
    r.start < r.end && r.start < U64_LIMIT && AlignDown(r.start, PAGE) <= a < AlignUp(r.end, PAGE)
  }

  ghost predicate AllBounded(rs: seq<Reservation>) {
    forall k :: 0 <= k < |rs| ==> rs[k].end <= U64_LIMIT - PAGE
  }

  ghost predicate Taken(rs: seq<Reservation>, a: nat)
    requires AllBounded(rs)
  {
    exists k :: 0 <= k < |rs| && Takes(rs[k], a)
  }

  /** The regions hold exactly the usable addresses that no reservation takes. */
  ghost predicate Available(usable: seq<Region>, rs: seq<Reservation>, regions: seq<Region>)
    requires AllBounded(rs)
  {
    forall a: nat :: InRegions(regions, a) <==> InRegions(usable, a) && !Taken(rs, a)
  }

  // ---------------------------------------------------------------- what the boot information says

  /** `a` lies in a page that `[start, end)` touches. */
  predicate Touches(start: nat, end: nat, a: nat) {
    start < end && start / PAGE <= a / PAGE <= (end - 1) / PAGE
  }

  /** The tag refers to data in the page of `a`: a text with its terminator, or a module or its name. */
  predicate KeptByTag(t: Tag, a: nat) {
    || ((t.CommandLine? || t.LoaderName?) && Touches(t.at, t.at + t.length + 1, a))
    || (t.ModuleTag? && Touches(t.start, t.end, a))
    || (t.ModuleTag? && t.name != 0 && Touches(t.name, t.name + t.length + 1, a))
  }

  ghost predicate KeptByTags(ts: seq<Tag>, a: nat) {
    exists k :: 0 <= k < |ts| && KeptByTag(ts[k], a)
  }

  /** The page of `a` holds low memory, the boot information, the kernel, or what a tag refers to. */
  ghost predicate Kept(info: Info, kernel: Reservation, a: nat) {
    || a < 0x100000
    || Touches(info.at, info.at + info.totalSize, a)
    || Touches(kernel.start, kernel.end, a)
    || KeptByTags(info.tags, a)
  }

  ghost predicate EntryHolds(es: seq<Entry>, a: nat) {
    exists j :: 0 <= j < |es| && es[j].kind == 1 && es[j].base <= a < es[j].base + es[j].size
  }

  /** A memory map calls `a` usable. */
  ghost predicate UsableAt(ts: seq<Tag>, a: nat) {
    exists k :: 0 <= k < |ts| && ts[k].MemoryMapTag? && EntryHolds(ts[k].entries, a)
  }

  lemma TakesIs(r: Reservation, a: nat)
    requires r.end <= U64_LIMIT - PAGE
    ensures Takes(r, a) <==> Touches(r.start, r.end, a)
  {
    hide AlignUp;
    hide AlignDown;
    Pow2Bounds(12);
    if r.start < r.end {
      AlignDownIs(r.start, 12);
      AlignUpIs(r.end, 12);
      PageBounds(r.start, r.end, AlignDown(r.start, PAGE), AlignUp(r.end, PAGE), a);
    }
  }

  lemma PageBounds(start: nat, end: nat, low: nat, high: nat, a: nat)
    requires start < end && low % PAGE == 0 && high % PAGE == 0
    requires start - PAGE < low <= start && end <= high < end + PAGE
    ensures low <= a < high <==> start / PAGE <= a / PAGE <= (end - 1) / PAGE
  {}

  lemma TakenJoin(rs: seq<Reservation>, qs: seq<Reservation>, a: nat)
    requires AllBounded(rs) && AllBounded(qs)
    ensures AllBounded(rs + qs) && (Taken(rs + qs, a) <==> Taken(rs, a) || Taken(qs, a))
  {
    if k :| 0 <= k < |rs| && Takes(rs[k], a) { assert (rs + qs)[k] == rs[k]; }
    if k :| 0 <= k < |qs| && Takes(qs[k], a) { assert (rs + qs)[|rs| + k] == qs[k]; }
  }

  lemma TakenOne(r: Reservation, a: nat)
    requires r.end <= U64_LIMIT - PAGE
    ensures AllBounded([r]) && (Taken([r], a) <==> Touches(r.start, r.end, a))
  {
    TakesIs(r, a);
    if Takes(r, a) { assert Takes([r][0], a); }
  }

  lemma TakenTwo(r: Reservation, q: Reservation, a: nat)
    requires r.end <= U64_LIMIT - PAGE && q.end <= U64_LIMIT - PAGE
    ensures AllBounded([r, q]) && (Taken([r, q], a) <==> Touches(r.start, r.end, a) || Touches(q.start, q.end, a))
  {
    TakenOne(r, a);
    TakenOne(q, a);
    TakenJoin([r], [q], a);
    assert [r] + [q] == [r, q];
  }

  lemma TagTaken(t: Tag, a: nat)
    requires AllBounded(ReservedOf(t))
    ensures Taken(ReservedOf(t), a) <==> KeptByTag(t, a)
  {
    hide Touches;
    hide Takes;
    var rs := ReservedOf(t);
    if |rs| == 1 {
      assert rs == [rs[0]];
      TakenOne(rs[0], a);
    } else if |rs| == 2 {
      assert rs == [rs[0], rs[1]];
      TakenTwo(rs[0], rs[1], a);
    }
  }

  lemma BoundedPart(rs: seq<Reservation>, qs: seq<Reservation>)
    requires AllBounded(rs + qs)
    ensures AllBounded(rs) && AllBounded(qs)
  {
    forall k | 0 <= k < |rs| ensures rs[k].end <= U64_LIMIT - PAGE { assert (rs + qs)[k] == rs[k]; }
    forall k | 0 <= k < |qs| ensures qs[k].end <= U64_LIMIT - PAGE { assert (rs + qs)[|rs| + k] == qs[k]; }
  }

  lemma {:induction false} TagsTaken(ts: seq<Tag>, a: nat)
    requires AllBounded(ReservedByTags(ts))
    ensures Taken(ReservedByTags(ts), a) <==> KeptByTags(ts, a)
    decreases |ts|
  {
    hide Takes;
    hide KeptByTag;
    hide ReservedOf;
    if ts != [] {
      var init, t := ts[..|ts| - 1], ts[|ts| - 1];
      BoundedPart(ReservedByTags(init), ReservedOf(t));
      TagsTaken(init, a);
      TagTaken(t, a);
      TakenJoin(ReservedByTags(init), ReservedOf(t), a);
      if k :| 0 <= k < |init| && KeptByTag(init[k], a) { assert ts[k] == init[k]; }
      if k :| 0 <= k < |ts| && KeptByTag(ts[k], a) { assert k < |init| ==> init[k] == ts[k]; }
      assert ts[|ts| - 1] == t;
    }
  }

  lemma FixedTaken(info: Info, kernel: Reservation, a: nat)
    requires AllBounded(Fixed(info, kernel))
    ensures Taken(Fixed(info, kernel), a) <==>
      a < 0x100000 || Touches(info.at, info.at + info.totalSize, a) || Touches(kernel.start, kernel.end, a)
  {
    hide Takes;
    hide Touches;
    var own := Multiboot.Reservation(info.at, info.at + info.totalSize);
    assert Fixed(info, kernel)[1] == own && Fixed(info, kernel)[2] == kernel;
    TakenTwo(LOW_MEMORY, own, a);
    TakenOne(kernel, a);
    TakenJoin([LOW_MEMORY, own], [kernel], a);
    LowTouches(a);
    assert [LOW_MEMORY, own] + [kernel] == Fixed(info, kernel);
  }

  lemma LowTouches(a: nat)
    ensures Touches(0, 0x100000, a) <==> a < 0x100000
  {}

  /** The ranges that are reserved touch exactly the pages that have to be kept. */
  lemma TakenIs(info: Info, kernel: Reservation, a: nat)
    requires AllBounded(ReservedRanges(info, kernel))
    ensures Taken(ReservedRanges(info, kernel), a) <==> Kept(info, kernel, a)
  {
    hide Takes;
    hide Touches;
    hide Fixed;
    hide ReservedByTags;
    BoundedPart(Fixed(info, kernel), ReservedByTags(info.tags));
    FixedTaken(info, kernel, a);
    TagsTaken(info.tags, a);
    TakenJoin(Fixed(info, kernel), ReservedByTags(info.tags), a);
  }

  lemma RegionsJoin(rs: seq<Region>, qs: seq<Region>, a: nat)
    ensures InRegions(rs + qs, a) <==> InRegions(rs, a) || InRegions(qs, a)
  {
    if k :| 0 <= k < |rs| && rs[k].Holds(a) { assert (rs + qs)[k] == rs[k]; }
    if k :| 0 <= k < |qs| && qs[k].Holds(a) { assert (rs + qs)[|rs| + k] == qs[k]; }
  }

  lemma OneRegion(r: Region, a: nat)
    ensures InRegions([r], a) <==> r.base <= a < r.base + r.size
  {
    if r.Holds(a) { assert [r][0].Holds(a); }
  }

  lemma {:induction false} EntriesHold(es: seq<Entry>, a: nat)
    ensures InRegions(UsableEntries(es), a) <==> EntryHolds(es, a)
    decreases |es|
  {
    if es != [] {
      var init, e := es[..|es| - 1], es[|es| - 1];
      EntriesHold(init, a);
      OneRegion(Region(e.base, e.size), a);
      RegionsJoin(UsableEntries(init), if e.kind == USABLE then [Region(e.base, e.size)] else [], a);
      assert forall j :: 0 <= j < |init| ==> init[j] == es[j];
    }
  }

  /** The usable regions hold exactly the addresses that a memory map calls usable. */
  lemma {:induction false} UsableIs(ts: seq<Tag>, a: nat)
    ensures InRegions(Usable(ts), a) <==> UsableAt(ts, a)
    decreases |ts|
  {
    hide EntryHolds;
    hide UsableEntries;
    if ts != [] {
      var init, t := ts[..|ts| - 1], ts[|ts| - 1];
      UsableIs(init, a);
      if t.MemoryMapTag? { EntriesHold(t.entries, a); }
      RegionsJoin(Usable(init), UsableOf(t), a);
      assert forall k :: 0 <= k < |init| ==> init[k] == ts[k];
    }
  }

  /** The regions are what the memory maps call usable, less what has to be kept. */
  lemma AvailableIs(info: Info, kernel: Reservation, regions: seq<Region>)
    requires AllBounded(ReservedRanges(info, kernel))
    requires Available(Usable(info.tags), ReservedRanges(info, kernel), regions)
    ensures forall a: nat :: InRegions(regions, a) <==> UsableAt(info.tags, a) && !Kept(info, kernel, a)
  {
    forall a: nat ensures InRegions(regions, a) <==> UsableAt(info.tags, a) && !Kept(info, kernel, a) {
      TakenIs(info, kernel, a);
      UsableIs(info.tags, a);
    }
  }

  ghost predicate Physical(regions: seq<Region>) {
    forall k :: 0 <= k < |regions| ==> regions[k].End() <= MEMORY_LIMIT
  }

  /** The blocks that `add_region` cuts out of a region. */
  ghost function RegionBlocks(r: Region): set<Block>
    requires r.End() <= MEMORY_LIMIT
  {
    hide AlignUp;
    hide AlignDown;
    RegionPages(r.base, r.size);
    var start, end := AlignUp(r.base, PAGE), AlignDown(r.End(), PAGE);
    if start >= end then {} else SeedSet(start, end)
  }

  /** The blocks of all regions. */
  ghost function HeapBlocks(regions: seq<Region>): set<Block>
    requires Physical(regions)
  {
    set k, b | 0 <= k < |regions| && b in RegionBlocks(regions[k]) :: b
  }

  lemma BlocksInside(r: Region, b: Block)
    requires r.End() <= MEMORY_LIMIT && (r.base > 0 || r.size == 0) && b in RegionBlocks(r)
    ensures r.base <= b.base && b.Limit() <= r.End() && InMemory(b)
  {
    hide AlignUp;
    hide AlignDown;
    hide SeedSet;
    RegionPages(r.base, r.size);
    SeedSetSound(AlignUp(r.base, PAGE), AlignDown(r.End(), PAGE));
  }

  /** Regions to be seeded: apart, in physical memory, none of them at address 0. */
  ghost predicate Seedworthy(regions: seq<Region>) {
    && AllSeparate(regions) && Physical(regions)
    && forall k :: 0 <= k < |regions| ==> regions[k].base > 0 || regions[k].size == 0
  }

  /** The blocks of other regions lie beside the pages of region `k`. */
  lemma BlocksBeside(regions: seq<Region>, j: nat, k: nat, b: Block)
    requires Seedworthy(regions) && j < |regions| && k < |regions| && j != k && b in RegionBlocks(regions[j])
    ensures b.Limit() <= AlignUp(regions[k].base, PAGE) || AlignDown(regions[k].End(), PAGE) <= b.base
  {
    hide RegionBlocks;
    hide AlignUp;
    hide AlignDown;
    BlocksInside(regions[j], b);
    RegionPages(regions[k].base, regions[k].size);
    SeparateAt(regions, j, k);
  }

  lemma HeapBlocksNext(regions: seq<Region>, k: nat)
    requires Physical(regions) && k < |regions|
    ensures HeapBlocks(regions[..k + 1]) == HeapBlocks(regions[..k]) + RegionBlocks(regions[k])
  {
    var s, t := regions[..k], regions[..k + 1];
    forall b ensures b in HeapBlocks(t) <==> b in HeapBlocks(s) + RegionBlocks(regions[k]) {
      if b in HeapBlocks(t) {
        var j :| 0 <= j < |t| && b in RegionBlocks(t[j]);
        assert j < k ==> s[j] == t[j];
      }
      if b in HeapBlocks(s) {
        var j :| 0 <= j < |s| && b in RegionBlocks(s[j]);
        assert t[j] == s[j];
      }
      assert t[k] == regions[k];
    }
  }

  /** No block of the heap meets a reserved range. */
  lemma HeapAvoidsReserved(usable: seq<Region>, rs: seq<Reservation>, regions: seq<Region>, a: nat)
    requires AllBounded(rs) && Available(usable, rs, regions) && Seedworthy(regions)
    requires Covers(HeapBlocks(regions), a)
    ensures InRegions(usable, a) && !Taken(rs, a)
  {
    var b :| b in HeapBlocks(regions) && b.Holds(a);
    var k :| 0 <= k < |regions| && b in RegionBlocks(regions[k]);
    BlocksInside(regions[k], b);
    assert regions[k].Holds(a);
    assert InRegions(regions, a);
  }

  /** The whole pages of a region all reach the heap exactly when they contain no aligned 4 GiB block. */
  lemma HeapCoversIff(regions: seq<Region>, k: nat)
    requires Seedworthy(regions) && k < |regions|
    requires AlignUp(regions[k].base, PAGE) < AlignDown(regions[k].End(), PAGE)
    ensures AlignUp(regions[k].base, PAGE) <= MEMORY_LIMIT
    ensures CoversAll(HeapBlocks(regions), AlignUp(regions[k].base, PAGE), AlignDown(regions[k].End(), PAGE))
      <==> !SpansAlignedFourGiB(AlignUp(regions[k].base, PAGE), AlignDown(regions[k].End(), PAGE))
  {
    hide AlignUp;
    hide AlignDown;
    RegionPages(regions[k].base, regions[k].size);
    var start, end := AlignUp(regions[k].base, PAGE), AlignDown(regions[k].End(), PAGE);
    SeedCoversIff(start, end);
    forall a: nat | start <= a < end ensures Covers(HeapBlocks(regions), a) <==> Covers(SeedSet(start, end), a) {
      if Covers(HeapBlocks(regions), a) {
        var b :| b in HeapBlocks(regions) && b.Holds(a);
        var j :| 0 <= j < |regions| && b in RegionBlocks(regions[j]);
        if j != k { BlocksBeside(regions, j, k, b); }
        assert b in SeedSet(start, end);
      }
      if Covers(SeedSet(start, end), a) {
        var b :| b in SeedSet(start, end) && b.Holds(a);
        assert b in RegionBlocks(regions[k]);
      }
    }
  }

  lemma ReservedMore(usable: seq<Region>, rs: seq<Reservation>, o: seq<Region>, q: Reservation, s: seq<Region>)
    requires AllBounded(rs) && q.end <= U64_LIMIT - PAGE && Available(usable, rs, o)
    requires if q.start < q.end then Reserved(o, s, AlignDown(q.start, PAGE), AlignUp(q.end, PAGE)) else s == o
    ensures Available(usable, rs + [q], s)
  {
    var qs := rs + [q];
    forall a: nat ensures Taken(qs, a) <==> Taken(rs, a) || Takes(q, a) {
      if Taken(rs, a) {
        var k :| 0 <= k < |rs| && Takes(rs[k], a);
        assert Takes(qs[k], a);
      }
      assert qs[|rs|] == q;
    }
  }

  lemma PartPhysical(o: seq<Region>, s: seq<Region>)
    requires Physical(o) && PartOf(s, o)
    ensures Physical(s)
  {
    forall k | 0 <= k < |s| ensures s[k].End() <= MEMORY_LIMIT {
      assert Part(s[k], o);
      var j :| 0 <= j < |o| && s[k].Within(o[j]);
    }
  }

  /** Once low memory has been reserved, no region with anything in it starts at address 0. */
  lemma NothingAtZero(usable: seq<Region>, rs: seq<Reservation>, regions: seq<Region>)
    requires AllBounded(rs) && Available(usable, rs, regions) && rs != [] && rs[0] == LOW_MEMORY
    requires AllSeparate(regions) && Physical(regions)
    ensures Seedworthy(regions)
  {
    Rounded(0, 0x100000);
    assert Takes(rs[0], 0);
    assert !InRegions(regions, 0);
    forall k | 0 <= k < |regions| ensures regions[k].base > 0 || regions[k].size == 0 {
      assert !regions[k].Holds(0);
    }
  }

  /** `parse_multiboot2_memory_map`. */
  method AddUsableRegions(map_: MemoryRegions, tags: seq<Tag>) returns (ok: bool)
    requires map_.regions == [] && Physical(Usable(tags))
    modifies map_
    ensures map_.Valid()
    ensures ok <==> |Usable(tags)| <= 128
    ensures ok ==> map_.regions == Usable(tags)
  {
    for i := 0 to |tags|
      invariant map_.Valid() && map_.regions == Usable(tags[..i])
    {
      TagsNext(tags, i);
      assert forall k :: 0 <= k < |Usable(tags[..i + 1])| ==> Usable(tags[..i + 1])[k] == Usable(tags)[k];
      if tags[i].MemoryMapTag? {
        LaterPhysical(Usable(tags[..i]), UsableOf(tags[i]));
        ok := AddEntries(map_, tags[i].entries);
        if !ok { return; }
      }
    }
    assert tags[..|tags|] == tags;
    ok := true;
  }

  lemma LaterPhysical(a: seq<Region>, b: seq<Region>)
    requires Physical(a + b)
    ensures Physical(b)
  {
    forall k | 0 <= k < |b| ensures b[k].End() <= MEMORY_LIMIT { assert (a + b)[|a| + k] == b[k]; }
  }

  /** The entries of one map. */
  method AddEntries(map_: MemoryRegions, entries: seq<Entry>) returns (ok: bool)
    requires map_.Valid() && Physical(UsableEntries(entries))
    modifies map_
    ensures map_.Valid()
    ensures ok <==> |old(map_.regions) + UsableEntries(entries)| <= MAX_MEMORY_REGIONS
    ensures ok ==> map_.regions == old(map_.regions) + UsableEntries(entries)
  {
    for i := 0 to |entries|
      invariant map_.Valid() && map_.regions == old(map_.regions) + UsableEntries(entries[..i])
    {
      EntriesNext(entries, i);
      if entries[i].kind == USABLE {
        ghost var j := |UsableEntries(entries[..i])|;
        ghost var r := Region(entries[i].base, entries[i].size);
        assert UsableEntries(entries)[j] == UsableEntries(entries[..i + 1])[j] == r;
        ok := map_.AddUsable(Region(entries[i].base, entries[i].size));
        if !ok { return; }
      }
    }
    assert entries[..|entries|] == entries;
    ok := true;
  }

  /** What has been reserved so far of the memory that was usable. */
  ghost predicate Reserving(map_: MemoryRegions, usable: seq<Region>, rs: seq<Reservation>)
    reads map_
  {
    && map_.Valid() && AllSeparate(map_.regions) && Physical(map_.regions) && |map_.regions| <= |usable| + |rs|
    && AllBounded(rs) && Available(usable, rs, map_.regions)
  }

  /** One more range. */
  method ReserveOne(map_: MemoryRegions, r: Reservation, ghost usable: seq<Region>, ghost rs: seq<Reservation>)
    returns (ok: bool)
    requires Reserving(map_, usable, rs) && r.end <= U64_LIMIT - PAGE
    modifies map_
    ensures ok ==> Reserving(map_, usable, rs + [r])
    ensures |usable| + |rs| + 1 <= MAX_MEMORY_REGIONS ==> ok
  {
    hide AlignUp;
    hide AlignDown;
    hide Available;
    ghost var o := map_.regions;
    ok := map_.ReserveRange(r.start, r.end);
    if !ok { return; }
    ReservedMore(usable, rs, o, r, map_.regions);
    if r.start < r.end { PartPhysical(o, map_.regions); }
  }

  /** `reserve_multiboot2_data`. */
  method ReserveAll(map_: MemoryRegions, info: Info, kernel: Reservation) returns (ok: bool)
    requires map_.Valid() && AllSeparate(map_.regions) && Physical(map_.regions)
    requires AllBounded(ReservedRanges(info, kernel))
    modifies map_
    ensures |old(map_.regions)| + |ReservedRanges(info, kernel)| <= MAX_MEMORY_REGIONS ==> ok
    ensures ok ==> Available(old(map_.regions), ReservedRanges(info, kernel), map_.regions)
    ensures ok ==> forall a: nat ::
      InRegions(map_.regions, a) <==> InRegions(old(map_.regions), a) && !Kept(info, kernel, a)
    ensures ok ==> AllSeparate(map_.regions) && Physical(map_.regions)
  {
    hide Available;
    hide Kept;
    hide Physical;
    hide AllBounded;
    ghost var usable := map_.regions;
    RangesSplit(info, kernel);
    ok := ReserveFixed(map_, info, kernel);
    if !ok { return; }
    ok := ReserveTags(map_, info.tags, usable, Fixed(info, kernel));
    if ok { NotKept(usable, info, kernel, map_.regions); }
  }

  lemma NotKept(usable: seq<Region>, info: Info, kernel: Reservation, regions: seq<Region>)
    requires AllBounded(ReservedRanges(info, kernel)) && Available(usable, ReservedRanges(info, kernel), regions)
    ensures forall a: nat :: InRegions(regions, a) <==> InRegions(usable, a) && !Kept(info, kernel, a)
  {
    hide Kept;
    forall a: nat ensures InRegions(regions, a) <==> InRegions(usable, a) && !Kept(info, kernel, a) {
      TakenIs(info, kernel, a);
    }
  }

  lemma RangesSplit(info: Info, kernel: Reservation)
    requires AllBounded(ReservedRanges(info, kernel))
    ensures AllBounded(Fixed(info, kernel)) && AllBounded(ReservedByTags(info.tags))
  {
    var all, fixed, tagged := ReservedRanges(info, kernel), Fixed(info, kernel), ReservedByTags(info.tags);
    assert forall k :: 0 <= k < |fixed| ==> fixed[k] == all[k];
    assert forall k :: 0 <= k < |tagged| ==> tagged[k] == all[|fixed| + k];
  }

  /** The ranges reserved before the tags are looked at. */
  method ReserveFixed(map_: MemoryRegions, info: Info, kernel: Reservation) returns (ok: bool)
    requires map_.Valid() && AllSeparate(map_.regions) && Physical(map_.regions) && AllBounded(Fixed(info, kernel))
    modifies map_
    ensures |old(map_.regions)| + 3 <= MAX_MEMORY_REGIONS ==> ok
    ensures ok ==> Reserving(map_, old(map_.regions), Fixed(info, kernel))
  {
    ghost var usable, rs := map_.regions, Fixed(info, kernel);
    NothingReserved(usable);
    var own := Multiboot.Reservation(info.at, info.at + info.totalSize);
    assert rs[1] == own && rs[2] == kernel;
    assert Reserving(map_, usable, []);
    hide Reserving;
    ok := ReserveOne(map_, LOW_MEMORY, usable, []);
    if !ok { return; }
    assert [] + [LOW_MEMORY] == [LOW_MEMORY];
    ok := ReserveOne(map_, own, usable, [LOW_MEMORY]);
    if !ok { return; }
    assert [LOW_MEMORY] + [own] == [LOW_MEMORY, own];
    ok := ReserveOne(map_, kernel, usable, [LOW_MEMORY, own]);
    assert [LOW_MEMORY, own] + [kernel] == rs;
  }

  /** The loop over the tags. */
  method ReserveTags(map_: MemoryRegions, tags: seq<Tag>, ghost usable: seq<Region>, ghost rs: seq<Reservation>)
    returns (ok: bool)
    requires Reserving(map_, usable, rs) && AllBounded(ReservedByTags(tags))
    modifies map_
    ensures |usable| + |rs + ReservedByTags(tags)| <= MAX_MEMORY_REGIONS ==> ok
    ensures ok ==> Reserving(map_, usable, rs + ReservedByTags(tags))
  {
    hide Reserving;
    hide AllBounded;
    hide ReservedByTags;
    hide ReservedOf;
    NoTags();
    assert rs + [] == rs;
    for i := 0 to |tags|
      invariant Reserving(map_, usable, rs + ReservedByTags(tags[..i]))
    {
      TagsNext(tags, i);
      ghost var done, more := ReservedByTags(tags[..i]), ReservedOf(tags[i]);
      PartBounded(rs, ReservedByTags(tags), done, more);
      ok := ReserveTag(map_, tags[i], usable, rs + done);
      if !ok { return; }
    }
    assert tags[..|tags|] == tags;
    ok := true;
  }

  lemma NoTags()
    ensures ReservedByTags([]) == []
  {}

  /** The ranges of a tag are among those that are bounded and counted. */
  lemma PartBounded(rs: seq<Reservation>, all: seq<Reservation>, done: seq<Reservation>, more: seq<Reservation>)
    requires AllBounded(all) && done + more <= all
    ensures AllBounded(more) && |rs + done| + |more| <= |rs + all| && rs + done + more == rs + (done + more)
  {
    forall k | 0 <= k < |more| ensures more[k].end <= U64_LIMIT - PAGE {
      assert all[|done| + k] == (done + more)[|done| + k] == more[k];
    }
  }

  lemma NothingReserved(usable: seq<Region>)
    ensures AllBounded([]) && Available(usable, [], usable)
  {}

  /** What the loop does with one tag. */
  method ReserveTag(map_: MemoryRegions, tag: Tag, ghost usable: seq<Region>, ghost rs: seq<Reservation>)
    returns (ok: bool)
    requires Reserving(map_, usable, rs) && AllBounded(ReservedOf(tag))
    modifies map_
    ensures ok ==> Reserving(map_, usable, rs + ReservedOf(tag))
    ensures |usable| + |rs| + |ReservedOf(tag)| <= MAX_MEMORY_REGIONS ==> ok
  {
    hide Reserving;
    ghost var more := ReservedOf(tag);
    ok := true;
    match tag {
      case CommandLine(at, length) =>
        assert more[0].end == at + length + 1;
        ok := ReserveOne(map_, Multiboot.Reservation(at, at + length + 1), usable, rs);
      case LoaderName(at, length) =>
        assert more[0].end == at + length + 1;
        ok := ReserveOne(map_, Multiboot.Reservation(at, at + length + 1), usable, rs);
      case ModuleTag(start, end, name, length) =>
        ghost var first := Multiboot.Reservation(start, end);
        assert more[0] == first;
        ok := ReserveOne(map_, Multiboot.Reservation(start, end), usable, rs);
        if ok && name != 0 {
          ghost var second := Multiboot.Reservation(name, name + length + 1);
          assert more[1] == second;
          ok := ReserveOne(map_, Multiboot.Reservation(name, name + length + 1), usable, rs + [first]);
          assert rs + [first] + [second] == rs + more;
        }
      case _ =>
        assert rs + more == rs;
    }
  }

  /** The seeding loop of `initialize`. */
  method SeedHeap(heap: Allocator, regions: seq<Region>)
    requires heap.Valid() && heap.owned == map[] && FreeBlocks(heap.lists) == {} && Seedworthy(regions)
    modifies heap, heap.heads
    ensures heap.Valid() && heap.owned == map[] && FreeBlocks(heap.lists) == HeapBlocks(regions)
  {
    for i := 0 to |regions|
      invariant heap.Valid() && heap.owned == map[] && FreeBlocks(heap.lists) == HeapBlocks(regions[..i])
    {
      SeedNext(heap, regions, i);
    }
    assert regions[..|regions|] == regions;
  }

  method SeedNext(heap: Allocator, regions: seq<Region>, i: nat)
    requires heap.Valid() && heap.owned == map[] && Seedworthy(regions) && i < |regions|
    requires FreeBlocks(heap.lists) == HeapBlocks(regions[..i])
    modifies heap, heap.heads
    ensures heap.Valid() && heap.owned == map[] && FreeBlocks(heap.lists) == HeapBlocks(regions[..i + 1])
  {
    hide ListsOk;
    hide HeapInv;
    hide OwnedOk;
    hide RegionBlocks;
    hide HeapBlocks;
    hide AlignUp;
    hide AlignDown;
    ghost var ls, r := heap.lists, regions[i];
    Unowned(heap.memory, heap.heads[..], ls);
    SeededBeside(regions, i, FreeBlocks(ls));
    heap.AddRegion(regions[i].base, regions[i].size);
    SeededBlocks(ls, r);
    HeapBlocksNext(regions, i);
  }

  lemma Unowned(m: Mem, heads: seq<nat>, ls: FreeLists)
    requires ValidState(m, heads, ls, map[])
    ensures NoRepeats(ls) && Managed(Heap(ls, OwnedBlocks(map[]))) == FreeBlocks(ls)
  {}

  lemma SeededBeside(regions: seq<Region>, i: nat, s: set<Block>)
    requires Seedworthy(regions) && i < |regions| && s == HeapBlocks(regions[..i])
    ensures forall b <- s ::
      b.Limit() <= AlignUp(regions[i].base, PAGE) || AlignDown(regions[i].End(), PAGE) <= b.base
  {
    hide AlignUp;
    hide AlignDown;
    forall b | b in s
      ensures b.Limit() <= AlignUp(regions[i].base, PAGE) || AlignDown(regions[i].End(), PAGE) <= b.base
    {
      var j :| 0 <= j < i && b in RegionBlocks(regions[..i][j]);
      assert regions[..i][j] == regions[j];
      BlocksBeside(regions, j, i, b);
    }
  }

  lemma SeededBlocks(ls: FreeLists, r: Region)
    requires r.End() <= MEMORY_LIMIT && (r.base > 0 || r.size == 0) && NoRepeats(ls)
    requires forall b <- FreeBlocks(ls) :: b.Limit() <= AlignUp(r.base, PAGE) || AlignDown(r.End(), PAGE) <= b.base
    ensures var start, end := AlignUp(r.base, PAGE), AlignDown(r.End(), PAGE);
      if start >= end then RegionBlocks(r) == {}
      else Range(start, end).Pages() && FreeBlocks(Seed(ls, start, end)) == FreeBlocks(ls) + RegionBlocks(r)
  {
    hide AlignUp;
    hide AlignDown;
    RegionPages(r.base, r.size);
    var start, end := AlignUp(r.base, PAGE), AlignDown(r.End(), PAGE);
    if start < end { SeedAdds(ls, start, end); }
  }

  /** `initialize`, up to the point where the heap is ready. The usable entries of the firmware's maps do not overlap.
      `ok` is false when an assertion halts the machine for want of room in the region list. */
  method BuildHeap(memory: Mem, info: Info, kernel: Reservation)
    returns (ok: bool, map_: MemoryRegions, heap: Allocator)
    requires AllSeparate(Usable(info.tags)) && Physical(Usable(info.tags)) && AllBounded(ReservedRanges(info, kernel))
    ensures fresh(heap) && fresh(heap.heads) && heap.Valid() && heap.owned == map[]
    ensures |Usable(info.tags)| + |ReservedRanges(info, kernel)| <= MAX_MEMORY_REGIONS ==> ok
    ensures ok ==> Seedworthy(map_.regions)
    ensures ok ==> Available(Usable(info.tags), ReservedRanges(info, kernel), map_.regions)
    ensures ok ==> FreeBlocks(heap.lists) == HeapBlocks(map_.regions)
    ensures ok ==> forall a: nat :: InRegions(map_.regions, a) <==> UsableAt(info.tags, a) && !Kept(info, kernel, a)
    ensures ok ==> forall a: nat :: Covers(FreeBlocks(heap.lists), a) ==>
      UsableAt(info.tags, a) && !Kept(info, kernel, a)
  {
    hide UsableAt;
    hide Kept;
    ghost var usable, rs := Usable(info.tags), ReservedRanges(info, kernel);
    map_ := new MemoryRegions();
    heap := new Allocator(memory);
    ok := AddUsableRegions(map_, info.tags);
    if !ok { return; }
    ok := ReserveAll(map_, info, kernel);
    if !ok { return; }
    NothingAtZero(usable, rs, map_.regions);
    SeedHeap(heap, map_.regions);
    forall a: nat | Covers(FreeBlocks(heap.lists), a) ensures InRegions(usable, a) && !Taken(rs, a) {
      HeapAvoidsReserved(usable, rs, map_.regions, a);
    }
    AvailableIs(info, kernel, map_.regions);
  }

  const TEMPORARY_SIZE: nat := 1024 * 1024

  /** There is a block of 2 MiB or more, which it takes to allocate 1 MiB. */
  ghost predicate RoomForTemporary(s: set<Block>) {
    exists b :: b in s && b.order >= 21
  }

  /** The allocation for the temporary memory, on a heap of which nothing has been handed out. */
  method AllocateTemporary(heap: Allocator) returns (ok: bool, pointer: nat)
    requires heap.Valid() && heap.owned == map[]
    modifies heap, heap.heads
    ensures heap.Valid() && ok == RoomForTemporary(old(FreeBlocks(heap.lists)))
    ensures ok ==> 0 < pointer && pointer + TEMPORARY_SIZE <= MEMORY_LIMIT && heap.owned.Keys == {pointer}
    ensures ok ==> heap.owned[pointer].size == 0x10_0000 && heap.owned[pointer].live
    ensures SameCover(old(FreeBlocks(heap.lists)), Managed(heap.Heap()))
  {
    hide ListsOk;
    hide HeapInv;
    hide OwnedOk;
    hide AllocateStep;
    hide FirstFit;
    hide FitsIn;
    hide TargetOrder;
    hide UserAddress;
    ghost var ls := heap.lists;
    TemporaryFits(heap.memory, heap.heads[..], ls);
    var error;
    pointer, error := heap.Allocate(TEMPORARY_SIZE, 16);
    ok := pointer != 0;
    if error == Error.None {
      OldPlaced(heap.memory, heap.owned, pointer);
      OwnedInMemory(heap.lists, heap.owned, pointer);
    }
  }

  /** What that allocation finds. */
  lemma TemporaryFits(m: Mem, heads: seq<nat>, ls: FreeLists)
    requires ValidState(m, heads, ls, map[])
    ensures ValidRequest(TEMPORARY_SIZE, 16) && TargetOrder(RequiredSize(TEMPORARY_SIZE, 16)) == 21
    ensures FirstFit(ls, 21) <= MAX_ORDER <==> RoomForTemporary(FreeBlocks(ls))
    ensures FirstFit(ls, 21) <= MAX_ORDER ==> FitsIn(Block(ls[FirstFit(ls, 21)][0], 21), TEMPORARY_SIZE, 16)
    ensures SameCover(FreeBlocks(ls), Managed(AllocateStep(Heap(ls, OwnedBlocks(map[])), TEMPORARY_SIZE, 16)))
  {
    hide ListsOk;
    hide HeapInv;
    hide AllocateStep;
    hide TargetOrder;
    hide FitsIn;
    var h := Heap(ls, OwnedBlocks(map[]));
    assert h.owned == {} && Managed(h) == FreeBlocks(ls);
    SixteenIsPower();
    assert Pow2(10) == 1024;
    Pow2Add(10, 10);
    TargetIs(RequiredSize(TEMPORARY_SIZE, 16), 21);
    AllocateKeeps(h, TEMPORARY_SIZE, 16);
    var o := FirstFit(ls, 21);
    if o <= MAX_ORDER {
      assert Block(ls[o][0], o) in FreeBlocks(ls);
      var b, c := CutKeeps(h, o, 21);
      RequiredFits(c, TEMPORARY_SIZE, 16);
    }
  }

  /** `initialize`. `ok` is false when an assertion halts the machine: for want of room in the region list, or of a
      block of 2 MiB for the temporary memory. */
  method Initialize(memory: Mem, info: Info, kernel: Reservation)
    returns (ok: bool, map_: MemoryRegions, heap: Allocator, temporary: TemporaryAllocator.State?, pointer: nat)
    requires AllSeparate(Usable(info.tags)) && Physical(Usable(info.tags)) && AllBounded(ReservedRanges(info, kernel))
    ensures |Usable(info.tags)| + |ReservedRanges(info, kernel)| <= MAX_MEMORY_REGIONS ==>
      Seedworthy(map_.regions) && ok == RoomForTemporary(HeapBlocks(map_.regions))
    ensures ok ==> Seedworthy(map_.regions)
    ensures ok ==> Available(Usable(info.tags), ReservedRanges(info, kernel), map_.regions)
    ensures ok ==> heap.Valid() && heap.owned.Keys == {pointer} && heap.owned[pointer].size == 0x10_0000
    ensures ok ==> SameCover(HeapBlocks(map_.regions), Managed(heap.Heap()))
    ensures ok ==> forall a: nat :: InRegions(map_.regions, a) <==> UsableAt(info.tags, a) && !Kept(info, kernel, a)
    ensures ok ==> forall a: nat :: Covers(Managed(heap.Heap()), a) ==>
      UsableAt(info.tags, a) && !Kept(info, kernel, a)
    ensures ok ==> temporary != null && temporary.Valid() && !temporary.backed
    ensures ok ==>
      temporary.View() == Arenas.Arena(Arenas.Span(pointer, pointer + 0x10_0000), [], 0, 0, 0, map[])
  {
    hide ListsOk;
    hide HeapInv;
    hide OwnedOk;
    hide Available;
    hide Seedworthy;
    hide Physical;
    hide UsableAt;
    hide Kept;
    temporary, pointer := null, 0;
    ok, map_, heap := BuildHeap(memory, info, kernel);
    if !ok { return; }
    ok, pointer := AllocateTemporary(heap);
    if !ok { return; }
    temporary := new TemporaryAllocator.State(pointer, TEMPORARY_SIZE, false);
  }
}
