/** The boot memory map: usable regions out of which reserved ranges are cut in place. */
module MemoryMap {
  import opened Bits
  import opened BuddySeed

  const MAX_MEMORY_REGIONS: nat := 128

  datatype Region = Region(base: nat, size: nat) {
    function End(): nat { base + size }

    ghost predicate Holds(a: nat) { base <= a < base + size }

    predicate Meets(start: nat, end: nat) { !(end <= base || start >= End()) }

    /** The range has parts of the region on both sides. */
    predicate Surrounds(start: nat, end: nat) { base < start && end < End() }

    ghost predicate Within(other: Region) { other.base <= base && End() <= other.End() }
  }

  ghost predicate InRegions(s: seq<Region>, a: nat) {
    exists k :: 0 <= k < |s| && s[k].Holds(a)
  }

  ghost predicate Separate(r: Region, q: Region) { r.End() <= q.base || q.End() <= r.base }

  ghost predicate AllSeparate(s: seq<Region>) {
    forall j, k :: 0 <= j < k < |s| ==> Separate(s[j], s[k])
  }

  ghost predicate Addressable(s: seq<Region>) {
    forall k :: 0 <= k < |s| ==> s[k].End() < U64_LIMIT
  }

  ghost predicate Surrounded(s: seq<Region>, start: nat, end: nat) {
    exists k :: 0 <= k < |s| && s[k].Surrounds(start, end)
  }

  ghost predicate NoneMeets(s: seq<Region>, n: nat, start: nat, end: nat) {
    forall k :: 0 <= k < n && k < |s| ==> !s[k].Meets(start, end)
  }

  ghost predicate Part(r: Region, o: seq<Region>) {
    exists j :: 0 <= j < |o| && r.Within(o[j])
  }

  ghost predicate PartOf(s: seq<Region>, o: seq<Region>) {
    forall k :: 0 <= k < |s| ==> Part(s[k], o)
  }

  /** The lists hold the same addresses outside the range. */
  ghost predicate SameBeside(s: seq<Region>, o: seq<Region>, start: nat, end: nat) {
    forall a: nat :: InRegions(o, a) && !(start <= a < end) ==> InRegions(s, a)
  }

  /** The number of regions that overlap the range. */
  function Meeting(s: seq<Region>, start: nat, end: nat): nat {
    if s == [] then 0 else (if s[0].Meets(start, end) then 1 else 0) + Meeting(s[1..], start, end)
  }

  lemma {:induction false} MeetingSum(s: seq<Region>, t: seq<Region>, start: nat, end: nat)
    ensures Meeting(s + t, start, end) == Meeting(s, start, end) + Meeting(t, start, end)
  {
    if s == [] {
      assert s + t == t;
    } else {
      MeetingSum(s[1..], t, start, end);
      assert (s + t)[1..] == s[1..] + t;
    }
  }

  /** The loop of `reserve_range` at index `i` of `s`, started on `o`; `cut` is set once a region has been split. */
  ghost predicate Reserving(o: seq<Region>, s: seq<Region>, i: nat, start: nat, end: nat, cut: bool) {
    && i <= |s| <= MAX_MEMORY_REGIONS && Addressable(s)
    && NoneMeets(s, i, start, end) && PartOf(s, o) && SameBeside(s, o, start, end)
    && (AllSeparate(o) ==> Tidy(o, s, start, end, cut))
  }

  /** What a list without overlaps adds: at most one region surrounds the range, and then no other meets it. */
  ghost predicate Tidy(o: seq<Region>, s: seq<Region>, start: nat, end: nat, cut: bool) {
    && AllSeparate(s)
    && (if cut then |s| == |o| + 1 && NoneMeets(s, |s|, start, end) && Surrounded(o, start, end) else |s| <= |o|)
    && (!cut && Surrounded(o, start, end) ==> s == o)
  }

  /** In a list without overlaps, no region but one that surrounds the range meets it. */
  lemma OnlyOneMeets(s: seq<Region>, j: nat, k: nat, start: nat, end: nat)
    requires AllSeparate(s) && j < |s| && k < |s| && j != k && start < end
    ensures s[j].Surrounds(start, end) ==> !s[k].Meets(start, end)
  {
    SeparateAt(s, j, k);
  }

  lemma SeparateAt(s: seq<Region>, j: nat, k: nat)
    requires AllSeparate(s) && j < |s| && k < |s| && j != k
    ensures Separate(s[j], s[k])
  {
    if k < j { assert Separate(s[k], s[j]); }
  }

  lemma SkipRegion(o: seq<Region>, s: seq<Region>, i: nat, start: nat, end: nat, cut: bool)
    requires Reserving(o, s, i, start, end, cut) && i < |s| && start < end && !s[i].Meets(start, end)
    ensures Reserving(o, s, i + 1, start, end, cut)
    ensures Meeting(s[i + 1..], start, end) == Meeting(s[i..], start, end)
  {
    assert s[i..][1..] == s[i + 1..];
  }

  /** Replacing the region at `i` by a part of it that covers what lies beside the range. */
  lemma ShrinkRegion(o: seq<Region>, s: seq<Region>, i: nat, start: nat, end: nat, cut: bool, r: Region)
    requires Reserving(o, s, i, start, end, cut) && i < |s| && start < end
    requires s[i].Meets(start, end) && !s[i].Surrounds(start, end)
    requires r.Within(s[i]) && !r.Meets(start, end)
    requires forall a: nat :: s[i].Holds(a) && !(start <= a < end) ==> r.Holds(a)
    ensures Reserving(o, s[i := r], i + 1, start, end, cut)
    ensures Meeting(s[i := r][i + 1..], start, end) < Meeting(s[i..], start, end)
  {
    var t := s[i := r];
    assert s[i..][1..] == t[i + 1..];
    ReplacedPart(o, s, i, r);
    forall a: nat | InRegions(o, a) && !(start <= a < end) ensures InRegions(t, a) {
      var k :| 0 <= k < |s| && s[k].Holds(a);
      assert t[k].Holds(a);
    }
    if AllSeparate(o) {
      ReplacedSeparate(s, i, r);
      NotSurrounded(o, s, i, start, end, cut);
    }
  }

  lemma ReplacedPart(o: seq<Region>, s: seq<Region>, i: nat, r: Region)
    requires PartOf(s, o) && i < |s| && r.Within(s[i])
    ensures PartOf(s[i := r], o)
  {
    assert Part(s[i], o);
    var j :| 0 <= j < |o| && s[i].Within(o[j]);
    assert r.Within(o[j]);
  }

  lemma ReplacedSeparate(s: seq<Region>, i: nat, r: Region)
    requires AllSeparate(s) && i < |s| && r.Within(s[i])
    ensures AllSeparate(s[i := r])
  {
    var t := s[i := r];
    forall j, k | 0 <= j < k < |t| ensures Separate(t[j], t[k]) { assert Separate(s[j], s[k]); }
  }

  /** If the region at hand meets the range without surrounding it, no region surrounded it at the start. */
  lemma NotSurrounded(o: seq<Region>, s: seq<Region>, i: nat, start: nat, end: nat, cut: bool)
    requires Reserving(o, s, i, start, end, cut) && AllSeparate(o) && i < |s| && start < end
    requires s[i].Meets(start, end) && !s[i].Surrounds(start, end)
    ensures !cut && !Surrounded(o, start, end)
  {
    forall k | 0 <= k < |s| ensures !s[k].Surrounds(start, end) {
      if k != i { OnlyOneMeets(s, k, i, start, end); }
    }
  }

  /** Overwriting the region at `i` with the last one and dropping the last. */
  function SwapRemove(s: seq<Region>, i: nat): seq<Region>
    requires i < |s|
  {
    s[i := s[|s| - 1]][..|s| - 1]
  }

  lemma RemoveRegion(o: seq<Region>, s: seq<Region>, i: nat, start: nat, end: nat, cut: bool)
    requires Reserving(o, s, i, start, end, cut) && i < |s| && start < end
    requires s[i].Meets(start, end) && start <= s[i].base && s[i].End() <= end
    ensures Reserving(o, SwapRemove(s, i), i, start, end, cut)
    ensures Meeting(SwapRemove(s, i)[i..], start, end) < Meeting(s[i..], start, end)
  {
    var t, last := SwapRemove(s, i), |s| - 1;
    forall a: nat | InRegions(o, a) && !(start <= a < end) ensures InRegions(t, a) {
      var k :| 0 <= k < |s| && s[k].Holds(a);
      assert k != i;
      if k < last { assert t[k].Holds(a); } else { assert t[i].Holds(a); }
    }
    if AllSeparate(o) {
      NotSurrounded(o, s, i, start, end, cut);
      RemovedSeparate(s, i);
    }
    RemovedMeeting(s, i, start, end);
  }

  lemma RemovedSeparate(s: seq<Region>, i: nat)
    requires AllSeparate(s) && i < |s|
    ensures AllSeparate(SwapRemove(s, i))
  {
    var t, last := SwapRemove(s, i), |s| - 1;
    forall j, k | 0 <= j < k < |t| ensures Separate(t[j], t[k]) {
      assert Separate(s[j], s[k]);
      assert Separate(s[j], s[last]);
      assert Separate(s[k], s[last]);
    }
  }

  lemma RemovedMeeting(s: seq<Region>, i: nat, start: nat, end: nat)
    requires i < |s| && s[i].Meets(start, end)
    ensures Meeting(SwapRemove(s, i)[i..], start, end) == Meeting(s[i..], start, end) - 1
  {
    var t, last := SwapRemove(s, i), |s| - 1;
    assert s[i..] == [s[i]] + s[i + 1..];
    MeetingSum([s[i]], s[i + 1..], start, end);
    if i < last {
      assert s[i + 1..] == s[i + 1..last] + [s[last]];
      MeetingSum(s[i + 1..last], [s[last]], start, end);
      assert t[i..] == [s[last]] + s[i + 1..last];
      MeetingSum([s[last]], s[i + 1..last], start, end);
    } else {
      assert t[i..] == [] && s[i + 1..] == [];
    }
  }

  /** The list after the region at `i` has been split around the range. */
  function Split(s: seq<Region>, i: nat, start: nat, end: nat): seq<Region>
    requires i < |s| && s[i].Surrounds(start, end)
  {
    (s + [Region(end, s[i].End() - end)])[i := Region(s[i].base, start - s[i].base)]
  }

  lemma SplitRegion(o: seq<Region>, s: seq<Region>, i: nat, start: nat, end: nat, cut: bool)
    requires Reserving(o, s, i, start, end, cut) && i < |s| < MAX_MEMORY_REGIONS && start < end
    requires s[i].Surrounds(start, end)
    ensures Reserving(o, Split(s, i, start, end), i + 1, start, end, true)
    ensures Meeting(Split(s, i, start, end)[i + 1..], start, end) < Meeting(s[i..], start, end)
  {
    var t := Split(s, i, start, end);
    SplitCovers(o, s, i, start, end);
    if AllSeparate(o) {
      SplitSeparate(s, i, start, end);
      SplitTidy(o, s, i, start, end, cut);
    }
    assert s[i..] == [s[i]] + s[i + 1..];
    assert t[i + 1..] == s[i + 1..] + [t[|s|]];
    MeetingSum(s[i + 1..], [t[|s|]], start, end);
  }

  lemma SplitCovers(o: seq<Region>, s: seq<Region>, i: nat, start: nat, end: nat)
    requires PartOf(s, o) && SameBeside(s, o, start, end) && NoneMeets(s, i, start, end)
    requires i < |s| && s[i].Surrounds(start, end) && start < end
    ensures var t := Split(s, i, start, end);
      PartOf(t, o) && SameBeside(t, o, start, end) && NoneMeets(t, i + 1, start, end)
  {
    var t := Split(s, i, start, end);
    assert Part(s[i], o);
    var j :| 0 <= j < |o| && s[i].Within(o[j]);
    assert t[i].Within(o[j]) && t[|s|].Within(o[j]);
    forall k | 0 <= k < |s| && k != i ensures Part(t[k], o) { assert t[k] == s[k]; }
    forall a: nat | InRegions(o, a) && !(start <= a < end) ensures InRegions(t, a) {
      var k :| 0 <= k < |s| && s[k].Holds(a);
      if k == i { assert t[i].Holds(a) || t[|s|].Holds(a); } else { assert t[k].Holds(a); }
    }
  }

  lemma SplitSeparate(s: seq<Region>, i: nat, start: nat, end: nat)
    requires AllSeparate(s) && i < |s| && s[i].Surrounds(start, end) && start < end
    ensures AllSeparate(Split(s, i, start, end))
  {
    var t := Split(s, i, start, end);
    forall j, k | 0 <= j < k < |t| ensures Separate(t[j], t[k]) {
      if k < |s| {
        assert Separate(s[j], s[k]);
      } else if j < i {
        assert Separate(s[j], s[i]);
      } else if i < j {
        assert Separate(s[i], s[j]);
      }
    }
  }

  lemma SplitTidy(o: seq<Region>, s: seq<Region>, i: nat, start: nat, end: nat, cut: bool)
    requires AllSeparate(o) && Tidy(o, s, start, end, cut) && PartOf(s, o)
    requires i < |s| && s[i].Surrounds(start, end) && start < end
    ensures !cut && |s| == |o| && Surrounded(o, start, end)
    ensures NoneMeets(Split(s, i, start, end), |s| + 1, start, end)
  {
    assert Part(s[i], o);
    var j :| 0 <= j < |o| && s[i].Within(o[j]);
    assert o[j].Surrounds(start, end);
    assert s[i].Meets(start, end);
    SplitMeets(s, i, start, end);
  }

  lemma SplitMeets(s: seq<Region>, i: nat, start: nat, end: nat)
    requires AllSeparate(s) && i < |s| && s[i].Surrounds(start, end) && start < end
    ensures NoneMeets(Split(s, i, start, end), |s| + 1, start, end)
  {
    var t := Split(s, i, start, end);
    forall k | 0 <= k < |s| && k != i ensures !t[k].Meets(start, end) {
      OnlyOneMeets(s, i, k, start, end);
      assert t[k] == s[k];
    }
    assert !t[i].Meets(start, end) && !t[|s|].Meets(start, end);
  }

  /** `s` is `o` with the range taken out. */
  ghost predicate Reserved(o: seq<Region>, s: seq<Region>, start: nat, end: nat) {
    && (forall a: nat :: InRegions(s, a) <==> InRegions(o, a) && !(start <= a < end))
    && NoneMeets(s, |s|, start, end) && PartOf(s, o)
  }

  lemma ReserveBegin(o: seq<Region>, start: nat, end: nat)
    requires |o| <= MAX_MEMORY_REGIONS && Addressable(o)
    ensures Reserving(o, o, 0, start, end, false)
  {
    forall k | 0 <= k < |o| ensures Part(o[k], o) {
      assert o[k].Within(o[k]);
    }
  }

  lemma ReserveDone(o: seq<Region>, s: seq<Region>, start: nat, end: nat, cut: bool)
    requires Reserving(o, s, |s|, start, end, cut)
    ensures Reserved(o, s, start, end)
    ensures AllSeparate(o) ==> AllSeparate(s) && |s| <= |o| + 1
    ensures AllSeparate(o) && start < end ==> |o| < MAX_MEMORY_REGIONS || !Surrounded(o, start, end)
  {
    forall a: nat | InRegions(s, a) ensures InRegions(o, a) && !(start <= a < end) {
      var k :| 0 <= k < |s| && s[k].Holds(a);
      assert Part(s[k], o);
      var j :| 0 <= j < |o| && s[k].Within(o[j]);
      assert o[j].Holds(a);
    }
    if AllSeparate(o) && Surrounded(o, start, end) && !cut && start < end {
      var k :| 0 <= k < |o| && o[k].Surrounds(start, end);
      assert s[k].Meets(start, end);
    }
  }

  /** Rounding a range outwards to whole pages. */
  lemma Rounded(start: nat, end: nat)
    requires start < end <= U64_LIMIT - PAGE
    ensures var s, e := AlignDown(start, PAGE), AlignUp(end, PAGE); s <= start < end <= e < U64_LIMIT
    ensures AlignDown(start, PAGE) % PAGE == 0 && AlignUp(end, PAGE) % PAGE == 0
  {
    Pow2Bounds(12);
    AlignDownIs(start, 12);
    AlignUpIs(end, 12);
  }

  class MemoryRegions {
    var regions: seq<Region>

    ghost predicate Valid()
      reads this
    {
      |regions| <= MAX_MEMORY_REGIONS && Addressable(regions)
    }

    constructor ()
      ensures Valid() && regions == []
    {
      regions := [];
    }

    /** `reserve_range`: `ok` is false when the overflow assertion halts the machine. */
    method ReserveRange(start0: nat, end0: nat) returns (ok: bool)
      requires Valid() && end0 <= U64_LIMIT - PAGE
      modifies this
      ensures Valid()
      ensures start0 >= end0 ==> ok && regions == old(regions)
      ensures start0 < end0 && ok ==> Reserved(old(regions), regions, AlignDown(start0, PAGE), AlignUp(end0, PAGE))
      ensures AllSeparate(old(regions)) && ok ==> AllSeparate(regions) && |regions| <= |old(regions)| + 1
      ensures AllSeparate(old(regions)) && start0 < end0 ==>
        (ok <==> |old(regions)| < MAX_MEMORY_REGIONS
                 || !Surrounded(old(regions), AlignDown(start0, PAGE), AlignUp(end0, PAGE)))
    {
      hide AlignDown;
      hide AlignUp;
      hide Reserving;
      hide Meeting;
      if start0 >= end0 { return true; }
      Rounded(start0, end0);
      var start, end := AlignDown(start0, PAGE), AlignUp(end0, PAGE);
      ghost var o, cut := regions, false;
      var i: nat := 0;
      ReserveBegin(o, start, end);
      while i < |regions|
        invariant i <= |regions| && Valid() && Reserving(o, regions, i, start, end, cut)
        decreases Meeting(regions[i..], start, end), |regions| - i
      {
        cut, i, ok := ReserveAt(o, i, start, end, cut);
        if !ok { return; }
      }
      ReserveDone(o, regions, start, end, cut);
      ok := true;
    }

    /** One turn of the loop of `reserve_range`. */
    method ReserveAt(ghost o: seq<Region>, i: nat, start: nat, end: nat, ghost cut: bool)
      returns (ghost cut': bool, next: nat, ok: bool)
      requires Reserving(o, regions, i, start, end, cut) && i < |regions| && start < end < U64_LIMIT
      modifies this
      ensures ok ==> Reserving(o, regions, next, start, end, cut') && Valid() && next <= |regions|
      ensures ok ==> Meeting(regions[next..], start, end) < Meeting(old(regions)[i..], start, end)
                     || (Meeting(regions[next..], start, end) == Meeting(old(regions)[i..], start, end)
                         && |regions| - next < |old(regions)| - i)
      ensures !ok ==> Valid() && (AllSeparate(o) ==> |o| == MAX_MEMORY_REGIONS && Surrounded(o, start, end))
    {
      hide Meeting;
      cut', ok, next := cut, true, i + 1;
      var regionStart, regionEnd := regions[i].base, regions[i].End();
      if end <= regionStart || start >= regionEnd {
        SkipRegion(o, regions, i, start, end, cut);
        return;
      }
      if start <= regionStart && end >= regionEnd {
        RemoveRegion(o, regions, i, start, end, cut);
        var last := |regions| - 1;
        if i != last { regions := regions[i := regions[last]]; }
        regions := regions[..last];
        assert regions == SwapRemove(old(regions), i);
        next := i;
        return;
      }
      if start <= regionStart {
        ShrinkRegion(o, regions, i, start, end, cut, Region(end, regionEnd - end));
        regions := regions[i := Region(end, regionEnd - end)];
        return;
      }
      if end >= regionEnd {
        ShrinkRegion(o, regions, i, start, end, cut, Region(regionStart, start - regionStart));
        regions := regions[i := Region(regionStart, start - regionStart)];
        return;
      }
      if AllSeparate(o) { SplitTidy(o, regions, i, start, end, cut); }
      if |regions| >= MAX_MEMORY_REGIONS { return cut, i, false; }
      SplitRegion(o, regions, i, start, end, cut);
      regions := regions + [Region(end, regionEnd - end)];
      regions := regions[i := Region(regionStart, start - regionStart)];
      cut' := true;
    }

    /** `add_usable_region`. */
    method AddUsable(r: Region) returns (ok: bool)
      requires Valid() && r.End() < U64_LIMIT
      modifies this
      ensures Valid() && (ok <==> |old(regions)| < MAX_MEMORY_REGIONS)
      ensures regions == if ok then old(regions) + [r] else old(regions)
    {
      ok := |regions| < MAX_MEMORY_REGIONS;
      if ok { regions := regions + [r]; }
    }
  }
}
