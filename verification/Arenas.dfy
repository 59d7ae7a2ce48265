/** The temporary allocator's bump regions: what every allocation keeps, and what rewinding to a mark gives back. */
module Arenas {
  import opened Bits

  const HEADER: nat := 16
  const S64_LIMIT: nat := 0x8000_0000_0000_0000

  /** The addresses from `start` to `end`. */
  datatype Span = Span(start: nat, end: nat)

  ghost predicate Apart(s: Span, t: Span) { s.end <= t.start || t.end <= s.start }

  /** An overflow page: a header and `size` bytes. */
  datatype Page = Page(base: nat, size: nat) {
    function Data(): Span { Span(base + HEADER, base + HEADER + size) }

    function Whole(): Span { Span(base, base + HEADER + size) }
  }

  /** `live` maps the allocations to their sizes; `pages` has the newest page first. */
  datatype Arena = Arena(original: Span, pages: seq<Page>, occupied: nat, total: nat, high: nat, live: map<nat, nat>) {
    /** The region in use. */
    function Top(): Span { if pages == [] then original else pages[0].Data() }

    function Current(): nat { Top().start + occupied }
  }

  ghost predicate PagesOk(a: Arena) {
    && 0 < a.original.start < a.original.end < S64_LIMIT
    && (forall i :: 0 <= i < |a.pages| ==>
      0 < a.pages[i].base && a.pages[i].Whole().end < S64_LIMIT && Apart(a.original, a.pages[i].Whole()))
    && (forall i, j :: 0 <= i < j < |a.pages| ==> Apart(a.pages[i].Whole(), a.pages[j].Whole()))
  }

  ghost predicate Inside(p: nat, n: nat, s: Span) { s.start <= p && p + n <= s.end }

  /** `n` bytes at `p` lie in what has been given out: below the mark in the region in use, or in an older region. */
  ghost predicate GivenOut(a: Arena, p: nat, n: nat) {
    || Inside(p, n, Span(a.Top().start, a.Current()))
    || (exists i :: 1 <= i < |a.pages| && Inside(p, n, a.pages[i].Data()))
    || (a.pages != [] && Inside(p, n, a.original))
  }

  ghost predicate LiveOk(a: Arena) {
    && (forall p <- a.live :: a.live[p] > 0 && GivenOut(a, p, a.live[p]))
    && (forall p, q :: p in a.live && q in a.live && p != q ==>
      Apart(Span(p, p + a.live[p]), Span(q, q + a.live[q])))
  }

  ghost predicate ArenaOk(a: Arena) {
    PagesOk(a) && a.Current() <= a.Top().end && a.total <= a.high && LiveOk(a)
  }

  /** Nothing that `b` had has been given up by `a`. */
  ghost predicate Extends(a: Arena, b: Arena) {
    && a.original == b.original && |b.pages| <= |a.pages| && a.pages[|a.pages| - |b.pages|..] == b.pages
    && (|a.pages| == |b.pages| ==> a.occupied >= b.occupied)
    && (forall p <- b.live :: p in a.live && a.live[p] >= b.live[p])
  }

  lemma ExtendsTrans(a: Arena, b: Arena, c: Arena)
    requires Extends(a, b) && Extends(b, c)
    ensures Extends(a, c)
  {
    assert a.pages[|a.pages| - |c.pages|..] == b.pages[|b.pages| - |c.pages|..];
  }

  // ---------------------------------------------------------------- allocating

  /** The ssize arguments of an allocation that is not refused outright. */
  predicate Request(n: int, alignment: int) {
    0 < n < S64_LIMIT && alignment < S64_LIMIT && IsPowerOfTwo(alignment)
  }

  function Place(a: Arena, alignment: nat): nat
    requires 0 < alignment <= U64_LIMIT
  {
    AlignUp(a.Current(), alignment)
  }

  predicate Fits(a: Arena, n: nat, alignment: nat)
    requires 0 < alignment <= U64_LIMIT
  {
    Place(a, alignment) + n <= a.Top().end
  }

  function Max(x: nat, y: nat): nat { if x > y then x else y }

  /** `allocate_from_current_page` once it has found room at `p`. */
  function Bump(a: Arena, p: nat, n: nat): Arena
    requires a.Current() <= p
  {
    var total := a.total + (p + n - a.Current());
    a.(occupied := p + n - a.Top().start, total := total, high := Max(a.high, total), live := a.live[p := n])
  }

  /** The place of an allocation is aligned, and nothing before it is lost but what alignment takes. */
  lemma PlaceIs(a: Arena, alignment: nat)
    requires IsPowerOfTwo(alignment) && alignment < S64_LIMIT && a.Current() < S64_LIMIT
    ensures Place(a, alignment) % alignment == 0 && a.Current() <= Place(a, alignment) < a.Current() + alignment
  {
    PowerOfTwoTest(alignment);
    var k := Log2(alignment);
    Pow2Bounds(k);
    AlignUpIs(a.Current(), k);
  }

  /** What is live lies beside the new allocation. */
  lemma BesideBump(a: Arena, p: nat, n: nat, q: nat)
    requires ArenaOk(a) && a.Current() <= p && 0 < n && p + n <= a.Top().end && q in a.live
    ensures Apart(Span(p, p + n), Span(q, q + a.live[q])) && GivenOut(Bump(a, p, n), q, a.live[q])
  {
    hide PagesOk;
    hide GivenOut;
    GivenOutBelow(a, q, a.live[q], p, n);
  }

  lemma BumpExtends(a: Arena, p: nat, n: nat)
    requires a.Current() <= p && p !in a.live
    ensures Extends(Bump(a, p, n), a)
  {}

  lemma BumpFits(a: Arena, p: nat, n: nat)
    requires ArenaOk(a) && a.Current() <= p && p + n <= a.Top().end
    ensures var b := Bump(a, p, n);
      && b.pages == a.pages && b.original == a.original && b.live == a.live[p := n]
      && b.Current() == p + n && b.Top() == a.Top() && b.total <= b.high
      && Inside(p, n, Span(b.Top().start, b.Current())) && Inside(p, n, a.Top())
  {
    hide PagesOk;
    hide LiveOk;
  }

  /** An allocation lies in the region in use and overlaps nothing that is live. */
  lemma BumpOk(a: Arena, p: nat, n: nat)
    requires ArenaOk(a) && a.Current() <= p && 0 < n && p + n <= a.Top().end
    ensures forall q <- a.live :: Apart(Span(p, p + n), Span(q, q + a.live[q]))
    ensures ArenaOk(Bump(a, p, n)) && Extends(Bump(a, p, n), a) && p !in a.live && Inside(p, n, a.Top())
  {
    hide PagesOk;
    hide GivenOut;
    hide LiveOk;
    hide Extends;
    hide Inside;
    hide Apart;
    hide Bump;
    var b := Bump(a, p, n);
    BumpFits(a, p, n);
    SamePages(a, b);
    forall q | q in a.live ensures Apart(Span(p, p + n), Span(q, q + a.live[q])) && GivenOut(b, q, a.live[q]) {
      BesideBump(a, p, n, q);
    }
    NotLive(a, p, n);
    WithLive(a, b, p, n);
    BumpExtends(a, p, n);
  }

  /** The live allocations with a new one, or one that has grown. */
  lemma WithLive(a: Arena, b: Arena, p: nat, n: nat)
    requires LiveOk(a) && 0 < n && b.live == a.live[p := n] && GivenOut(b, p, n)
    requires forall q :: q in a.live && q != p ==>
      Apart(Span(p, p + n), Span(q, q + a.live[q])) && GivenOut(b, q, a.live[q])
    ensures LiveOk(b)
  {
    hide GivenOut;
  }

  lemma NotLive(a: Arena, p: nat, n: nat)
    requires LiveOk(a) && n > 0
    requires forall q <- a.live :: Apart(Span(p, p + n), Span(q, q + a.live[q]))
    ensures p !in a.live
  {}

  /** What has been given out lies beside the free part of the region in use. */
  lemma GivenOutBelow(a: Arena, q: nat, m: nat, p: nat, n: nat)
    requires PagesOk(a) && GivenOut(a, q, m) && a.Current() <= p && p + n <= a.Top().end
    ensures Apart(Span(p, p + n), Span(q, q + m))
    ensures forall c: Arena ::
      c.pages == a.pages && c.original == a.original && c.occupied >= a.occupied ==> GivenOut(c, q, m)
  {
    if a.pages != [] && !Inside(q, m, Span(a.Top().start, a.Current())) {
      assert Apart(a.original, a.pages[0].Whole());
    }
  }

  /** `add_new_overflow_page`: the size of the page it asks for. */
  function PageSize(a: Arena, n: nat, alignment: nat): nat {
    var usual := if a.original.end - a.original.start > HEADER then a.original.end - a.original.start - HEADER else 0;
    if usual > n + alignment then usual else n + alignment
  }

  function WithPage(a: Arena, page: Page): Arena { a.(pages := [page] + a.pages, occupied := 0) }

  /** What the backing allocator promises of a page: memory that is not in use. */
  ghost predicate FreshPage(a: Arena, page: Page) {
    && 0 < page.base && page.Whole().end < S64_LIMIT && Apart(a.original, page.Whole())
    && forall i :: 0 <= i < |a.pages| ==> Apart(page.Whole(), a.pages[i].Whole())
  }

  lemma WithPageOk(a: Arena, page: Page)
    requires ArenaOk(a) && FreshPage(a, page)
    ensures ArenaOk(WithPage(a, page)) && Extends(WithPage(a, page), a)
  {
    var b := WithPage(a, page);
    assert b.pages[1..] == a.pages;
    forall i, j | 0 <= i < j < |b.pages| ensures Apart(b.pages[i].Whole(), b.pages[j].Whole()) {
      if i > 0 { assert Apart(a.pages[i - 1].Whole(), a.pages[j - 1].Whole()); }
    }
    forall p | p in a.live ensures GivenOut(b, p, a.live[p]) { OlderRegion(a, b, page, p, a.live[p]); }
  }

  lemma OlderRegion(a: Arena, b: Arena, page: Page, p: nat, n: nat)
    requires b == WithPage(a, page) && GivenOut(a, p, n) && a.Current() <= a.Top().end
    ensures GivenOut(b, p, n)
  {
    if Inside(p, n, Span(a.Top().start, a.Current())) {
      assert a.pages != [] ==> b.pages[1] == a.pages[0] && Inside(p, n, b.pages[1].Data());
    } else if i: int :| 1 <= i < |a.pages| && Inside(p, n, a.pages[i].Data()) {
      assert b.pages[i + 1] == a.pages[i];
    }
  }

  /** The second attempt, on a new page, always succeeds. */
  lemma RetrySucceeds(a: Arena, n: nat, alignment: nat, base: nat)
    requires Request(n, alignment) && FreshPage(a, Page(base, PageSize(a, n, alignment)))
    ensures Fits(WithPage(a, Page(base, PageSize(a, n, alignment))), n, alignment)
  {
    PlaceIs(WithPage(a, Page(base, PageSize(a, n, alignment))), alignment);
  }

  /** The arena that an allocation of `n` bytes is made from: a new page at `base` if it does not fit. */
  function Source(a: Arena, n: nat, alignment: nat, base: nat): Arena
    requires Request(n, alignment)
  {
    if Fits(a, n, alignment) then a else WithPage(a, Page(base, PageSize(a, n, alignment)))
  }

  /** ALLOCATE. */
  function Allocated(a: Arena, n: nat, alignment: nat, base: nat): Arena
    requires Request(n, alignment)
    requires Source(a, n, alignment, base).Current() < S64_LIMIT
  {
    var s := Source(a, n, alignment, base);
    PlaceIs(s, alignment);
    Bump(s, Place(s, alignment), n)
  }

  /** An allocation is aligned, on the old page or a new one, and keeps everything that was there. */
  lemma AllocatedOk(a: Arena, n: nat, alignment: nat, base: nat)
    requires ArenaOk(a) && Request(n, alignment)
    requires Fits(a, n, alignment) || FreshPage(a, Page(base, PageSize(a, n, alignment)))
    ensures var s := Source(a, n, alignment, base);
      && ArenaOk(s) && Fits(s, n, alignment) && Place(s, alignment) % alignment == 0
      && Place(s, alignment) !in a.live && Inside(Place(s, alignment), n, s.Top())
      && (forall q <- a.live :: Apart(Span(Place(s, alignment), Place(s, alignment) + n), Span(q, q + a.live[q])))
      && ArenaOk(Allocated(a, n, alignment, base)) && Extends(Allocated(a, n, alignment, base), a)
      && a.high <= Allocated(a, n, alignment, base).high
  {
    hide Place;
    hide LiveOk;
    hide PagesOk;
    var s, page := Source(a, n, alignment, base), Page(base, PageSize(a, n, alignment));
    SourceOk(a, n, alignment, base);
    PlaceIs(s, alignment);
    BumpOk(s, Place(s, alignment), n);
    ExtendsTrans(Allocated(a, n, alignment, base), s, a);
  }

  lemma SourceOk(a: Arena, n: nat, alignment: nat, base: nat)
    requires ArenaOk(a) && Request(n, alignment)
    requires Fits(a, n, alignment) || FreshPage(a, Page(base, PageSize(a, n, alignment)))
    ensures var s := Source(a, n, alignment, base);
      ArenaOk(s) && Extends(s, a) && s.live == a.live && Fits(s, n, alignment) && s.Current() < S64_LIMIT
  {
    hide LiveOk;
    hide AlignUp;
    if Fits(a, n, alignment) {
      ExtendsSelf(a);
    } else {
      WithPageOk(a, Page(base, PageSize(a, n, alignment)));
      RetrySucceeds(a, n, alignment, base);
    }
  }

  // ---------------------------------------------------------------- growing the last allocation

  /** The allocation at `p` ends where the next one would start, and `n` bytes fit. */
  predicate TailFits(a: Arena, p: nat, oldSize: nat, n: nat) {
    p + oldSize == a.Current() && p + n <= a.Top().end
  }

  function GrowTail(a: Arena, p: nat, oldSize: nat, n: nat): Arena
    requires oldSize <= n
  {
    var more := n - oldSize;
    var total := a.total + more;
    a.(occupied := a.occupied + more, total := total, high := Max(a.high, total), live := a.live[p := n])
  }

  /** The other allocations lie beside the grown one. */
  lemma BesideTail(a: Arena, p: nat, oldSize: nat, n: nat, q: nat)
    requires ArenaOk(a) && p in a.live && a.live[p] == oldSize && 0 < oldSize < n && TailFits(a, p, oldSize, n)
    requires q in a.live && q != p
    ensures Apart(Span(p, p + n), Span(q, q + a.live[q])) && GivenOut(GrowTail(a, p, oldSize, n), q, a.live[q])
  {
    hide PagesOk;
    hide GivenOut;
    GivenOutBelow(a, q, a.live[q], a.Current(), n - oldSize);
    assert Apart(Span(p, p + a.live[p]), Span(q, q + a.live[q]));
  }

  lemma SamePages(a: Arena, b: Arena)
    requires a.pages == b.pages && a.original == b.original
    ensures PagesOk(a) == PagesOk(b) && a.Top() == b.Top()
    ensures forall p, n :: Inside(p, n, Span(b.Top().start, b.Current())) ==> GivenOut(b, p, n)
  {}

  /** Growing the last allocation in place overlaps nothing. */
  lemma GrowTailOk(a: Arena, p: nat, oldSize: nat, n: nat)
    requires ArenaOk(a) && p in a.live && oldSize <= a.live[p] && 0 < oldSize < n && TailFits(a, p, oldSize, n)
    ensures a.live[p] == oldSize && Inside(p, n, a.Top())
    ensures ArenaOk(GrowTail(a, p, oldSize, n)) && Extends(GrowTail(a, p, oldSize, n), a)
    ensures a.high <= GrowTail(a, p, oldSize, n).high
  {
    hide PagesOk;
    hide GivenOut;
    var b := GrowTail(a, p, oldSize, n);
    InTop(a, p, a.live[p], oldSize);
    SamePages(a, b);
    forall q | q in a.live && q != p
      ensures Apart(Span(p, p + n), Span(q, q + a.live[q])) && GivenOut(b, q, a.live[q])
    {
      BesideTail(a, p, oldSize, n, q);
    }
    WithLive(a, b, p, n);
    hide LiveOk;
  }

  lemma InTop(a: Arena, p: nat, m: nat, k: nat)
    requires PagesOk(a) && GivenOut(a, p, m) && 0 < k <= m && p + k == a.Current() <= a.Top().end
    ensures Inside(p, m, Span(a.Top().start, a.Current()))
  {
    if a.pages != [] { assert Apart(a.original, a.pages[0].Whole()); }
  }

  // ---------------------------------------------------------------- marks

  /** An arena with a stack of marks, each the state it was taken in, oldest first. */
  datatype Machine = Machine(arena: Arena, marks: seq<Arena>)

  datatype Op =
    | Allocate(n: nat, alignment: nat, base: nat)
    | Grow(p: nat, oldSize: nat, n: nat)
    | SetMark
    | Rewind

  /** An allocation may find its place or get a new page at `base`. */
  ghost predicate Enabled(m: Machine, op: Op) {
    match op
    case Allocate(n, alignment, base) =>
      && Request(n, alignment) && m.arena.Current() < S64_LIMIT
      && (Fits(m.arena, n, alignment) || FreshPage(m.arena, Page(base, PageSize(m.arena, n, alignment))))
    case Grow(p, oldSize, n) =>
      p in m.arena.live && oldSize <= m.arena.live[p] && 0 < oldSize < n && TailFits(m.arena, p, oldSize, n)
    case SetMark => true
    case Rewind => m.marks != []
  }

  /** `rewind` gives back everything but the high-water mark. */
  function Rewound(a: Arena, mark: Arena): Arena { mark.(high := a.high) }

  ghost function Step(m: Machine, op: Op): Machine
    requires Enabled(m, op)
  {
    match op
    case Allocate(n, alignment, base) =>
      m.(arena := Allocated(m.arena, n, alignment, base))
    case Grow(p, oldSize, n) => m.(arena := GrowTail(m.arena, p, oldSize, n))
    case SetMark => m.(marks := m.marks + [m.arena])
    case Rewind => Machine(Rewound(m.arena, m.marks[|m.marks| - 1]), m.marks[..|m.marks| - 1])
  }

  ghost predicate Nested(marks: seq<Arena>) {
    forall i, j :: 0 <= i < j < |marks| ==> Extends(marks[j], marks[i])
  }

  ghost predicate MachineOk(m: Machine) {
    && ArenaOk(m.arena) && Nested(m.marks)
    && forall i :: 0 <= i < |m.marks| ==>
      ArenaOk(m.marks[i]) && Extends(m.arena, m.marks[i]) && m.marks[i].high <= m.arena.high
  }

  lemma StepOk(m: Machine, op: Op)
    requires MachineOk(m) && Enabled(m, op)
    ensures MachineOk(Step(m, op))
  {
    hide ArenaOk;
    hide Allocated;
    hide GrowTail;
    hide Request;
    var a, t := m.arena, Step(m, op);
    match op
    case Allocate(n, alignment, base) =>
      AllocatedOk(a, n, alignment, base);
      AllExtended(m, t.arena);
    case Grow(p, oldSize, n) =>
      GrowTailOk(a, p, oldSize, n);
      AllExtended(m, t.arena);
    case SetMark => ExtendsSelf(a);
    case Rewind =>
      var last := m.marks[|m.marks| - 1];
      forall i | 0 <= i < |t.marks| ensures Extends(t.arena, t.marks[i]) { assert Extends(last, m.marks[i]); }
      RewoundOk(a, last);
  }

  lemma RewoundOk(a: Arena, mark: Arena)
    requires ArenaOk(mark) && mark.high <= a.high
    ensures ArenaOk(Rewound(a, mark))
  {
    var b := Rewound(a, mark);
    forall p | p in b.live ensures GivenOut(b, p, b.live[p]) { assert GivenOut(mark, p, mark.live[p]); }
  }

  lemma ExtendsSelf(a: Arena)
    ensures Extends(a, a)
  {}

  lemma AllExtended(m: Machine, b: Arena)
    requires MachineOk(m) && Extends(b, m.arena) && m.arena.high <= b.high
    ensures forall i :: 0 <= i < |m.marks| ==> Extends(b, m.marks[i]) && m.marks[i].high <= b.high
  {
    forall i | 0 <= i < |m.marks| ensures Extends(b, m.marks[i]) && m.marks[i].high <= b.high {
      ExtendsTrans(b, m.arena, m.marks[i]);
    }
  }

  ghost predicate Runs(m: Machine, ops: seq<Op>)
    decreases |ops|
  {
    ops == [] || (Enabled(m, ops[0]) && Runs(Step(m, ops[0]), ops[1..]))
  }

  ghost function After(m: Machine, ops: seq<Op>): Machine
    requires Runs(m, ops)
    decreases |ops|
  {
    if ops == [] then m else After(Step(m, ops[0]), ops[1..])
  }

  /** The run never rewinds to one of the first `depth` marks. */
  ghost predicate Above(m: Machine, ops: seq<Op>, depth: nat)
    requires Runs(m, ops)
    decreases |ops|
  {
    |m.marks| >= depth && (ops == [] || Above(Step(m, ops[0]), ops[1..], depth))
  }

  lemma {:induction false} RunOk(m: Machine, ops: seq<Op>, depth: nat)
    requires MachineOk(m) && Runs(m, ops) && Above(m, ops, depth)
    ensures MachineOk(After(m, ops)) && |After(m, ops).marks| >= depth
        && After(m, ops).marks[..depth] == m.marks[..depth]
    decreases |ops|
  {
    hide Enabled;
    hide Step;
    hide MachineOk;
    if ops != [] {
      StepOk(m, ops[0]);
      StepMarks(m, ops[0], depth);
      RunOk(Step(m, ops[0]), ops[1..], depth);
    }
  }

  lemma StepMarks(m: Machine, op: Op, depth: nat)
    requires Enabled(m, op) && |m.marks| >= depth && |Step(m, op).marks| >= depth
    ensures Step(m, op).marks[..depth] == m.marks[..depth]
  {
    hide Allocated;
    hide GrowTail;
    hide Request;
  }

  /** Rewinding to a mark restores the region in use, the occupancy, the total and the live allocations to what they
      were at the mark, after any allocations, resizes and overflow pages, and any inner marks used last in, first out.
      Until then everything that was live at the mark has stayed live, with at least its old size, and beside everything
      else. */
  lemma RewindRestores(m: Machine, ops: seq<Op>)
    requires MachineOk(m) && Runs(Step(m, SetMark), ops) && Above(Step(m, SetMark), ops, |m.marks| + 1)
    requires |After(Step(m, SetMark), ops).marks| == |m.marks| + 1
    ensures var t := After(Step(m, SetMark), ops);
      && MachineOk(t) && Extends(t.arena, m.arena) && m.arena.high <= t.arena.high
      && Step(t, Rewind) == Machine(m.arena.(high := t.arena.high), m.marks)
  {
    hide ArenaOk;
    hide Runs;
    hide After;
    hide Above;
    StepOk(m, SetMark);
    var s := Step(m, SetMark);
    RunOk(s, ops, |m.marks| + 1);
    var t := After(s, ops);
    assert t.marks == t.marks[..|m.marks| + 1] == s.marks;
    assert t.marks[|m.marks|] == m.arena;
    assert s.marks[..|m.marks|] == m.marks;
  }
}
