/** `Temporary_Allocator_State`: the operations on the bump offsets and the list of overflow pages. The backing
    allocator's answer to a request for a page is a parameter, 0 for null. */
module TemporaryAllocator {
  import opened Bits
  import opened Arenas

  datatype Error = None | InvalidArgument | OutOfMemory | ModeNotImplemented

  /** `Temporary_Allocator_Mark`; `top` is 0 for the original memory. */
  datatype Mark = Mark(top: nat, occupied: nat, total: nat)

  function TopPage(pages: seq<Page>): nat { if pages == [] then 0 else pages[0].base }

  /** The mark taken in state `a`. */
  function MarkOf(a: Arena): Mark { Mark(TopPage(a.pages), a.occupied, a.total) }

  /** The sum of size and alignment does not overflow ssize, and the page is null or memory that is not in use. */
  ghost predicate NewPageOk(a: Arena, n: nat, alignment: nat, base: nat) {
    n + alignment < S64_LIMIT && (base != 0 ==> FreshPage(a, Page(base, PageSize(a, n, alignment))))
  }

  /** The old size only matters if the allocation would be grown; then it must be one that the allocation has had. */
  ghost predicate OldSizeOk(a: Arena, p: nat, oldSize: int, n: int)
    requires p in a.live
  {
    0 <= oldSize < n && TailFits(a, p, oldSize, n) ==> 0 < oldSize <= a.live[p]
  }

  class State {
    const original: Span
    const backed: bool
    var data: nat
    var size: nat
    var occupied: nat
    var total: nat
    var highWaterMark: nat
    var pages: seq<Page>
    ghost var live: map<nat, nat>

    ghost function View(): Arena
      reads this
    {
      Arena(original, pages, occupied, total, highWaterMark, live)
    }

    ghost predicate Valid()
      reads this
    {
      ArenaOk(View()) && data == View().Top().start && data + size == View().Top().end
    }

    /** The high-water mark is the most that has ever been occupied, `before` up to now. */
    predicate Peak(before: nat)
      reads this
    {
      highWaterMark == if total > before then total else before
    }

    constructor (memory: nat, size: nat, backed: bool)
      requires memory > 0 && size > 0 && memory + size < S64_LIMIT
      ensures Valid() && View() == Arena(Span(memory, memory + size), [], 0, 0, 0, map[])
      ensures this.backed == backed
    {
      original := Span(memory, memory + size);
      this.backed := backed;
      data, this.size, occupied, total, highWaterMark, pages := memory, size, 0, 0, 0, [];
      live := map[];
    }

    /** `allocate_from_current_page`. */
    method AllocateHere(n: nat, alignment: nat) returns (pointer: nat)
      requires Valid() && Request(n, alignment)
      modifies this`total, this`occupied, this`highWaterMark, this`live
      ensures Valid() && pointer == if old(Fits(View(), n, alignment)) then old(Place(View(), alignment)) else 0
      ensures old(View().Current() <= Place(View(), alignment))
      ensures View() == if old(Fits(View(), n, alignment)) then Bump(old(View()), pointer, n) else old(View())
      ensures pointer != 0 ==> data + old(occupied) <= pointer && pointer + n == data + occupied <= data + size
      ensures total - old(total) == occupied - old(occupied) && (pointer != 0 ==> Peak(old(highWaterMark)))
    {
      hide ArenaOk;
      hide AlignUp;
      hide And;
      ghost var a := View();
      HereOk(a, n, alignment);
      var aligned := AlignUp(data + occupied, alignment);
      var next := (aligned + n) % U64_LIMIT;
      if next < aligned || next > data + size { return 0; }
      total := total + (next - (data + occupied));
      occupied := next - data;
      if total > highWaterMark { highWaterMark := total; }
      live := live[aligned := n];
      pointer := aligned;
    }

    /** `add_new_overflow_page`; `base` is what the backing allocator returns. */
    method AddPage(n: nat, alignment: nat, base: nat) returns (ok: bool)
      requires Valid() && n + alignment < S64_LIMIT
      requires base != 0 ==> FreshPage(View(), Page(base, PageSize(View(), n, alignment)))
      modifies this`pages, this`data, this`size, this`occupied
      ensures Valid() && ok == (base != 0)
      ensures View() ==
        if ok then WithPage(old(View()), Page(base, PageSize(old(View()), n, alignment))) else old(View())
      ensures ok ==> data == base + 16 && occupied == 0 && size >= n + alignment
      ensures ok ==> size + 16 >= original.end - original.start
      ensures ok ==> size == n + alignment || size + 16 == original.end - original.start
    {
      var usual := if original.end - original.start > HEADER then original.end - original.start - HEADER else 0;
      var pageSize := if usual > n + alignment then usual else n + alignment;
      if base == 0 { return false; }
      WithPageOk(View(), Page(base, pageSize));
      pages := [Page(base, pageSize)] + pages;
      data, size, occupied := base + HEADER, pageSize, 0;
      ok := true;
    }

    /** ALLOCATE. */
    method Allocate(n: int, alignment: int, base: nat) returns (pointer: nat, error: Error)
      requires Valid() && n < S64_LIMIT && alignment < S64_LIMIT
      requires Request(n, alignment) && backed && !Fits(View(), n, alignment) ==> NewPageOk(View(), n, alignment, base)
      modifies this
      ensures Valid()
      ensures n < 0 || !IsPowerOfTwo(alignment) ==> pointer == 0 && error == InvalidArgument && View() == old(View())
      ensures n == 0 && IsPowerOfTwo(alignment) ==> pointer == 0 && error == None && View() == old(View())
      ensures Request(n, alignment) ==> Done(old(View()), n, alignment, base, View(), pointer, error)
    {
      if n < 0 || !IsPowerOfTwo(alignment) { return 0, InvalidArgument; }
      if n == 0 { return 0, None; }
      pointer, error := AllocateRequest(n, alignment, base);
    }

    /** What ALLOCATE does with a request: serves it from the page in use or from a new one, or leaves everything
        alone. */
    ghost predicate Done(a: Arena, n: nat, alignment: nat, base: nat, b: Arena, pointer: nat, error: Error)
      requires Request(n, alignment)
    {
      if Fits(a, n, alignment) || (backed && base != 0) then
        && Source(a, n, alignment, base).Current() < S64_LIMIT
        && b == Allocated(a, n, alignment, base) && error == None
        && pointer == Place(Source(a, n, alignment, base), alignment) && pointer > 0
      else
        b == a && pointer == 0 && error == OutOfMemory
    }

    method AllocateRequest(n: nat, alignment: nat, base: nat) returns (pointer: nat, error: Error)
      requires Valid() && Request(n, alignment)
      requires backed && !Fits(View(), n, alignment) ==> NewPageOk(View(), n, alignment, base)
      modifies this
      ensures Valid() && Done(old(View()), n, alignment, base, View(), pointer, error)
    {
      hide LiveOk;
      hide PagesOk;
      hide AlignUp;
      ghost var a := View();
      BelowLimit(a);
      if Fits(a, n, alignment) || (backed && base != 0) { SourceOk(a, n, alignment, base); }
      pointer := AllocateHere(n, alignment);
      if pointer != 0 { return pointer, None; }
      if !backed { return 0, OutOfMemory; }
      var ok := AddPage(n, alignment, base);
      if !ok { return 0, OutOfMemory; }
      BelowLimit(View());
      pointer := AllocateHere(n, alignment);
      error := None;
    }

    /** RESIZE of the allocation at `pointer`, or an allocation if that is null. */
    method Resize(pointer: nat, n: int, alignment: int, oldSize: int, base: nat) returns (result: nat, error: Error)
      requires Valid() && n < S64_LIMIT && alignment < S64_LIMIT
      requires pointer != 0 ==> pointer in live && OldSizeOk(View(), pointer, oldSize, n)
      requires Request(n, alignment) && backed && !Fits(View(), n, alignment) ==> NewPageOk(View(), n, alignment, base)
      modifies this
      ensures Valid()
      ensures n < 0 || !IsPowerOfTwo(alignment) ==> result == 0 && error == InvalidArgument && View() == old(View())
      ensures 0 <= n && (n == 0 || n <= oldSize) && IsPowerOfTwo(alignment) && pointer == 0 ==>
        result == 0 && error == None && View() == old(View())
      ensures Request(n, alignment) && pointer == 0 && n > oldSize ==>
        Done(old(View()), n, alignment, base, View(), result, error)
      ensures n >= 0 && IsPowerOfTwo(alignment) && pointer != 0 ==>
        if pointer % alignment != 0 then
          result == 0 && error == ModeNotImplemented && View() == old(View())
        else if n == 0 || n <= oldSize then
          result == (if n == 0 then 0 else pointer) && error == None && View() == old(View())
        else if oldSize >= 0 && old(TailFits(View(), pointer, oldSize, n)) then
          result == pointer && error == None && View() == GrowTail(old(View()), pointer, oldSize, n)
        else
          result == 0 && error == ModeNotImplemented && View() == old(View())
    {
      hide ArenaOk;
      hide And;
      hide Place;
      if n < 0 || !IsPowerOfTwo(alignment) { return 0, InvalidArgument; }
      if pointer != 0 && pointer % alignment != 0 { return 0, ModeNotImplemented; }
      if n == 0 || n <= oldSize { return if n == 0 then 0 else pointer, None; }
      if pointer != 0 {
        var ok := GrowLast(pointer, n, oldSize);
        if ok { return pointer, None; }
      }
      if pointer == 0 {
        result, error := Allocate(n, alignment, base);
        return;
      }
      result, error := 0, ModeNotImplemented;
    }

    /** Grows the allocation at `pointer` in place if it is the last one and there is room. */
    method GrowLast(pointer: nat, n: nat, oldSize: int) returns (ok: bool)
      requires Valid() && pointer in live && oldSize < n < S64_LIMIT && OldSizeOk(View(), pointer, oldSize, n)
      modifies this`total, this`occupied, this`highWaterMark, this`live
      ensures Valid() && ok == (oldSize >= 0 && old(TailFits(View(), pointer, oldSize, n)))
      ensures View() == if ok then GrowTail(old(View()), pointer, oldSize, n) else old(View())
      ensures ok ==> occupied == old(occupied) + n - oldSize && pointer + n == data + occupied <= data + size
      ensures ok ==> total == old(total) + n - oldSize && Peak(old(highWaterMark))
    {
      hide LiveOk;
      hide PagesOk;
      var current := data + occupied;
      BelowLimit(View());
      if !(pointer <= current && pointer + oldSize == current) { return false; }
      var next := (pointer + n) % U64_LIMIT;
      if !(next >= pointer && next <= data + size) { return false; }
      GrowTailOk(View(), pointer, oldSize, n);
      total := total + (n - oldSize);
      occupied := next - data;
      if total > highWaterMark { highWaterMark := total; }
      live := live[pointer := n];
      ok := true;
    }

    /** `mark`. */
    method TakeMark() returns (mark: Mark)
      ensures mark == MarkOf(View())
    {
      mark := Mark(TopPage(pages), occupied, total);
    }

    /** `rewind` to a mark taken in state `at`; the assertion that the mark is this allocator's never fires. */
    method Rewind(mark: Mark, ghost at: Arena)
      requires Valid() && ArenaOk(at) && Extends(View(), at) && at.high <= highWaterMark && mark == MarkOf(at)
      modifies this
      ensures Valid() && View() == Rewound(old(View()), at)
      ensures occupied == mark.occupied && total == mark.total && TopPage(pages) == mark.top
      ensures highWaterMark == old(highWaterMark)
    {
      hide LiveOk;
      hide PagesOk;
      hide GivenOut;
      while TopPage(pages) != mark.top
        invariant |at.pages| <= |pages| <= |old(pages)| && pages == old(pages)[|old(pages)| - |pages|..]
        invariant highWaterMark == old(highWaterMark)
        decreases |pages|
      {
        PopStep(old(pages), pages, at);
        assert pages != [];
        pages := pages[1..];
      }
      TopUnique(old(View()), pages, at);
      data := if pages == [] then original.start else pages[0].base + HEADER;
      size := if pages == [] then original.end - original.start else pages[0].size;
      occupied, total := mark.occupied, mark.total;
      live := at.live;
      RewoundOk(old(View()), at);
    }

    /** Allocations, growth, marks and rewinds in any order that the machine of `Arenas` allows lead to its state;
        `marks` holds the marks still to be rewound to, the latest last. */
    method Perform(ops: seq<Op>, marks0: seq<Mark>, ghost m: Machine) returns (marks: seq<Mark>)
      requires Valid() && backed && m.arena == View() && MachineOk(m) && MarksAre(marks0, m.marks) && Runs(m, ops)
      modifies this
      ensures Valid() && View() == After(m, ops).arena && MachineOk(After(m, ops))
      ensures MarksAre(marks, After(m, ops).marks)
    {
      hide MachineOk;
      hide ArenaOk;
      hide Enabled;
      hide Step;
      marks := marks0;
      ghost var cur := m;
      for i := 0 to |ops|
        invariant Valid() && cur.arena == View() && MachineOk(cur) && MarksAre(marks, cur.marks)
        invariant Runs(cur, ops[i..]) && After(cur, ops[i..]) == After(m, ops)
      {
        assert ops[i..][1..] == ops[i + 1..];
        marks := PerformOne(ops[i], marks, cur);
        cur := Step(cur, ops[i]);
      }
    }

    method PerformOne(op: Op, marks0: seq<Mark>, ghost m: Machine) returns (marks: seq<Mark>)
      requires Valid() && backed && m.arena == View() && MachineOk(m) && MarksAre(marks0, m.marks) && Enabled(m, op)
      modifies this
      ensures Valid() && View() == Step(m, op).arena && MachineOk(Step(m, op)) && MarksAre(marks, Step(m, op).marks)
    {
      hide ArenaOk;
      hide Allocated;
      hide PagesOk;
      hide LiveOk;
      hide Extends;
      StepOk(m, op);
      BelowLimit(View());
      marks := marks0;
      match op {
        case Allocate(n, alignment, base) =>
          var pointer, error := Allocate(n, alignment, base);
        case Grow(p, oldSize, n) =>
          var ok := GrowLast(p, n, oldSize);
        case SetMark =>
          var mark := TakeMark();
          marks := marks + [mark];
        case Rewind =>
          Rewind(marks[|marks| - 1], m.marks[|marks| - 1]);
          marks := marks[..|marks| - 1];
      }
    }

    /** Whatever is done between taking a mark and rewinding to it, only the high-water mark remembers it. */
    method Scoped(ops: seq<Op>)
      requires Valid() && backed
      requires var m := Step(Machine(View(), []), SetMark);
        Runs(m, ops) && Above(m, ops, 1) && |After(m, ops).marks| == 1
      modifies this
      ensures Valid() && View() == old(View()).(high := highWaterMark) && highWaterMark >= old(highWaterMark)
    {
      hide ArenaOk;
      hide Runs;
      hide After;
      hide Above;
      ghost var m := Machine(View(), []);
      StepOk(m, SetMark);
      RewindRestores(m, ops);
      var mark := TakeMark();
      var marks := Perform(ops, [mark], Step(m, SetMark));
      Rewind(marks[0], m.arena);
    }
  }

  ghost predicate MarksAre(marks: seq<Mark>, at: seq<Arena>) {
    |marks| == |at| && forall i :: 0 <= i < |at| ==> marks[i] == MarkOf(at[i])
  }

  lemma BelowLimit(a: Arena)
    requires ArenaOk(a)
    ensures 0 < a.Top().start && a.Current() <= a.Top().end < S64_LIMIT
  {}

  lemma HereOk(a: Arena, n: nat, alignment: nat)
    requires ArenaOk(a) && Request(n, alignment)
    ensures a.Current() <= Place(a, alignment) && 0 < Place(a, alignment) && a.Top().end < S64_LIMIT
    ensures Place(a, alignment) < Place(a, alignment) + n < 2 * U64_LIMIT
    ensures Fits(a, n, alignment) ==> ArenaOk(Bump(a, Place(a, alignment), n))
  {
    hide LiveOk;
    hide PagesOk;
    hide AlignUp;
    BelowLimit(a);
    PlaceIs(a, alignment);
    if Fits(a, n, alignment) { BumpOk(a, Place(a, alignment), n); }
  }

  lemma PopStep(all: seq<Page>, pages: seq<Page>, at: Arena)
    requires |at.pages| <= |pages| <= |all| && pages == all[|all| - |pages|..]
    requires all[|all| - |at.pages|..] == at.pages
    ensures |at.pages| == |pages| ==> pages == at.pages
  {}

  /** The pages of the mark are recognised by the address of the first. */
  lemma TopUnique(a: Arena, pages: seq<Page>, at: Arena)
    requires PagesOk(a) && Extends(a, at) && |at.pages| <= |pages| <= |a.pages|
    requires pages == a.pages[|a.pages| - |pages|..] && TopPage(pages) == TopPage(at.pages)
    ensures pages == at.pages
  {
    var i, j := |a.pages| - |pages|, |a.pages| - |at.pages|;
    assert forall k, l :: 0 <= k < l < |a.pages| ==> a.pages[k].base != a.pages[l].base by {
      forall k, l | 0 <= k < l < |a.pages| ensures a.pages[k].base != a.pages[l].base {
        assert Apart(a.pages[k].Whole(), a.pages[l].Whole());
      }
    }
    assert i < |a.pages| ==> TopPage(pages) == a.pages[i].base > 0;
    assert j < |a.pages| ==> TopPage(at.pages) == a.pages[j].base;
    assert i == j;
  }
}
