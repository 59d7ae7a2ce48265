/** The boot information, tag by tag: what its maps call usable, and which ranges hold data that must be kept. */
module Multiboot {
  import opened MemoryMap

  /** The entry type that marks usable memory. */
  const USABLE: nat := 1

  datatype Entry = Entry(base: nat, size: nat, kind: nat)

  /** Texts are given by address and length without the terminator. */
  datatype Tag =
    | MemoryMapTag(entries: seq<Entry>)
    | CommandLine(at: nat, length: nat)
    | LoaderName(at: nat, length: nat)
    | ModuleTag(start: nat, end: nat, name: nat, length: nat)
    | OtherTag

  datatype Info = Info(at: nat, totalSize: nat, tags: seq<Tag>)

  datatype Reservation = Reservation(start: nat, end: nat)

  const LOW_MEMORY := Reservation(0, 0x100000)

  /** The usable entries of a map, in order. */
  function UsableEntries(es: seq<Entry>): seq<Region>
    decreases |es|
  {
    if es == [] then []
    else
      var e := es[|es| - 1];
      UsableEntries(es[..|es| - 1]) + if e.kind == USABLE then [Region(e.base, e.size)] else []
  }

  function UsableOf(t: Tag): seq<Region> { if t.MemoryMapTag? then UsableEntries(t.entries) else [] }

  /** The usable entries of all maps. */
  function Usable(ts: seq<Tag>): seq<Region>
    decreases |ts|
  {
    if ts == [] then [] else Usable(ts[..|ts| - 1]) + UsableOf(ts[|ts| - 1])
  }

  /** What a tag refers to: a text with its terminator, or a module and, if it has one, its name. */
  function ReservedOf(t: Tag): seq<Reservation> {
    match t
    case CommandLine(at, length) => [Reservation(at, at + length + 1)]
    case LoaderName(at, length) => [Reservation(at, at + length + 1)]
    case ModuleTag(start, end, name, length) =>
      if name == 0 then [Reservation(start, end)] else [Reservation(start, end), Reservation(name, name + length + 1)]
    case _ => []
  }

  function ReservedByTags(ts: seq<Tag>): seq<Reservation>
    decreases |ts|
  {
    if ts == [] then [] else ReservedByTags(ts[..|ts| - 1]) + ReservedOf(ts[|ts| - 1])
  }

  /** Low memory, the boot information itself and the kernel. */
  function Fixed(info: Info, kernel: Reservation): seq<Reservation> {
    [LOW_MEMORY, Reservation(info.at, info.at + info.totalSize), kernel]
  }

  /** These, and then everything the tags refer to. */
  function ReservedRanges(info: Info, kernel: Reservation): seq<Reservation> {
    Fixed(info, kernel) + ReservedByTags(info.tags)
  }

  /** Exactly the entries marked usable. */
  lemma {:induction false} UsableEntriesAre(es: seq<Entry>, r: Region)
    ensures r in UsableEntries(es) <==> exists k :: 0 <= k < |es| && es[k] == Entry(r.base, r.size, USABLE)
    decreases |es|
  {
    if es != [] {
      var init := es[..|es| - 1];
      UsableEntriesAre(init, r);
      if k :| 0 <= k < |es| && es[k] == Entry(r.base, r.size, USABLE) {
        assert k < |init| ==> init[k] == es[k];
      }
    }
  }

  lemma {:induction false} EntriesPrefix(es: seq<Entry>, i: nat)
    requires i <= |es|
    ensures UsableEntries(es[..i]) <= UsableEntries(es)
    decreases |es|
  {
    if i == |es| {
      assert es[..i] == es;
    } else {
      EntriesPrefix(es[..|es| - 1], i);
      assert es[..|es| - 1][..i] == es[..i];
    }
  }

  lemma {:induction false} UsablePrefix(ts: seq<Tag>, i: nat)
    requires i <= |ts|
    ensures Usable(ts[..i]) <= Usable(ts)
    decreases |ts|
  {
    if i == |ts| {
      assert ts[..i] == ts;
    } else {
      UsablePrefix(ts[..|ts| - 1], i);
      assert ts[..|ts| - 1][..i] == ts[..i];
    }
  }

  lemma {:induction false} ReservedPrefix(ts: seq<Tag>, i: nat)
    requires i <= |ts|
    ensures ReservedByTags(ts[..i]) <= ReservedByTags(ts)
    decreases |ts|
  {
    if i == |ts| {
      assert ts[..i] == ts;
    } else {
      ReservedPrefix(ts[..|ts| - 1], i);
      assert ts[..|ts| - 1][..i] == ts[..i];
    }
  }

  /** One more entry, and one more tag. */
  lemma EntriesNext(es: seq<Entry>, i: nat)
    requires i < |es|
    ensures UsableEntries(es[..i + 1]) ==
      UsableEntries(es[..i]) + if es[i].kind == USABLE then [Region(es[i].base, es[i].size)] else []
    ensures UsableEntries(es[..i + 1]) <= UsableEntries(es)
  {
    EntriesPrefix(es, i + 1);
    assert es[..i + 1][..i] == es[..i];
  }

  lemma TagsNext(ts: seq<Tag>, i: nat)
    requires i < |ts|
    ensures Usable(ts[..i + 1]) == Usable(ts[..i]) + UsableOf(ts[i]) <= Usable(ts)
    ensures ReservedByTags(ts[..i + 1]) == ReservedByTags(ts[..i]) + ReservedOf(ts[i]) <= ReservedByTags(ts)
  {
    UsablePrefix(ts, i + 1);
    ReservedPrefix(ts, i + 1);
    assert ts[..i + 1][..i] == ts[..i];
  }
}
