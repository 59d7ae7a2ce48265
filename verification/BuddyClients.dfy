/** Whole runs of the heap through its pointers: headers, payloads and links included. */
module BuddyClients {
  import opened BuddyBlocks
  import opened BuddyLists
  import opened BuddySeed
  import opened BuddyRuns
  import opened Memory
  import opened BuddyState
  import opened BuddyMoves
  import opened BuddyAllocator

  /** What clients do next. `slot` numbers the places where they keep their pointers. */
  datatype Call =
    | Obtain(slot: nat, size: int, alignment: int)
    | Change(slot: nat, size: int, alignment: int, oldSize: int)
    | GiveBack(slot: nat)
    | Write(slot: nat, offset: nat, bytes: seq<Byte>)
  {
    /** The sizes that the interface can express. */
    predicate Ssize() {
      this.Obtain? || this.Change? ==> size < 0x8000_0000_0000_0000 && alignment < 0x8000_0000_0000_0000
    }
  }

  /** A pointer, 0 for null, and the size last requested for it. */
  datatype Slot = Slot(pointer: nat, size: nat)

  class Clients {
    const heap: Allocator
    var slots: seq<Slot>

    ghost predicate Valid()
      reads this, heap, heap.heads
    {
      heap.Valid() && Held(slots, heap.owned)
    }

    constructor (heap: Allocator, count: nat)
      requires heap.Valid()
      ensures Valid() && this.heap == heap && slots == seq(count, _ => Slot(0, 0))
    {
      hide ListsOk;
      hide HeapInv;
      hide OwnedOk;
      this.heap := heap;
      slots := seq(count, _ => Slot(0, 0));
    }

    /** One call. `ok` is false if the heap has halted; `did` is what has happened to its blocks. */
    method Make(call: Call) returns (ok: bool, ghost did: seq<Op>)
      requires Valid() && call.Ssize()
      modifies this, heap, heap.heads
      ensures Valid() && |slots| == old(|slots|)
      ensures heap.Heap() == Run(old(heap.Heap()), did) && (ok ==> Asked(call, |slots|, did))
      ensures !ok ==> exists p :: p in heap.owned && !heap.owned[p].live
    {
      hide ListsOk;
      hide HeapInv;
      hide OwnedOk;
      if call.slot >= |slots| { return true, []; }
      match call {
        case Obtain(slot, size, alignment) => did := MakeObtain(slot, size, alignment); ok := true;
        case Change(slot, size, alignment, oldSize) => did := MakeChange(slot, size, alignment, oldSize); ok := true;
        case GiveBack(slot) => ok, did := MakeGiveBack(slot);
        case Write(slot, offset, bytes) => MakeWrite(slot, offset, bytes); ok, did := true, [];
      }
    }

    method MakeObtain(slot: nat, size: int, alignment: int) returns (ghost did: seq<Op>)
      requires Valid() && slot < |slots| && size < 0x8000_0000_0000_0000 && alignment < 0x8000_0000_0000_0000
      modifies this, heap, heap.heads
      ensures Valid() && |slots| == old(|slots|) && heap.Heap() == Run(old(heap.Heap()), did)
      ensures did == if ValidRequest(size, alignment) then [Allocate(size, alignment)] else []
    {
      hide ListsOk;
      hide HeapInv;
      hide OwnedOk;
      hide AllocateStep;
      hide FirstFit;
      hide FitsIn;
      hide TargetOrder;
      hide UserAddress;
      ghost var h, os := heap.Heap(), heap.owned;
      var pointer, error := heap.Allocate(size, alignment);
      if ValidRequest(size, alignment) {
        did := [Allocate(size, alignment)];
        RunOne(h, did[0]);
      } else {
        did := [];
      }
      if pointer != 0 {
        HeldAfter(slots, os, slot, heap.owned, pointer, size);
        slots := slots[slot := Slot(pointer, size)];
      }
    }

    method MakeChange(slot: nat, size: int, alignment: int, oldSize: int) returns (ghost did: seq<Op>)
      requires Valid() && slot < |slots| && size < 0x8000_0000_0000_0000 && alignment < 0x8000_0000_0000_0000
      modifies this, heap, heap.heads
      ensures Valid() && |slots| == old(|slots|) && heap.Heap() == Run(old(heap.Heap()), did)
      ensures Asked(Change(slot, size, alignment, oldSize), |slots|, did)
    {
      hide ListsOk;
      hide HeapInv;
      hide OwnedOk;
      hide AllocateStep;
      hide GrowStep;
      hide FirstFit;
      hide FitsIn;
      hide CanGrow;
      hide TargetOrder;
      hide UserAddress;
      ghost var h, os, pointer := heap.Heap(), heap.owned, slots[slot].pointer;
      if pointer != 0 && size > 0 { SizeOnly(heap.memory, os, pointer, size); }
      var result, error := heap.Resize(slots[slot].pointer, size, alignment, oldSize);
      if result in heap.owned { OldPlaced(heap.memory, heap.owned, result); }
      if heap.Heap() == h {
        did := [];
      } else if pointer == 0 {
        did := [Allocate(size, alignment)];
        RunOne(h, did[0]);
      } else {
        did := [Grow(os[pointer].block, size, alignment)];
        RunOne(h, did[0]);
      }
      if result != 0 {
        HeldAfter(slots, os, slot, heap.owned, result, size);
        slots := slots[slot := Slot(result, size)];
      }
    }

    method MakeGiveBack(slot: nat) returns (ok: bool, ghost did: seq<Op>)
      requires Valid() && slot < |slots|
      modifies this, heap, heap.heads
      ensures Valid() && |slots| == old(|slots|) && heap.Heap() == Run(old(heap.Heap()), did)
      ensures !ok ==> exists p :: p in heap.owned && !heap.owned[p].live
      ensures ok ==> Asked(GiveBack(slot), |slots|, did)
      ensures ok ==> slots[slot] == Slot(0, 0) && heap.owned == old(heap.owned) - {old(slots)[slot].pointer}
    {
      hide ListsOk;
      hide HeapInv;
      hide OwnedOk;
      hide FreeStep;
      ghost var h, os, pointer := heap.Heap(), heap.owned, slots[slot].pointer;
      if 0 in os { OldPlaced(heap.memory, os, 0); }
      ok := heap.Free(slots[slot].pointer);
      did := [];
      if ok && pointer != 0 {
        did := [Free(os[pointer].block)];
        RunOne(h, did[0]);
      }
      if ok { slots := slots[slot := Slot(0, 0)]; }
    }

    /** A client writes to its own payload. */
    method MakeWrite(slot: nat, offset: nat, bytes: seq<Byte>)
      requires Valid() && slot < |slots|
      modifies this, heap, heap.heads
      ensures Valid() && |slots| == old(|slots|) && heap.Heap() == old(heap.Heap())
    {
      hide ListsOk;
      hide HeapInv;
      hide OwnedOk;
      var s := slots[slot];
      if s.pointer != 0 && offset + |bytes| <= s.size {
        PayloadIsTheClients(heap.memory, heap.heads[..], heap.lists, heap.owned, s.pointer, s.pointer + offset, bytes);
        heap.memory := Store(heap.memory, s.pointer + offset, bytes);
      }
    }

    /** Any number of calls, up to the first on which the heap halts. If in the end nothing is owned, and no RESIZE has
        asked for more than fits in 2 GiB, the free lists hold exactly the blocks they held at the start. */
    method MakeAll(calls: seq<Call>) returns (ok: bool, ghost dids: seq<seq<Op>>)
      requires Valid() && forall c <- calls :: c.Ssize()
      modifies this, heap, heap.heads
      ensures Valid() && heap.Heap() == Run(old(heap.Heap()), Joined(dids))
      ensures ok ==> AllAsked(calls, |slots|, dids)
      ensures !ok ==> exists p :: p in heap.owned && !heap.owned[p].live
      ensures old(Coalesced(heap.Heap())) && heap.owned == map[] && GrowthNameable(Joined(dids)) ==>
        FreeBlocks(heap.lists) == old(FreeBlocks(heap.lists))
    {
      hide ListsOk;
      hide HeapInv;
      hide OwnedOk;
      hide Run;
      hide Asked;
      ghost var h := heap.Heap();
      RunNone(h);
      ok, dids := true, [];
      for i := 0 to |calls|
        invariant Valid() && heap.Heap() == Run(h, Joined(dids)) && |slots| == old(|slots|)
        invariant ok && AllAsked(calls[..i], |slots|, dids)
      {
        ghost var did;
        ok, did := Make(calls[i]);
        JoinedOne(dids, did);
        RunAppend(h, Joined(dids), did);
        dids := dids + [did];
        if !ok { break; }
      }
      assert ok ==> calls[..|calls|] == calls;
      if Coalesced(h) && heap.owned == map[] && GrowthNameable(Joined(dids)) { CoalescedAgain(h, Joined(dids)); }
    }
  }

  /** `did` is what a call with `count` slots asks of the heap. A RESIZE that stays in its block, or gives up, asks for
      nothing. */
  predicate Asked(call: Call, count: nat, did: seq<Op>) {
    if call.slot >= count then did == []
    else
      match call
      case Obtain(_, size, alignment) =>
        did == if ValidRequest(size, alignment) then [Allocate(size, alignment)] else []
      case Change(_, size, alignment, _) =>
        did == [] || (|did| == 1 && !did[0].Free? && did[0].size == size && did[0].alignment == alignment)
      case GiveBack(_) => did == [] || (|did| == 1 && did[0].Free?)
      case Write(_, _, _) => did == []
  }

  predicate AllAsked(calls: seq<Call>, count: nat, dids: seq<seq<Op>>) {
    |dids| == |calls| && forall i :: 0 <= i < |calls| ==> Asked(calls[i], count, dids[i])
  }

  function Joined(dids: seq<seq<Op>>): seq<Op>
    decreases |dids|
  {
    if dids == [] then [] else dids[0] + Joined(dids[1..])
  }

  lemma {:induction false} JoinedOne(dids: seq<seq<Op>>, did: seq<Op>)
    ensures Joined(dids + [did]) == Joined(dids) + did
    decreases |dids|
  {
    if dids == [] {
      assert [did][1..] == [];
    } else {
      assert (dids + [did])[1..] == dids[1..] + [did];
      JoinedOne(dids[1..], did);
    }
  }

  /** The clients' pointers are the heap's, each kept in one place and with the size that the heap has recorded. */
  ghost predicate Held(slots: seq<Slot>, owned: map<nat, Allocation>) {
    && (forall i :: 0 <= i < |slots| && slots[i].pointer != 0 ==>
          slots[i].pointer in owned && owned[slots[i].pointer].size == slots[i].size)
    && (forall i, j :: 0 <= i < j < |slots| && slots[i].pointer != 0 ==> slots[i].pointer != slots[j].pointer)
  }

  /** A new pointer takes the place of the one in `slot`. */
  lemma HeldAfter(slots: seq<Slot>, os: map<nat, Allocation>, slot: nat, owned: map<nat, Allocation>, q: nat, size: nat)
    requires Held(slots, os) && slot < |slots| && q != 0 && q !in os - {slots[slot].pointer}
    requires q in owned && owned[q].size == size
    requires forall p :: p in os && p != slots[slot].pointer ==> p in owned && owned[p].size == os[p].size
    ensures Held(slots[slot := Slot(q, size)], owned)
  {}

  /** As seeding leaves the heap. */
  ghost predicate Coalesced(h: Heap) {
    HeapInv(h) && h.owned == {} && NoBuddies(FreeBlocks(h.free)) && AllSmall(FreeBlocks(h.free))
  }

  ghost predicate GrowthNameable(ops: seq<Op>) {
    forall op <- ops :: op.Grow? ==> op.Nameable()
  }

  /** Recording a new size changes no block. */
  lemma SizeOnly(m: Mem, owned: map<nat, Allocation>, p: nat, size: nat)
    requires OwnedOk(m, owned) && p in owned
    ensures OwnedBlocks(owned[p := owned[p].(size := size)]) == OwnedBlocks(owned)
  {
    hide AllocationOk;
    SameOwnedBlocks(owned, p, owned[p].(size := size));
  }

  lemma RunNone(h: Heap)
    ensures Run(h, []) == h
  {}

  lemma {:induction false} RunAppend(h: Heap, a: seq<Op>, b: seq<Op>)
    ensures Run(h, a + b) == Run(Run(h, a), b)
    decreases |a|
  {
    hide Step;
    if a == [] {
      assert a + b == b;
    } else {
      assert (a + b)[1..] == a[1..] + b;
      RunAppend(Step(h, a[0]), a[1..], b);
    }
  }

  lemma {:induction false} NameableGrowth(h: Heap, ops: seq<Op>)
    requires GrowthNameable(ops)
    ensures GrowthHarmless(h, ops)
    decreases |ops|
  {
    hide Step;
    if ops != [] { NameableGrowth(Step(h, ops[0]), ops[1..]); }
  }

  lemma CoalescedAgain(h: Heap, ops: seq<Op>)
    requires Coalesced(h) && GrowthNameable(ops) && Run(h, ops).owned == {}
    ensures FreeBlocks(Run(h, ops).free) == FreeBlocks(h.free)
  {
    NameableGrowth(h, ops);
    assert Managed(h) == FreeBlocks(h.free);
    SmallRunHarmless(FreeBlocks(h.free), h, ops);
    RunReturnsToStart(h, ops);
  }
}
