/** The 64 free lists as sequences of block addresses, most recently pushed first, and the transformations that the
    heap's operations perform on them. */
module BuddyLists {
  import opened Basics
  import opened Bits
  import opened BuddyBlocks

  const MIN_ORDER: nat := 12
  const MAX_ORDER: nat := 63
  const MEMORY_LIMIT: nat := 0x10_0000_0000_0000  // 2^52, the x86-64 limit on physical addresses

  type FreeLists = ls: seq<seq<nat>> | |ls| == MAX_ORDER + 1 witness seq(MAX_ORDER + 1, _ => [])

  function FreeBlocks(ls: FreeLists): (s: set<Block>)
    ensures forall b :: b in s <==> b.order <= MAX_ORDER && b.base in ls[b.order]
  {
    set o, i | 0 <= o < |ls| && 0 <= i < |ls[o]| :: Block(ls[o][i], o)
  }

  ghost predicate NoRepeats(ls: FreeLists) {
    forall o :: 0 <= o <= MAX_ORDER ==> Distinct(ls[o])
  }

  /** A block the heap can hold: at least a page, not at address 0, inside physical memory. */
  ghost predicate InMemory(b: Block) {
    b.order >= MIN_ORDER && b.base > 0 && b.Limit() <= MEMORY_LIMIT
  }

  ghost predicate AllInMemory(s: set<Block>) {
    forall b <- s :: InMemory(b)
  }

  lemma InMemoryOrder(b: Block)
    requires InMemory(b)
    ensures b.order < 52
  {
    Pow2Bounds(b.order);
  }

  // ---------------------------------------------------------------- push and remove

  function Push(ls: FreeLists, b: Block): FreeLists
    requires b.order <= MAX_ORDER
  {
    ls[b.order := [b.base] + ls[b.order]]
  }

  /** The list without the first occurrence of `x`. */
  function Without(xs: seq<nat>, x: nat): seq<nat> {
    if xs == [] then [] else if xs[0] == x then xs[1..] else [xs[0]] + Without(xs[1..], x)
  }

  function Remove(ls: FreeLists, b: Block): FreeLists
    requires b.order <= MAX_ORDER
  {
    ls[b.order := Without(ls[b.order], b.base)]
  }

  predicate IsFree(ls: FreeLists, b: Block) {
    b.order <= MAX_ORDER && b.base in ls[b.order]
  }

  lemma PushBlocks(ls: FreeLists, b: Block)
    requires b.order <= MAX_ORDER
    ensures FreeBlocks(Push(ls, b)) == FreeBlocks(ls) + {b}
    ensures NoRepeats(ls) && !IsFree(ls, b) ==> NoRepeats(Push(ls, b))
  {
    var r := Push(ls, b);
    forall c ensures c in FreeBlocks(r) <==> c in FreeBlocks(ls) + {b} {
      if c.order == b.order {
        assert c.base in r[b.order] <==> c.base == b.base || c.base in ls[b.order];
      }
    }
  }

  lemma {:induction false} WithoutMembers(xs: seq<nat>, x: nat)
    requires Distinct(xs)
    ensures Distinct(Without(xs, x))
    ensures forall y :: y in Without(xs, x) <==> y in xs && y != x
  {
    if xs != [] {
      var rest := xs[1..];
      assert forall y :: y in xs <==> y == xs[0] || y in rest;
      assert xs[0] !in rest;
      WithoutMembers(rest, x);
    }
  }

  lemma RemoveBlocks(ls: FreeLists, b: Block)
    requires b.order <= MAX_ORDER && NoRepeats(ls)
    ensures FreeBlocks(Remove(ls, b)) == FreeBlocks(ls) - {b}
    ensures NoRepeats(Remove(ls, b))
  {
    WithoutMembers(ls[b.order], b.base);
    var r := Remove(ls, b);
    forall c ensures c in FreeBlocks(r) <==> c in FreeBlocks(ls) - {b} {
      if c.order == b.order {
        assert c.base in r[b.order] <==> c.base in ls[b.order] && c.base != b.base;
      }
    }
  }

  // ---------------------------------------------------------------- FREE

  /** What FREE does to the lists: merge with the buddy while the buddy is free, then push. */
  function Coalesce(ls: FreeLists, b: Block): FreeLists
    requires b.order <= MAX_ORDER
    decreases MAX_ORDER - b.order
  {
    if b.order < MAX_ORDER && IsFree(ls, b.Buddy())
    then Coalesce(Remove(ls, b.Buddy()), b.Parent())
    else Push(ls, b)
  }

  /** The free lists `ls`, with the block `b` that is about to be freed, cut memory up properly. */
  ghost predicate Freeable(ls: FreeLists, b: Block) {
    && NoRepeats(ls) && b !in FreeBlocks(ls)
    && Tiling(FreeBlocks(ls) + {b}) && AllInMemory(FreeBlocks(ls) + {b})
  }

  lemma MergeFreeable(ls: FreeLists, b: Block)
    requires Freeable(ls, b) && IsFree(ls, b.Buddy())
    ensures var ls', p := Remove(ls, b.Buddy()), b.Parent();
      && p.order <= MAX_ORDER && Freeable(ls', p)
      && SameCover(FreeBlocks(ls) + {b}, FreeBlocks(ls') + {p})
      && FreeBlocks(ls') <= FreeBlocks(ls)
  {
    var s := FreeBlocks(ls);
    assert b in s + {b} && b.Buddy() in s;
    InMemoryOrder(b);
    MergePair(s, b);
    RemoveBlocks(ls, b.Buddy());
    BuddyIs(b);
    assert InMemory(b.Parent());
  }

  /** Freeing keeps the memory covered, and leaves no buddy pair if there was none. */
  lemma {:induction false} CoalesceSound(ls: FreeLists, b: Block)
    requires Freeable(ls, b)
    requires b.order <= MAX_ORDER
    ensures var r := Coalesce(ls, b);
      && NoRepeats(r) && Tiling(FreeBlocks(r)) && AllInMemory(FreeBlocks(r))
      && SameCover(FreeBlocks(ls) + {b}, FreeBlocks(r))
      && (NoBuddies(FreeBlocks(ls)) ==> NoBuddies(FreeBlocks(r)))
    decreases MAX_ORDER - b.order
  {
    assert b in FreeBlocks(ls) + {b};
    InMemoryOrder(b);
    if IsFree(ls, b.Buddy()) {
      MergeFreeable(ls, b);
      CoalesceSound(Remove(ls, b.Buddy()), b.Parent());
    } else {
      PushBlocks(ls, b);
      BuddyIs(b);
      forall c | c in FreeBlocks(ls) ensures c.Buddy() != b {
        assert c in FreeBlocks(ls) + {b};
        BuddyIs(c);
      }
    }
  }

  // ---------------------------------------------------------------- ALLOCATE

  /** The first nonempty list at or above `order`, or `MAX_ORDER + 1`. */
  function FirstFit(ls: FreeLists, order: nat): (o: nat)
    requires order <= MAX_ORDER + 1
    ensures order <= o <= MAX_ORDER + 1
    ensures o <= MAX_ORDER ==> ls[o] != []
    ensures forall k :: order <= k < o ==> ls[k] == []
    decreases MAX_ORDER + 1 - order
  {
    if order <= MAX_ORDER && ls[order] == [] then FirstFit(ls, order + 1) else order
  }

  /** Halve `b` down to order `target`, pushing every upper half. */
  function Split(ls: FreeLists, b: Block, target: nat): FreeLists
    requires b.order <= MAX_ORDER
    decreases b.order
  {
    if b.order <= target then ls
    else
      var half := b.order - 1;
      Split(Push(ls, Block(b.base + Pow2(half), half)), Block(b.base, half), target)
  }

  function Pop(ls: FreeLists, order: nat): FreeLists
    requires order <= MAX_ORDER && ls[order] != []
  {
    ls[order := ls[order][1..]]
  }

  /** Lists `r` and block `c` cut up the same memory as lists `ls` and block `b`, with no new buddy pair. */
  ghost predicate Recut(ls: FreeLists, b: Block, r: FreeLists, c: Block) {
    && Freeable(r, c) && SameCover(FreeBlocks(ls) + {b}, FreeBlocks(r) + {c})
    && (NoBuddies(FreeBlocks(ls)) ==> NoBuddies(FreeBlocks(r)))
  }

  lemma SplitStep(ls: FreeLists, b: Block) returns (lower: Block, upper: Block)
    requires Freeable(ls, b) && MIN_ORDER < b.order <= MAX_ORDER
    ensures lower == Block(b.base, b.order - 1) && upper == Block(b.base + Pow2(b.order - 1), b.order - 1)
    ensures Recut(ls, b, Push(ls, upper), lower)
  {
    var s := FreeBlocks(ls);
    hide Xor;
    hide InMemory;
    lower := Block(b.base, b.order - 1);
    assert b in s + {b};
    SplitPair(s, b, lower);
    upper := lower.Buddy();
    PushBlocks(ls, upper);
    LoneBuddy(s, lower);
    HalvesInMemory(b, lower, upper);
  }

  lemma HalvesInMemory(b: Block, lower: Block, upper: Block)
    requires InMemory(b) && b.order > MIN_ORDER
    requires lower == Block(b.base, b.order - 1) && upper == Block(b.base + lower.Size(), b.order - 1)
    ensures InMemory(lower) && InMemory(upper)
  {}

  /** A block whose buddy is not in the set does not pair up with anything in it. */
  lemma LoneBuddy(s: set<Block>, lower: Block)
    requires lower.Aligned() && lower !in s && Tiling(s)
    ensures NoBuddies(s) ==> NoBuddies(s + {lower.Buddy()})
  {
    var upper := lower.Buddy();
    BuddyIs(lower);
    forall c | c in s ensures c.Buddy() != upper { BuddyIs(c); }
  }

  lemma RecutTrans(ls: FreeLists, b: Block, r: FreeLists, c: Block, q: FreeLists, d: Block)
    requires Recut(ls, b, r, c) && Recut(r, c, q, d)
    ensures Recut(ls, b, q, d)
  {}

  lemma RecutSelf(ls: FreeLists, b: Block)
    requires Freeable(ls, b)
    ensures Recut(ls, b, ls, b)
  {}

  /** Splitting keeps the memory covered by the free blocks and the block being cut, and leaves fully coalesced lists
      fully coalesced: every upper half has lost its buddy. */
  lemma {:induction false} SplitSound(ls: FreeLists, b: Block, target: nat)
    requires Freeable(ls, b) && b.order <= MAX_ORDER && MIN_ORDER <= target <= b.order
    ensures Recut(ls, b, Split(ls, b, target), Block(b.base, target))
    decreases b.order
  {
    hide Freeable;
    if b.order == target {
      RecutSelf(ls, b);
    } else {
      var lower, upper := SplitStep(ls, b);
      var ls1 := Push(ls, upper);
      var q := Split(ls1, lower, target);
      assert Split(ls, b, target) == q;
      SplitSound(ls1, lower, target);
      RecutTrans(ls, b, ls1, lower, q, Block(b.base, target));
    }
  }

  lemma {:induction false} WithoutHead(xs: seq<nat>, x: nat)
    ensures Without([x] + xs, x) == xs
  {}

  /** Freeing a block whose buddy has just been pushed is freeing their parent. */
  lemma CoalescePair(ls: FreeLists, lower: Block, upper: Block)
    requires lower.order < MAX_ORDER && lower.Buddy() == upper
    ensures Coalesce(Push(ls, upper), lower) == Coalesce(ls, lower.Parent())
  {
    var ls1 := Push(ls, upper);
    assert IsFree(ls1, upper);
    WithoutHead(ls[upper.order], upper.base);
    assert Remove(ls1, upper) == ls;
  }

  /** Coalescing undoes splitting, list by list and in the same order. */
  lemma {:induction false} CoalesceUndoesSplit(ls: FreeLists, b: Block, target: nat)
    requires b.order <= MAX_ORDER && b.Aligned() && target <= b.order
    ensures Coalesce(Split(ls, b, target), Block(b.base, target)) == Coalesce(ls, b)
    decreases b.order
  {
    hide Coalesce;
    hide Xor;
    if b.order > target {
      var half := b.order - 1;
      var lower := Block(b.base, half);
      var upper := Block(b.base + Pow2(half), half);
      HalvesAreBuddies(b, lower, upper);
      CoalesceUndoesSplit(Push(ls, upper), lower, target);
      CoalescePair(ls, lower, upper);
    }
  }

  lemma PushPop(ls: FreeLists, o: nat)
    requires o <= MAX_ORDER && ls[o] != []
    ensures Push(Pop(ls, o), Block(ls[o][0], o)) == ls
  {
    assert [ls[o][0]] + ls[o][1..] == ls[o];
  }

  /** Allocating and freeing at once restores all 64 lists exactly, order included. */
  lemma AllocateThenFree(ls: FreeLists, target: nat)
    requires Tiling(FreeBlocks(ls)) && NoBuddies(FreeBlocks(ls))
    requires MIN_ORDER <= target <= MAX_ORDER && FirstFit(ls, target) <= MAX_ORDER
    ensures var o := FirstFit(ls, target);
      var base := ls[o][0];
      Coalesce(Split(Pop(ls, o), Block(base, o), target), Block(base, target)) == ls
  {
    var o := FirstFit(ls, target);
    var b := Block(ls[o][0], o);
    var popped := Pop(ls, o);
    assert b in FreeBlocks(ls);
    CoalesceUndoesSplit(popped, b, target);
    assert forall x :: x in popped[o] ==> x in ls[o];
    assert !IsFree(popped, b.Buddy()) by {
      assert IsFree(popped, b.Buddy()) ==> b.Buddy() in FreeBlocks(ls);
    }
    PushPop(ls, o);
  }

  lemma PopBlocks(ls: FreeLists, o: nat)
    requires NoRepeats(ls) && o <= MAX_ORDER && ls[o] != []
    ensures var b := Block(ls[o][0], o);
      b in FreeBlocks(ls) && FreeBlocks(Pop(ls, o)) == FreeBlocks(ls) - {b} && NoRepeats(Pop(ls, o))
  {
    var b := Block(ls[o][0], o);
    assert Pop(ls, o) == Remove(ls, b);
    RemoveBlocks(ls, b);
  }

  // ---------------------------------------------------------------- RESIZE

  /** The first pass of RESIZE: every buddy on the way up to `target` is free. The lists are not changed. */
  predicate CanGrow(ls: FreeLists, b: Block, target: nat)
    decreases target - b.order
  {
    b.order >= target || (IsFree(ls, b.Buddy()) && CanGrow(ls, b.Parent(), target))
  }

  /** The block reached by merging up to `target`. */
  function Grown(b: Block, target: nat): (c: Block)
    requires b.order <= target
    ensures c.order == target
    decreases target - b.order
  {
    if b.order == target then b else Grown(b.Parent(), target)
  }

  /** The second pass of RESIZE: remove every buddy on the way up, whether or not it is there. */
  function Absorb(ls: FreeLists, b: Block, target: nat): FreeLists
    requires b.order <= target <= MAX_ORDER
    decreases target - b.order
  {
    if b.order == target then ls else Absorb(Remove(ls, b.Buddy()), b.Parent(), target)
  }

  /** Every removal of the second pass finds its block. */
  predicate AllRemovalsSucceed(ls: FreeLists, b: Block, target: nat)
    requires b.order <= target <= MAX_ORDER
    decreases target - b.order
  {
    b.order == target
    || (IsFree(ls, b.Buddy()) && AllRemovalsSucceed(Remove(ls, b.Buddy()), b.Parent(), target))
  }

  lemma {:induction false} CanGrowLocal(ls: FreeLists, ls': FreeLists, b: Block, target: nat)
    requires forall o :: b.order <= o <= MAX_ORDER ==> ls'[o] == ls[o]
    requires target <= MAX_ORDER
    ensures CanGrow(ls, b, target) == CanGrow(ls', b, target)
    decreases target - b.order
  {
    if b.order < target { CanGrowLocal(ls, ls', b.Parent(), target); }
  }

  /** The checking pass succeeds exactly when every removal of the second pass will. */
  lemma {:induction false} CheckPredictsRemovals(ls: FreeLists, b: Block, target: nat)
    requires b.order <= target <= MAX_ORDER
    ensures CanGrow(ls, b, target) <==> AllRemovalsSucceed(ls, b, target)
    decreases target - b.order
  {
    if b.order < target {
      var ls1 := Remove(ls, b.Buddy());
      CheckPredictsRemovals(ls1, b.Parent(), target);
      CanGrowLocal(ls, ls1, b.Parent(), target);
    }
  }

  /** Growing in place absorbs exactly the buddies: memory stays covered, the grown block is aligned and contains
      the old one, and the free lists only lose blocks. */
  lemma {:induction false} AbsorbSound(ls: FreeLists, b: Block, target: nat)
    requires Freeable(ls, b) && b.order <= target <= MAX_ORDER && CanGrow(ls, b, target)
    ensures var r, c := Absorb(ls, b, target), Grown(b, target);
      && Freeable(r, c) && SameCover(FreeBlocks(ls) + {b}, FreeBlocks(r) + {c})
      && FreeBlocks(r) <= FreeBlocks(ls)
      && c.Aligned() && c.base <= b.base && b.Limit() <= c.Limit()
    decreases target - b.order
  {
    assert b in FreeBlocks(ls) + {b};
    if b.order < target {
      var ls1 := Remove(ls, b.Buddy());
      MergeFreeable(ls, b);
      CanGrowLocal(ls, ls1, b.Parent(), target);
      AbsorbSound(ls1, b.Parent(), target);
      BuddyIs(b);
    }
  }

  /** Where the grown block lies: the old base, or at least one old block size below it. */
  lemma {:induction false} GrownBase(b: Block, target: nat)
    requires b.Aligned() && b.order <= target
    ensures Grown(b, target).Aligned()
    ensures Grown(b, target).base <= b.base && b.Limit() <= Grown(b, target).Limit()
    ensures Grown(b, target).base == b.base || Grown(b, target).base + b.Size() <= b.base
    decreases target - b.order
  {
    if b.order < target {
      BuddyIs(b);
      GrownBase(b.Parent(), target);
    }
  }
}
