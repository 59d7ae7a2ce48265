/** Power-of-two blocks of physical memory and sets of them: alignment, nesting, tilings, and the theorem that a
    tiling without a pair of buddies is the only such tiling of the memory it covers. */
module BuddyBlocks {
  import opened Bits

  datatype Block = Block(base: nat, order: nat) {
    function Size(): nat { Pow2(order) }

    /** One past the last address. */
    function Limit(): nat { base + Pow2(order) }

    ghost predicate Aligned() { base % Pow2(order) == 0 }

    ghost predicate Holds(a: nat) { base <= a < base + Pow2(order) }

    /** The block `base ^ size` that FREE and RESIZE look for. */
    function Buddy(): Block { Block(Xor(base, Pow2(order)), order) }

    /** The block that this block and its buddy halve. */
    function Parent(): Block {
      Block(if Buddy().base < base then Buddy().base else base, order + 1)
    }
  }

  ghost predicate Covers(s: set<Block>, a: nat) {
    exists b :: b in s && b.Holds(a)
  }

  ghost predicate SameCover(s: set<Block>, t: set<Block>) {
    forall a: nat :: Covers(s, a) <==> Covers(t, a)
  }

  ghost predicate Disjoint(b: Block, c: Block) {
    b.Limit() <= c.base || c.Limit() <= b.base
  }

  /** Aligned blocks that do not overlap. */
  ghost predicate Tiling(s: set<Block>) {
    && (forall b <- s :: b.Aligned())
    && (forall b, c :: b in s && c in s && b != c ==> Disjoint(b, c))
  }

  /** Everything that could be coalesced has been. */
  ghost predicate NoBuddies(s: set<Block>) {
    forall b <- s :: b.Buddy() !in s
  }

  // ---------------------------------------------------------------- one block

  lemma BuddyIs(b: Block)
    requires b.Aligned()
    ensures b.Buddy().base == if b.base % Pow2(b.order + 1) == 0 then b.base + b.Size() else b.base - b.Size()
    ensures b.Buddy().Aligned() && b.Buddy().Buddy() == b && b.Buddy() != b
    ensures Disjoint(b, b.Buddy())
    ensures b.Parent().Aligned() && b.Buddy().Parent() == b.Parent()
    ensures b.Parent().base <= b.base && b.Limit() <= b.Parent().Limit()
    ensures b.Parent().base == b.base || b.Parent().base == b.Buddy().base
    ensures forall a: nat :: b.Parent().Holds(a) <==> b.Holds(a) || b.Buddy().Holds(a)
  {
    var k, p := b.order, Pow2(b.order);
    XorBuddy(b.base, k);
    ModStep(b.base, k);
    var u := b.Buddy();
    if b.base % Pow2(k + 1) == 0 {
      assert u.base == b.base + p;
      ModAdd(b.base, p, p);
      ModAdd(b.base, p, 2 * p);
      assert u.base % Pow2(k + 1) == p by { ModUnique(p, 2 * p, 0, p); }
    } else {
      assert u.base == b.base - p;
      ModSub(b.base, p, p);
      assert u.base % Pow2(k + 1) == 0 by {
        SubRemainder(b.base, 2 * p);
      }
    }
    XorBuddy(u.base, k);
  }

  /** Buddies lie side by side. */
  lemma BuddyBeside(b: Block)
    requires b.Aligned()
    ensures b.Buddy().Limit() == b.base || b.Buddy().base == b.Limit()
    ensures b.Buddy().order == b.order
  {
    BuddyIs(b);
  }

  /** The two halves of an aligned block are each other's buddies. */
  lemma HalvesAreBuddies(b: Block, lower: Block, upper: Block)
    requires b.Aligned() && b.order > 0
    requires lower == Block(b.base, b.order - 1) && upper == Block(b.base + lower.Size(), b.order - 1)
    ensures lower.Aligned() && upper.Aligned()
    ensures lower.Buddy() == upper && upper.Buddy() == lower && lower.Parent() == b
  {
    AlignedDown(b.base, b.order, b.order - 1);
    BuddyIs(lower);
  }

  /** Aligned blocks are nested or disjoint: sharing an address, the one of smaller order lies inside the other. */
  lemma {:induction false} Nested(b: Block, c: Block, a: nat)
    requires b.Aligned() && c.Aligned() && b.order <= c.order
    requires b.Holds(a) && c.Holds(a)
    ensures c.base <= b.base && b.Limit() <= c.Limit()
    ensures b.order == c.order ==> b == c
    ensures b.order < c.order ==> c.base <= b.Parent().base && b.Parent().Limit() <= c.Limit()
    decreases c.order - b.order
  {
    if b.order == c.order {
      if b.base <= c.base { MultipleGap(b.base, c.base, b.Size()); } else { MultipleGap(c.base, b.base, b.Size()); }
    } else {
      BuddyIs(b);
      Nested(b.Parent(), c, a);
    }
  }

  // ---------------------------------------------------------------- tilings

  lemma TilingShares(s: set<Block>, b: Block, c: Block, a: nat)
    requires Tiling(s) && b in s && c in s && b.Holds(a) && c.Holds(a)
    ensures b == c
  {}

  /** A block of least order in a nonempty set. */
  lemma {:induction false} LeastOrder(s: set<Block>) returns (m: Block)
    requires s != {}
    ensures m in s && forall b <- s :: m.order <= b.order
  {
    var x :| x in s;
    if s == {x} {
      m := x;
    } else {
      var rest := s - {x};
      m := LeastOrder(rest);
      assert forall b <- s :: b == x || b in rest;
      if x.order < m.order { m := x; }
    }
  }

  /** In a tiling, whatever covers the base of a block's buddy is the buddy itself or something smaller. */
  lemma BuddyCover(s: set<Block>, m: Block, c: Block)
    requires Tiling(s) && m in s && c in s
    requires c.Holds(m.Buddy().base) && c.order >= m.order
    ensures c == m.Buddy()
  {
    var u := m.Buddy();
    BuddyIs(m);
    Nested(u, c, u.base);
    if c.order > m.order {
      assert c.Holds(m.base);
      TilingShares(s, m, c, m.base);
    }
  }

  lemma SmallerStaysInside(u: Block, c: Block, t: Block)
    requires u.Aligned() && c.Aligned() && t.Aligned() && c.order < u.order
    requires c.Holds(u.base) && t.base <= u.base && u.Limit() <= t.Limit()
    ensures t.Holds(c.base)
  {
    Nested(c, u, u.base);
  }

  ghost predicate Inside(s: set<Block>, t: Block, b: Block) {
    b in s && b.order < t.order && t.Holds(b.base)
  }

  lemma LeastInside(s: set<Block>, t: Block, s0: Block) returns (m: Block)
    requires Inside(s, t, s0)
    ensures Inside(s, t, m)
    ensures forall b :: Inside(s, t, b) ==> m.order <= b.order
  {
    var inner := set b | b in s && Inside(s, t, b);
    assert s0 in inner;
    m := LeastOrder(inner);
    assert forall b :: Inside(s, t, b) ==> b in inner;
  }

  lemma BuddyInside(m: Block, t: Block)
    requires m.Aligned() && t.Aligned() && m.order < t.order && t.Holds(m.base)
    ensures m.Buddy().Aligned() && t.base <= m.Buddy().base && m.Buddy().Limit() <= t.Limit()
  {
    BuddyIs(m);
    Nested(m, t, m.base);
  }

  /** A block that is covered by strictly smaller blocks has a buddy pair inside it. */
  lemma CoveredBySmaller(s: set<Block>, t: Block, s0: Block)
    requires Tiling(s) && t.Aligned()
    requires forall a: nat :: t.Holds(a) ==> Covers(s, a)
    requires Inside(s, t, s0)
    ensures !NoBuddies(s)
  {
    var m := LeastInside(s, t, s0);
    var u := m.Buddy();
    BuddyInside(m, t);
    assert t.Holds(u.base);
    var c :| c in s && c.Holds(u.base);
    if c.order < m.order {
      SmallerStaysInside(u, c, t);
      assert Inside(s, t, c);
    } else {
      BuddyCover(s, m, c);
    }
  }

  lemma CanonicalSubset(s: set<Block>, t: set<Block>, b: Block)
    requires Tiling(s) && Tiling(t) && NoBuddies(s) && NoBuddies(t) && SameCover(s, t)
    requires b in s
    ensures b in t
  {
    assert Covers(s, b.base);
    var c :| c in t && c.Holds(b.base);
    if c.order > b.order {
      Nested(b, c, b.base);
      forall a: nat | c.Holds(a) ensures Covers(s, a) { assert Covers(t, a); }
      CoveredBySmaller(s, c, b);
    } else {
      Nested(c, b, b.base);
      if c.order < b.order {
        forall a: nat | b.Holds(a) ensures Covers(t, a) { assert Covers(s, a); }
        assert b.Holds(c.base);
        CoveredBySmaller(t, b, c);
      }
    }
  }

  /** Canonical form: two fully coalesced tilings of the same memory are the same set of blocks. */
  lemma CanonicalTiling(s: set<Block>, t: set<Block>)
    requires Tiling(s) && Tiling(t) && NoBuddies(s) && NoBuddies(t) && SameCover(s, t)
    ensures s == t
  {
    forall b | b in s ensures b in t { CanonicalSubset(s, t, b); }
    forall b | b in t ensures b in s { CanonicalSubset(t, s, b); }
  }

  /** Replacing a buddy pair by their parent keeps a tiling and the memory it covers. */
  lemma MergePair(s: set<Block>, b: Block)
    requires b.Aligned() && b !in s && b.Buddy() in s && Tiling(s + {b})
    ensures b.Parent() !in s - {b.Buddy()}
    ensures Tiling(s - {b.Buddy()} + {b.Parent()})
    ensures SameCover(s + {b}, s - {b.Buddy()} + {b.Parent()})
  {
    var u, p := b.Buddy(), b.Parent();
    BuddyIs(b);
    var s1, s2 := s + {b}, s - {u} + {p};
    assert p.Holds(p.base) && (b.Holds(p.base) || u.Holds(p.base));
    if p in s { 
      TilingShares(s1, p, if b.Holds(p.base) then b else u, p.base);
    }
    forall c | c in s - {u} ensures Disjoint(c, p) {
      assert c in s1 && c != b && c != u;
      assert Disjoint(c, b) && Disjoint(c, u);
    }
    forall a: nat ensures Covers(s1, a) <==> Covers(s2, a) {
      if Covers(s1, a) {
        var c :| c in s1 && c.Holds(a);
        assert c in s2 || p.Holds(a);
        assert p in s2;
      }
      if Covers(s2, a) {
        var c :| c in s2 && c.Holds(a);
        if c == p {
          assert b in s1 && u in s1;
        } else {
          assert c in s1;
        }
      }
    }
  }

  /** Splitting a block into its two halves keeps a tiling and the memory it covers. */
  lemma SplitPair(s: set<Block>, b: Block, lower: Block)
    requires b.Aligned() && b.order > 0 && b !in s && Tiling(s + {b})
    requires lower == Block(b.base, b.order - 1)
    ensures lower.Aligned() && lower.Buddy() == Block(b.base + lower.Size(), lower.order)
    ensures lower !in s && lower.Buddy() !in s
    ensures Tiling(s + {lower.Buddy()} + {lower})
    ensures SameCover(s + {b}, s + {lower.Buddy()} + {lower})
  {
    AlignedDown(b.base, b.order, b.order - 1);
    BuddyIs(lower);
    var u := lower.Buddy();
    assert lower.Parent() == b;
    var s1, s2 := s + {b}, s + {u} + {lower};
    forall c | c in s ensures Disjoint(c, lower) && Disjoint(c, u) && c != lower && c != u {
      assert c in s1 && Disjoint(c, b);
    }
    forall a: nat ensures Covers(s1, a) <==> Covers(s2, a) {
      if Covers(s1, a) {
        var c :| c in s1 && c.Holds(a);
        assert c == b || c in s2;
        assert u in s2 && lower in s2;
      }
      if Covers(s2, a) {
        var c :| c in s2 && c.Holds(a);
        assert c in s1 || b.Holds(a);
        assert b in s1;
      }
    }
  }

  // ---------------------------------------------------------------- blocks beside other blocks

  lemma TilingSubset(s: set<Block>, t: set<Block>)
    requires Tiling(s) && t <= s
    ensures Tiling(t)
  {}

  /** One part of a tiling may be retiled, however the rest is cut up. */
  lemma Retile(s: set<Block>, t: set<Block>, others: set<Block>)
    requires Tiling(s + others) && s !! others && Tiling(t) && SameCover(s, t)
    ensures Tiling(t + others) && t !! others
    ensures SameCover(s + others, t + others)
  {
    forall b, c | b in t && c in others ensures Disjoint(b, c) && b != c {
      if !Disjoint(b, c) || b == c {
        var a := if b.base <= c.base then c.base else b.base;
        assert b.Holds(a) && c.Holds(a);
        assert Covers(t, a) && Covers(s, a);
        var d :| d in s && d.Holds(a);
        TilingShares(s + others, d, c, a);
      }
    }
    CoverUnion(s, others);
    CoverUnion(t, others);
  }

  lemma CoverUnion(s: set<Block>, t: set<Block>)
    ensures forall a: nat :: Covers(s + t, a) <==> Covers(s, a) || Covers(t, a)
  {
    forall a: nat ensures Covers(s + t, a) <==> Covers(s, a) || Covers(t, a) {
      if Covers(s + t, a) {
        var b :| b in s + t && b.Holds(a);
        assert b in s || b in t;
      }
      if Covers(s, a) {
        var b :| b in s && b.Holds(a);
        assert b in s + t;
      }
      if Covers(t, a) {
        var b :| b in t && b.Holds(a);
        assert b in s + t;
      }
    }
  }
}
