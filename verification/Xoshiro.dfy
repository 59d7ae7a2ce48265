/** The xoshiro256++ generator. */
module Xoshiro {
  type Word = bv64

  datatype State = State(a: Word, b: Word, c: Word, d: Word)

  const ZERO := State(0, 0, 0, 0)

  function Xor(x: Word, y: Word): Word { x ^ y }

  function Shift17(x: Word): Word { x << 17 }

  function RotateLeft23(x: Word): Word { (x << 23) | (x >> 41) }

  function RotateLeft45(x: Word): Word { (x << 45) | (x >> 19) }

  function RotateRight45(x: Word): Word { (x >> 45) | (x << 19) }

  /** Solves `b ^ (b << 17) == w`. */
  function Unshift17(w: Word): Word { w ^ (w << 17) ^ (w << 34) ^ (w << 51) }

  function Scrambled(a: Word, d: Word): Word { RotateLeft23(a + d) + a }

  function Output(s: State): Word { Scrambled(s.a, s.d) }

  /** The state after a draw: each of its words is a sum of words before it, some of them shifted or rotated. */
  function Next(s: State): State {
    State(
      Xor(s.a, Xor(s.b, s.d)),
      Xor(s.a, Xor(s.b, s.c)),
      Xor(Xor(s.a, s.c), Shift17(s.b)),
      RotateLeft45(Xor(s.b, s.d)))
  }

  /** The state before a draw. */
  function Previous(t: State): State {
    var bd := RotateRight45(t.d);
    var a := Xor(t.a, bd);
    var bc := Xor(t.b, a);
    var b := Unshift17(Xor(bc, Xor(t.c, a)));
    State(a, b, Xor(bc, b), Xor(bd, b))
  }

  lemma RotatesBack(x: Word)
    ensures RotateRight45(RotateLeft45(x)) == x
  {}

  lemma UnshiftsWord(b: Word)
    ensures Unshift17(b ^ (b << 17)) == b
  {}

  lemma Unshifts(b: Word)
    ensures Unshift17(Xor(b, Shift17(b))) == b
  {
    var w := b ^ (b << 17);
    assert Shift17(b) == b << 17;
    assert Xor(b, Shift17(b)) == w;
    assert Unshift17(w) == b by { UnshiftsWord(b); }
  }

  lemma Cancels(x: Word, y: Word)
    ensures Xor(Xor(x, y), y) == x && Xor(Xor(x, y), x) == y
  {}

  lemma CancelsOuter(a: Word, c: Word, t: Word)
    ensures Xor(Xor(Xor(a, c), t), a) == Xor(c, t)
  {}

  lemma CancelsInner(b: Word, c: Word, t: Word)
    ensures Xor(Xor(b, c), Xor(c, t)) == Xor(b, t)
  {}

  lemma CancelsTwo(a: Word, b: Word, c: Word, t: Word)
    ensures Xor(Xor(b, c), Xor(Xor(Xor(a, c), t), a)) == Xor(b, t)
  {
    hide Xor;
    CancelsOuter(a, c, t);
    CancelsInner(b, c, t);
  }

  /** A draw loses nothing of the state: no two states have the same successor. */
  lemma NextIsInvertible(s: State)
    ensures Previous(Next(s)) == s
  {
    hide Xor;
    hide Shift17;
    hide RotateLeft45;
    hide RotateRight45;
    hide Unshift17;
    RotatesBack(Xor(s.b, s.d));
    Cancels(s.a, Xor(s.b, s.d));
    Cancels(s.a, Xor(s.b, s.c));
    CancelsTwo(s.a, s.b, s.c, Shift17(s.b));
    Unshifts(s.b);
    Cancels(s.b, s.c);
    Cancels(s.b, s.d);
  }

  lemma NextOfZero()
    ensures Next(ZERO) == ZERO
  {}

  /** The state after `n` draws. */
  function After(s: State, n: nat): State
    decreases n
  {
    if n == 0 then s else After(Next(s), n - 1)
  }

  /** The first five numbers from the state 1, 2, 3, 4, worked out by hand. */
  lemma FirstDraws()
    ensures var s := State(1, 2, 3, 4);
      && Output(s) == 41943041
      && Output(After(s, 1)) == 58720359
      && Output(After(s, 2)) == 3588806011781223
      && Output(After(s, 3)) == 3591011842654386
      && Output(After(s, 4)) == 9228616714210784205
  {
    var s0 := State(1, 2, 3, 4);
    var s1 := State(7, 0, 262146, 211106232532992);
    var s2 := State(211106232532999, 262149, 262149, 402653184);
    var s3 := State(211106635448322, 211106232532999, 211140593188866, 9223547958715220736);
    var s4 := State(9223547959118136069, 211140995579911, 9223372071617429504, 27285480756215808);
    Draw(s0, s1);
    Draw(s1, s2);
    Draw(s2, s3);
    Draw(s3, s4);
    hide Next;
    assert After(s0, 1) == After(s1, 0) && After(s0, 2) == After(s1, 1) == After(s2, 0);
    assert After(s0, 3) == After(s1, 2) == After(s2, 1) == After(s3, 0);
    assert After(s0, 4) == After(s1, 3) == After(s2, 2) == After(s3, 1) == After(s4, 0);
  }

  lemma Draw(s: State, t: State)
    requires Next(s) == t
    ensures forall n: nat :: After(s, n + 1) == After(t, n)
  {}

  /** The state that yields nothing but zeros is reached from no other, in any number of draws. */
  lemma {:induction false} NeverAllZero(s: State, n: nat)
    ensures After(s, n) == ZERO <==> s == ZERO
    decreases n
  {
    hide Next;
    hide Previous;
    NextOfZero();
    NextIsInvertible(s);
    NextIsInvertible(ZERO);
    if n > 0 { NeverAllZero(Next(s), n - 1); }
  }

  /** Different states stay different. */
  lemma {:induction false} NeverMerge(s: State, t: State, n: nat)
    ensures After(s, n) == After(t, n) <==> s == t
    decreases n
  {
    hide Next;
    hide Previous;
    NextIsInvertible(s);
    NextIsInvertible(t);
    if n > 0 { NeverMerge(Next(s), Next(t), n - 1); }
  }

  class Generator {
    const words: array<Word>

    ghost predicate Valid() {
      words.Length == 4
    }

    ghost function View(): State
      requires Valid()
      reads words
    {
      State(words[0], words[1], words[2], words[3])
    }

    constructor (seed: State)
      ensures Valid() && fresh(words) && View() == seed
    {
      words := new Word[] [seed.a, seed.b, seed.c, seed.d];
    }

    /** `xoshiro256pp`. */
    method Draw() returns (result: Word)
      requires Valid()
      modifies words
      ensures result == Output(old(View())) && View() == Next(old(View()))
    {
      hide Xor;
      hide Shift17;
      hide RotateLeft45;
      hide Scrambled;
      ghost var s := View();
      result := Scrambled(words[0], words[3]);
      var t := Shift17(words[1]);
      words[2] := Xor(words[2], words[0]);
      words[3] := Xor(words[3], words[1]);
      words[1] := Xor(words[1], words[2]);
      words[0] := Xor(words[0], words[3]);
      words[2] := Xor(words[2], t);
      words[3] := RotateLeft45(words[3]);
      Rearranged(s.a, s.b, s.c, s.d);
    }
  }

  lemma Rearranged(a: Word, b: Word, c: Word, d: Word)
    ensures Xor(b, Xor(c, a)) == Xor(a, Xor(b, c)) && Xor(a, Xor(d, b)) == Xor(a, Xor(b, d))
    ensures Xor(c, a) == Xor(a, c) && Xor(d, b) == Xor(b, d)
  {}
}
