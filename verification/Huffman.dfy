/** The canonical prefix codes of section 3.2.2 of RFC 1951: the code lengths of the symbols determine the codes, and
    a code is read from the bit stream most significant bit first. */
module Huffman {
  import opened Bits
  import opened BitReversal

  const MAX_LENGTH: nat := 15
  const MAX_SYMBOLS: nat := 288

  ghost predicate LengthsOk(ls: seq<nat>) {
    |ls| <= MAX_SYMBOLS && forall i :: 0 <= i < |ls| ==> ls[i] <= MAX_LENGTH
  }

  // ---------------------------------------------------------------- codes

  /** The number of symbols with codes of length `s`. */
  function Count(ls: seq<nat>, s: nat): nat
    decreases |ls|
  {
    if ls == [] then 0 else Count(ls[..|ls| - 1], s) + (if ls[|ls| - 1] == s then 1 else 0)
  }

  /** The least code of length `s`. */
  function FirstCode(ls: seq<nat>, s: nat): nat
    decreases s, |ls|
  {
    if s <= 1 then 0 else 2 * (FirstCode(ls, s - 1) + Count(ls, s - 1))
  }

  /** One more than the greatest code of length `s`. */
  function Limit(ls: seq<nat>, s: nat): nat { FirstCode(ls, s) + Count(ls, s) }

  /** How many earlier symbols have the same length. */
  function Rank(ls: seq<nat>, i: nat): nat
    requires i < |ls|
  {
    Count(ls[..i], ls[i])
  }

  /** The code of symbol `i`: codes of one length are consecutive in the order of their symbols. */
  function CodeOf(ls: seq<nat>, i: nat): nat
    requires i < |ls|
  {
    FirstCode(ls, ls[i]) + Rank(ls, i)
  }

  /** The codes of every length fit in that many bits. */
  ghost predicate Accepted(ls: seq<nat>) {
    forall s :: 1 <= s <= MAX_LENGTH ==> Limit(ls, s) <= Pow2(s)
  }

  /** The number of bits of a symbol's code, 0 if it has none. */
  function WidthOf(ls: seq<nat>, i: nat): nat { if i < |ls| then ls[i] else 0 }

  /** The bit stream `v` starts with the code of symbol `i`. */
  ghost predicate Matches(ls: seq<nat>, v: nat, i: nat) {
    i < |ls| && ls[i] > 0 && Reverse(v, ls[i]) == CodeOf(ls, i)
  }

  // ---------------------------------------------------------------- counting

  lemma {:induction false} CountPrefix(ls: seq<nat>, i: nat, s: nat)
    requires i <= |ls|
    ensures Count(ls[..i], s) <= Count(ls, s)
    ensures i < |ls| && ls[i] == s ==> Count(ls[..i], s) < Count(ls, s)
    decreases |ls| - i
  {
    if i == |ls| {
      assert ls[..i] == ls;
    } else {
      CountPrefix(ls, i + 1, s);
      CountNext(ls, i, s);
    }
  }

  lemma CountNext(ls: seq<nat>, i: nat, s: nat)
    requires i < |ls|
    ensures Count(ls[..i + 1], s) == Count(ls[..i], s) + (if ls[i] == s then 1 else 0)
  {
    assert ls[..i + 1][..i] == ls[..i];
  }

  /** Symbols of one length have distinct ranks. */
  lemma RankOrder(ls: seq<nat>, i: nat, k: nat)
    requires i < k < |ls| && ls[i] == ls[k]
    ensures Rank(ls, i) < Rank(ls, k)
  {
    CountPrefix(ls[..k], i, ls[i]);
    assert ls[..k][..i] == ls[..i];
  }

  lemma RankBelow(ls: seq<nat>, i: nat)
    requires i < |ls|
    ensures Rank(ls, i) < Count(ls, ls[i])
  {
    CountPrefix(ls, i, ls[i]);
  }

  /** The symbol of length `s` and rank `r`. */
  function Nth(ls: seq<nat>, s: nat, r: nat): nat
    requires r < Count(ls, s)
    decreases |ls|
  {
    var init := ls[..|ls| - 1];
    if r < Count(init, s) then Nth(init, s, r) else |ls| - 1
  }

  lemma {:induction false} NthIs(ls: seq<nat>, s: nat, r: nat)
    requires r < Count(ls, s)
    ensures var i := Nth(ls, s, r); i < |ls| && ls[i] == s && Rank(ls, i) == r
    decreases |ls|
  {
    var init := ls[..|ls| - 1];
    if r < Count(init, s) {
      NthIs(init, s, r);
      var i := Nth(init, s, r);
      assert ls[..i] == init[..i];
    }
  }

  // ---------------------------------------------------------------- the codes are consecutive

  /** Symbol `i` comes before symbol `k`: by length, and among equal lengths by number. */
  predicate Precedes(ls: seq<nat>, i: nat, k: nat)
    requires i < |ls| && k < |ls|
  {
    0 < ls[i] < ls[k] || (0 < ls[i] == ls[k] && i < k)
  }

  lemma {:induction false} NoneBetween(ls: seq<nat>, s: nat, a: nat, b: nat)
    requires a <= b <= |ls| && forall j :: a <= j < b ==> ls[j] != s
    ensures Count(ls[..b], s) == Count(ls[..a], s)
    decreases b - a
  {
    if a < b {
      NoneBetween(ls, s, a, b - 1);
      CountNext(ls, b - 1, s);
    }
  }

  lemma NoneAtAll(ls: seq<nat>, s: nat)
    requires forall j :: 0 <= j < |ls| ==> ls[j] != s
    ensures Count(ls, s) == 0
  {
    NoneBetween(ls, s, 0, |ls|);
    assert ls[..|ls|] == ls && ls[..0] == [];
  }

  /** Lengths that no symbol has are passed by doubling. */
  lemma {:induction false} EmptyLengths(ls: seq<nat>, s: nat, t: nat)
    requires 1 <= s < t && forall u :: s < u < t ==> Count(ls, u) == 0
    ensures FirstCode(ls, t) == Limit(ls, s) * Pow2(t - s)
    decreases t - s
  {
    if s + 1 < t {
      EmptyLengths(ls, s, t - 1);
      Twice(Limit(ls, s), Pow2(t - 1 - s));
    }
  }

  lemma {:induction false} NoShorter(ls: seq<nat>, t: nat)
    requires t > 0 && forall u :: 0 < u < t ==> Count(ls, u) == 0
    ensures FirstCode(ls, t) == 0
    decreases t
  {
    if t > 1 { NoShorter(ls, t - 1); }
  }

  /** The rule of section 3.2.2, without its counters: the first symbol has the code 0, and each other one the code of
      the symbol before it plus one, with zeros behind it if the code is longer. */
  lemma NextCode(ls: seq<nat>, i: nat, k: nat)
    requires i < |ls| && k < |ls| && Precedes(ls, i, k)
    requires forall j :: 0 <= j < |ls| ==> !(Precedes(ls, i, j) && Precedes(ls, j, k))
    ensures CodeOf(ls, k) == (CodeOf(ls, i) + 1) * Pow2(ls[k] - ls[i])
  {
    var s, t := ls[i], ls[k];
    CountNext(ls, i, s);
    if s == t {
      forall j | i + 1 <= j < k ensures ls[j] != s { assert !(Precedes(ls, i, j) && Precedes(ls, j, k)); }
      NoneBetween(ls, s, i + 1, k);
    } else {
      forall j | i + 1 <= j < |ls| ensures ls[j] != s { assert !(Precedes(ls, i, j) && Precedes(ls, j, k)); }
      forall j | 0 <= j < k ensures ls[j] != t { assert !(Precedes(ls, i, j) && Precedes(ls, j, k)); }
      forall u | s < u < t ensures Count(ls, u) == 0 {
        forall j | 0 <= j < |ls| ensures ls[j] != u { assert !(Precedes(ls, i, j) && Precedes(ls, j, k)); }
        NoneAtAll(ls, u);
      }
      NoneBetween(ls, s, i + 1, |ls|);
      NoneBetween(ls, t, 0, k);
      assert ls[..|ls|] == ls;
      EmptyLengths(ls, s, t);
    }
  }

  lemma FirstOfAll(ls: seq<nat>, i: nat)
    requires i < |ls| && ls[i] > 0 && forall j :: 0 <= j < |ls| ==> !Precedes(ls, j, i)
    ensures CodeOf(ls, i) == 0
  {
    forall u | 0 < u < ls[i] ensures Count(ls, u) == 0 {
      forall j | 0 <= j < |ls| ensures ls[j] != u { assert !Precedes(ls, j, i); }
      NoneAtAll(ls, u);
    }
    NoShorter(ls, ls[i]);
    forall j | 0 <= j < i ensures ls[j] != ls[i] { assert !Precedes(ls, j, i); }
    NoneBetween(ls, ls[i], 0, i);
  }

  // ---------------------------------------------------------------- the codes are prefix-free

  /** Longer codes start above everything that begins with a shorter one. */
  lemma {:induction false} LaterCodes(ls: seq<nat>, s: nat, t: nat)
    requires 1 <= s < t
    ensures Limit(ls, s) * Pow2(t - s) <= FirstCode(ls, t)
    decreases t - s
  {
    if s + 1 < t {
      LaterCodes(ls, s, t - 1);
      Twice(Limit(ls, s), Pow2(t - 1 - s));
    }
  }

  /** At most one code is a prefix of the stream. */
  lemma OneMatch(ls: seq<nat>, v: nat, i: nat, k: nat)
    requires Matches(ls, v, i) && Matches(ls, v, k)
    ensures i == k
  {
    if ls[i] < ls[k] {
      NotBoth(ls, v, i, k);
    } else if ls[k] < ls[i] {
      NotBoth(ls, v, k, i);
    } else if i < k {
      RankOrder(ls, i, k);
    } else if k < i {
      RankOrder(ls, k, i);
    }
  }

  lemma NotBoth(ls: seq<nat>, v: nat, i: nat, k: nat)
    requires i < |ls| && k < |ls| && 0 < ls[i] < ls[k]
    ensures !(Matches(ls, v, i) && Matches(ls, v, k))
  {
    var s, t := ls[i], ls[k];
    LaterCodes(ls, s, t);
    RankBelow(ls, i);
    ReverseHalves(v, s, t);
    if Reverse(v, s) < Limit(ls, s) { MulMono(Reverse(v, s) + 1, Limit(ls, s), Pow2(t - s)); }
  }

  ghost predicate MatchUpTo(ls: seq<nat>, v: nat, s: nat) {
    exists i: nat :: Matches(ls, v, i) && ls[i] <= s
  }

  /** The bit strings that begin with a code of at most `s` bits are exactly those that begin with a number below the
      limit. */
  lemma {:induction false} CoveredBelow(ls: seq<nat>, v: nat, s: nat)
    requires 1 <= s
    ensures Reverse(v, s) < Limit(ls, s) <==> MatchUpTo(ls, v, s)
    decreases s
  {
    ReverseNext(v, s - 1);
    if s > 1 { CoveredBelow(ls, v, s - 1); }
    if Reverse(v, s) < FirstCode(ls, s) {
      assert MatchUpTo(ls, v, s - 1);
      var i: nat :| Matches(ls, v, i) && ls[i] <= s - 1;
      assert MatchUpTo(ls, v, s);
    } else if Reverse(v, s) < Limit(ls, s) {
      var i := MatchAt(ls, v, s);
    } else {
      assert s > 1 ==> !MatchUpTo(ls, v, s - 1);
      forall i: nat | Matches(ls, v, i) ensures ls[i] > s { RankBelow(ls, i); }
    }
  }

  /** A number in the range of the codes of length `s` is one of them. */
  lemma MatchAt(ls: seq<nat>, v: nat, s: nat) returns (i: nat)
    requires s > 0 && FirstCode(ls, s) <= Reverse(v, s) < Limit(ls, s)
    ensures i == Nth(ls, s, Reverse(v, s) - FirstCode(ls, s))
    ensures Matches(ls, v, i) && ls[i] == s && Rank(ls, i) == Reverse(v, s) - FirstCode(ls, s)
  {
    NthIs(ls, s, Reverse(v, s) - FirstCode(ls, s));
    i := Nth(ls, s, Reverse(v, s) - FirstCode(ls, s));
  }

  // ---------------------------------------------------------------- decoding bit by bit

  datatype Decoded = NoCode | Code(symbol: nat, length: nat)

  /** Reads bits one at a time until the number read is a code of its length. */
  function PlainFrom(ls: seq<nat>, v: nat, s: nat, code: nat): Decoded
    requires s > 0
    decreases MAX_LENGTH + 1 - s, |ls|
  {
    if s > MAX_LENGTH then NoCode
    else
      var c := 2 * code + Bit(v, s - 1);
      if FirstCode(ls, s) <= c < Limit(ls, s) then Code(Nth(ls, s, c - FirstCode(ls, s)), s)
      else PlainFrom(ls, v, s + 1, c)
  }

  function PlainDecode(ls: seq<nat>, v: nat): Decoded { PlainFrom(ls, v, 1, 0) }

  lemma {:induction false} PlainFromIs(ls: seq<nat>, v: nat, s: nat)
    requires LengthsOk(ls) && 1 <= s <= MAX_LENGTH + 1
    requires forall i: nat :: Matches(ls, v, i) ==> ls[i] >= s
    ensures match PlainFrom(ls, v, s, Reverse(v, s - 1))
      case NoCode => forall i: nat :: !Matches(ls, v, i)
      case Code(i, n) => Matches(ls, v, i) && ls[i] == n
    decreases MAX_LENGTH + 1 - s
  {
    hide Reverse;
    hide FirstCode;
    hide Count;
    hide Bit;
    hide Nth;
    if s <= MAX_LENGTH {
      ReverseNext(v, s - 1);
      var c := Reverse(v, s);
      if FirstCode(ls, s) <= c < Limit(ls, s) {
        var i := MatchAt(ls, v, s);
      } else {
        forall i: nat | Matches(ls, v, i) ensures ls[i] >= s + 1 { RankBelow(ls, i); }
        PlainFromIs(ls, v, s + 1);
      }
    }
  }

  /** Decoding bit by bit finds the symbol whose code the stream starts with, and fails if there is none. */
  lemma PlainDecodeIs(ls: seq<nat>, v: nat)
    requires LengthsOk(ls)
    ensures match PlainDecode(ls, v)
      case NoCode => forall i: nat :: !Matches(ls, v, i)
      case Code(i, n) => Matches(ls, v, i) && ls[i] == n
  {
    PlainFromIs(ls, v, 1);
  }

  /** The stream that starts with the code of symbol `i` and goes on with `rest`. */
  function EncodeSymbol(ls: seq<nat>, i: nat, rest: nat): nat
    requires i < |ls|
  {
    Reverse(CodeOf(ls, i), ls[i]) + Pow2(ls[i]) * rest
  }

  /** Decoding undoes encoding, for every accepted code and whatever follows. */
  lemma DecodeEncoded(ls: seq<nat>, i: nat, rest: nat)
    requires LengthsOk(ls) && Accepted(ls) && i < |ls| && ls[i] > 0
    ensures PlainDecode(ls, EncodeSymbol(ls, i, rest)) == Code(i, ls[i])
    ensures EncodeSymbol(ls, i, rest) / Pow2(ls[i]) == rest
  {
    var v, s, c := EncodeSymbol(ls, i, rest), ls[i], CodeOf(ls, i);
    assert rest * Pow2(s) == Pow2(s) * rest;
    ModUnique(v, Pow2(s), rest, Reverse(c, s));
    RankBelow(ls, i);
    assert c < Pow2(s);
    StartsWith(v, c, s);
    PlainDecodeIs(ls, v);
    assert Matches(ls, v, i);
    OneMatch(ls, v, i, PlainDecode(ls, v).symbol);
  }

  // ---------------------------------------------------------------- which lengths are accepted

  /** The share of the 15-bit strings that begin with a code of at most `s` bits. */
  function Weight(ls: seq<nat>, s: nat): nat
    requires s <= MAX_LENGTH
    decreases |ls|
  {
    if ls == [] then 0
    else
      var last := ls[|ls| - 1];
      Weight(ls[..|ls| - 1], s) + (if 0 < last <= s then Pow2(MAX_LENGTH - last) else 0)
  }

  lemma {:induction false} WeightNext(ls: seq<nat>, s: nat)
    requires 0 < s <= MAX_LENGTH
    ensures Weight(ls, s) == Weight(ls, s - 1) + Count(ls, s) * Pow2(MAX_LENGTH - s)
    decreases |ls|
  {
    if ls != [] {
      var init := ls[..|ls| - 1];
      WeightNext(init, s);
      OneMore(Count(init, s), Pow2(MAX_LENGTH - s));
    }
  }

  lemma {:induction false} WeightZero(ls: seq<nat>)
    ensures Weight(ls, 0) == 0
    decreases |ls|
  {
    if ls != [] { WeightZero(ls[..|ls| - 1]); }
  }

  lemma {:induction false} LimitWeight(ls: seq<nat>, s: nat)
    requires 1 <= s <= MAX_LENGTH
    ensures Limit(ls, s) * Pow2(MAX_LENGTH - s) == Weight(ls, s)
    decreases s
  {
    var p := Pow2(MAX_LENGTH - s);
    WeightNext(ls, s);
    if s == 1 {
      WeightZero(ls);
    } else {
      LimitWeight(ls, s - 1);
      Twice(Limit(ls, s - 1), p);
    }
    Distribute(FirstCode(ls, s), Count(ls, s), p);
    if s > 1 { assert FirstCode(ls, s) * p == 2 * (Limit(ls, s - 1) * p) by { Doubled(Limit(ls, s - 1), p); } }
  }

  lemma Distribute(a: nat, b: nat, p: nat)
    ensures (a + b) * p == a * p + b * p
  {}

  lemma Doubled(a: nat, p: nat)
    ensures (2 * a) * p == 2 * (a * p)
  {}

  lemma {:induction false} WeightMono(ls: seq<nat>, s: nat, t: nat)
    requires s <= t <= MAX_LENGTH
    ensures Weight(ls, s) <= Weight(ls, t)
    decreases t - s
  {
    if s < t {
      WeightNext(ls, t);
      WeightMono(ls, s, t - 1);
    }
  }

  lemma ScaledBound(a: nat, s: nat)
    requires s <= MAX_LENGTH
    ensures a <= Pow2(s) <==> a * Pow2(MAX_LENGTH - s) <= Pow2(MAX_LENGTH)
  {
    var p := Pow2(MAX_LENGTH - s);
    Pow2Add(s, MAX_LENGTH - s);
    if a <= Pow2(s) {
      MulMono(a, Pow2(s), p);
    } else {
      MulMono(Pow2(s) + 1, a, p);
      OneMore(Pow2(s), p);
    }
  }

  /** The accepted lists of lengths are exactly those that satisfy the Kraft inequality: over-subscribed codes are
      refused, incomplete ones are not. */
  lemma AcceptedIffKraft(ls: seq<nat>)
    ensures Accepted(ls) <==> Weight(ls, MAX_LENGTH) <= Pow2(MAX_LENGTH)
  {
    forall s | 1 <= s <= MAX_LENGTH
      ensures Limit(ls, s) <= Pow2(s) <==> Weight(ls, s) <= Pow2(MAX_LENGTH)
      ensures Weight(ls, s) <= Weight(ls, MAX_LENGTH)
    {
      LimitWeight(ls, s);
      ScaledBound(Limit(ls, s), s);
      WeightMono(ls, s, MAX_LENGTH);
    }
  }
}
