/** `stbi__zhuffman`: the two-tier decoding table, its builder, and what the table says about the code. */
module HuffmanTable {
  import opened Bits
  import opened BitReversal
  import opened Huffman

  const FAST_BITS: nat := 9
  const FAST_SIZE: nat := 512

  /** The number of symbols with codes shorter than `s`. */
  function FirstSymbol(ls: seq<nat>, s: nat): nat
    decreases s, |ls|
  {
    if s <= 1 then 0 else FirstSymbol(ls, s - 1) + Count(ls, s - 1)
  }

  /** Where the table keeps symbol `i`: symbols are sorted by length. */
  function Slot(ls: seq<nat>, i: nat): nat
    requires i < |ls|
  {
    FirstSymbol(ls, ls[i]) + Rank(ls, i)
  }

  /** An entry of the fast table: the length above the nine bits of the symbol. */
  function Entry(length: nat, symbol: nat): nat { length * FAST_SIZE + symbol }

  // ---------------------------------------------------------------- slots

  lemma {:induction false} FirstSymbolMono(ls: seq<nat>, s: nat, t: nat)
    requires 1 <= s < t
    ensures FirstSymbol(ls, s) + Count(ls, s) <= FirstSymbol(ls, t)
    decreases t - s
  {
    if s + 1 < t { FirstSymbolMono(ls, s, t - 1); }
  }

  /** The number of symbols with codes of length 1 to `s`. */
  function CountUpTo(ls: seq<nat>, s: nat): nat
    decreases |ls|
  {
    if ls == [] then 0
    else CountUpTo(ls[..|ls| - 1], s) + (if 0 < ls[|ls| - 1] <= s then 1 else 0)
  }

  lemma {:induction false} CountUpToNext(ls: seq<nat>, s: nat)
    requires s > 0
    ensures CountUpTo(ls, s) == CountUpTo(ls, s - 1) + Count(ls, s)
    ensures CountUpTo(ls, s) <= |ls| && CountUpTo(ls, 0) == 0
    decreases |ls|
  {
    if ls != [] { CountUpToNext(ls[..|ls| - 1], s); }
  }

  lemma {:induction false} FirstSymbolBound(ls: seq<nat>, s: nat)
    requires s > 0
    ensures FirstSymbol(ls, s) == CountUpTo(ls, s - 1)
    ensures FirstSymbol(ls, s) + Count(ls, s) <= |ls|
    decreases s
  {
    CountUpToNext(ls, s);
    if s > 1 {
      FirstSymbolBound(ls, s - 1);
      CountUpToNext(ls, s - 1);
    }
  }

  /** Every coded symbol has a slot of its own. */
  lemma SlotIs(ls: seq<nat>, i: nat)
    requires i < |ls| && ls[i] > 0
    ensures Slot(ls, i) < |ls|
    ensures forall k :: 0 <= k < |ls| && ls[k] > 0 && k != i ==> Slot(ls, k) != Slot(ls, i)
  {
    FirstSymbolBound(ls, ls[i]);
    RankBelow(ls, i);
    forall k | 0 <= k < |ls| && ls[k] > 0 && k != i ensures Slot(ls, k) != Slot(ls, i) {
      RankBelow(ls, k);
      if ls[i] < ls[k] {
        FirstSymbolMono(ls, ls[i], ls[k]);
      } else if ls[k] < ls[i] {
        FirstSymbolMono(ls, ls[k], ls[i]);
      } else if i < k {
        RankOrder(ls, i, k);
      } else {
        RankOrder(ls, k, i);
      }
    }
  }

  // ---------------------------------------------------------------- the table

  ghost predicate RangesFor(ls: seq<nat>, n: nat, firstcode: seq<nat>, firstsymbol: seq<nat>, maxcode: seq<nat>)
    requires |firstcode| == 16 && |firstsymbol| == 16 && |maxcode| == 17
  {
    forall s :: 1 <= s < n && s <= MAX_LENGTH ==>
      && firstcode[s] == FirstCode(ls, s) && firstsymbol[s] == FirstSymbol(ls, s)
      && maxcode[s] == Limit(ls, s) * Pow2(16 - s)
  }

  /** The symbols below `n` are in their slots. */
  ghost predicate SlotsFor(ls: seq<nat>, n: nat, size: seq<nat>, value: seq<nat>)
    requires |ls| <= |size| == |value|
  {
    forall i :: 0 <= i < n && i < |ls| && ls[i] > 0 ==>
      Slot(ls, i) < |ls| && size[Slot(ls, i)] == ls[i] && value[Slot(ls, i)] == i
  }

  /** Symbol `i` has a short code that the nine bits `j` start with. */
  ghost predicate ShortMatch(ls: seq<nat>, j: nat, i: nat) {
    Matches(ls, j, i) && ls[i] <= FAST_BITS
  }

  /** The fast table resolves exactly the short codes of the symbols below `n`. */
  ghost predicate FastFor(ls: seq<nat>, n: nat, fast: seq<nat>)
    requires |fast| == FAST_SIZE
  {
    && (forall j: nat, i: nat :: j < FAST_SIZE && i < n && ShortMatch(ls, j, i) ==> fast[j] == Entry(ls[i], i))
    && (forall j: nat :: j < FAST_SIZE && fast[j] != 0 ==>
      exists i: nat :: i < n && ShortMatch(ls, j, i) && fast[j] == Entry(ls[i], i))
  }

  /** What the fast table finds for a stream. */
  lemma FastLookup(ls: seq<nat>, fast: seq<nat>, v: nat)
    requires LengthsOk(ls) && |fast| == FAST_SIZE && FastFor(ls, |ls|, fast)
    ensures var e := fast[v % FAST_SIZE];
      if e != 0 then Matches(ls, v, e % FAST_SIZE) && ls[e % FAST_SIZE] == e / FAST_SIZE <= FAST_BITS
      else !MatchUpTo(ls, v, FAST_BITS)
  {
    var j := v % FAST_SIZE;
    forall i: nat | i < |ls| && ls[i] <= FAST_BITS ensures Matches(ls, v, i) <==> ShortMatch(ls, j, i) {
      LowBits(v, ls[i]);
    }
    if fast[j] != 0 {
      var i: nat :| i < |ls| && ShortMatch(ls, j, i) && fast[j] == Entry(ls[i], i);
      EntryParts(ls[i], i);
    } else {
      assert forall i: nat :: !ShortMatch(ls, j, i);
    }
  }

  lemma EntryParts(s: nat, i: nat)
    requires i < FAST_SIZE
    ensures Entry(s, i) / FAST_SIZE == s && Entry(s, i) % FAST_SIZE == i
    ensures s > 0 ==> Entry(s, i) != 0
  {
    ModUnique(Entry(s, i), FAST_SIZE, s, i);
  }

  lemma LowBits(v: nat, s: nat)
    requires s <= FAST_BITS
    ensures Reverse(v % FAST_SIZE, s) == Reverse(v, s)
  {
    assert Pow2(FAST_BITS) == FAST_SIZE;
    ReverseLow(v, FAST_BITS);
    ReversePrefix(v, s, FAST_BITS);
    ReversePrefix(v % FAST_SIZE, s, FAST_BITS);
  }

  /** The preshifted comparison of the slow search. */
  lemma MaxcodeTest(ls: seq<nat>, v: nat, s: nat)
    requires 1 <= s <= MAX_LENGTH
    ensures Reverse(v, 16) < Limit(ls, s) * Pow2(16 - s) <==> MatchUpTo(ls, v, s)
  {
    hide Reverse;
    hide FirstCode;
    hide Count;
    hide MatchUpTo;
    CoveredBelow(ls, v, s);
    ReverseHalves(v, s, 16);
    var p := Pow2(16 - s);
    if Reverse(v, s) < Limit(ls, s) {
      MulMono(Reverse(v, s) + 1, Limit(ls, s), p);
    } else {
      MulMono(Limit(ls, s), Reverse(v, s), p);
    }
  }

  /** The slot that the slow search computes once it has found the length. */
  lemma SlowLookup(ls: seq<nat>, v: nat, s: nat) returns (i: nat)
    requires LengthsOk(ls) && 1 <= s <= MAX_LENGTH
    requires MatchUpTo(ls, v, s) && !MatchUpTo(ls, v, s - 1)
    ensures Matches(ls, v, i) && ls[i] == s
    ensures Reverse(v, 16) / Pow2(16 - s) - FirstCode(ls, s) + FirstSymbol(ls, s) == Slot(ls, i) < |ls|
  {
    i :| Matches(ls, v, i) && ls[i] <= s;
    assert forall k: nat :: Matches(ls, v, k) ==> ls[k] > s - 1;
    ReversePrefix(v, s, 16);
    SlotIs(ls, i);
  }

  // ---------------------------------------------------------------- building

  lemma GapNoMatch(j: nat, x: nat, p: nat)
    requires p > 0 && j < x < j + p
    ensures x % p != j % p
  {
    var q, r := j / p, j % p;
    assert j == q * p + r;
    if r + (x - j) < p {
      ModUnique(x, p, q, r + (x - j));
    } else {
      assert (q + 1) * p == q * p + p;
      ModUnique(x, p, q + 1, r + (x - j) - p);
    }
  }

  lemma StepSame(j: nat, p: nat)
    requires p > 0
    ensures (j + p) % p == j % p
  {
    var q := j / p;
    assert (q + 1) * p == q * p + p;
    ModUnique(j + p, p, q + 1, j % p);
  }

  /** Symbol `i` has a short code, and `j` starts with it exactly when its low bits are the reversed code. */
  lemma ShortMatchIs(ls: seq<nat>, j: nat, i: nat)
    requires LengthsOk(ls) && Accepted(ls) && i < |ls| && 0 < ls[i] <= FAST_BITS
    ensures CodeOf(ls, i) < Pow2(ls[i])
    ensures ShortMatch(ls, j, i) <==> j % Pow2(ls[i]) == Reverse(CodeOf(ls, i), ls[i])
  {
    RankBelow(ls, i);
    StartsWith(j, CodeOf(ls, i), ls[i]);
  }

  /** Filling in the entries of symbol `n` leaves those of earlier symbols alone. */
  lemma FastNext(ls: seq<nat>, n: nat, before: seq<nat>, fast: seq<nat>)
    requires LengthsOk(ls) && n < |ls| && |before| == |fast| == FAST_SIZE && FastFor(ls, n, before)
    requires forall j: nat :: j < FAST_SIZE ==> fast[j] == if ShortMatch(ls, j, n) then Entry(ls[n], n) else before[j]
    ensures FastFor(ls, n + 1, fast)
  {
    forall j: nat, i: nat | j < FAST_SIZE && i < n + 1 && ShortMatch(ls, j, i) ensures fast[j] == Entry(ls[i], i) {
      if ShortMatch(ls, j, n) { OneMatch(ls, j, i, n); }
    }
    forall j: nat | j < FAST_SIZE && fast[j] != 0
      ensures exists i: nat :: i < n + 1 && ShortMatch(ls, j, i) && fast[j] == Entry(ls[i], i)
    {
      if !ShortMatch(ls, j, n) {
        assert before[j] != 0;
        var i: nat :| i < n && ShortMatch(ls, j, i) && before[j] == Entry(ls[i], i);
        assert i < n + 1 && fast[j] == Entry(ls[i], i);
      }
    }
  }

  lemma SlotsNext(ls: seq<nat>, n: nat, size: seq<nat>, value: seq<nat>)
    requires n < |ls| <= |size| == |value| && ls[n] > 0 && SlotsFor(ls, n, size, value)
    ensures Slot(ls, n) < |ls|
    ensures SlotsFor(ls, n + 1, size[Slot(ls, n) := ls[n]], value[Slot(ls, n) := n])
  {
    SlotIs(ls, n);
  }

  lemma CodeFits(ls: seq<nat>, s: nat)
    requires 1 <= s <= MAX_LENGTH && FirstCode(ls, s) <= Pow2(s)
    ensures FirstCode(ls, s) < 0x1_0000
  {
    Pow16();
    Pow2Mono(s, 15);
  }

  lemma RangeStart(ls: seq<nat>)
    ensures FirstCode(ls, 1) == 0 && FirstSymbol(ls, 1) == 0
  {}

  /** One turn of the loop over the lengths; the values fit in 16 bits. */
  lemma RangeStep(ls: seq<nat>, s: nat)
    requires LengthsOk(ls) && 1 <= s <= MAX_LENGTH && FirstCode(ls, s) <= Pow2(s)
    ensures FirstCode(ls, s) < 0x1_0000 && FirstSymbol(ls, s) < 0x1_0000
    ensures FirstCode(ls, s + 1) == 2 * Limit(ls, s) && Pow2(s + 1) == 2 * Pow2(s)
    ensures FirstSymbol(ls, s + 1) == FirstSymbol(ls, s) + Count(ls, s)
  {
    CodeFits(ls, s);
    FirstSymbolBound(ls, s);
  }

  class Table {
    const fast: array<nat>
    const firstcode: array<nat>
    const maxcode: array<nat>
    const firstsymbol: array<nat>
    const size: array<nat>
    const value: array<nat>

    ghost predicate Shape() {
      && fast.Length == FAST_SIZE && firstcode.Length == 16 && maxcode.Length == 17 && firstsymbol.Length == 16
      && size.Length == MAX_SYMBOLS && value.Length == MAX_SYMBOLS
      && firstcode != firstsymbol && firstcode != maxcode && firstsymbol != maxcode && size != value
      && fast !in {firstcode, maxcode, firstsymbol, size, value}
      && size !in {firstcode, maxcode, firstsymbol} && value !in {firstcode, maxcode, firstsymbol}
    }

    /** The table that decodes the code with lengths `ls`. */
    ghost predicate BuiltFor(ls: seq<nat>)
      reads fast, firstcode, maxcode, firstsymbol, size, value
    {
      && Shape() && LengthsOk(ls) && Accepted(ls)
      && RangesFor(ls, 16, firstcode[..], firstsymbol[..], maxcode[..]) && maxcode[16] == 0x1_0000
      && SlotsFor(ls, |ls|, size[..], value[..])
      && FastFor(ls, |ls|, fast[..])
    }

    constructor ()
      ensures Shape() && fresh({fast, firstcode, maxcode, firstsymbol, size, value})
    {
      fast := new nat[FAST_SIZE](_ => 0);
      firstcode := new nat[16](_ => 0);
      maxcode := new nat[17](_ => 0);
      firstsymbol := new nat[16](_ => 0);
      size := new nat[MAX_SYMBOLS](_ => 0);
      value := new nat[MAX_SYMBOLS](_ => 0);
    }

    /** `stbi__zbuild_huffman`: succeeds exactly on the lengths of a code that is not over-subscribed. */
    method Build(ls: seq<nat>) returns (ok: bool)
      requires Shape() && LengthsOk(ls)
      modifies fast, firstcode, maxcode, firstsymbol, size, value
      ensures ok <==> Accepted(ls)
      ensures ok ==> BuiltFor(ls)
    {
      ClearFast();
      var sizes := CountSizes(ls);
      for i := 1 to 16
        invariant forall s :: 1 <= s < i ==> Count(ls, s) <= Pow2(s)
      {
        if sizes[i] > Pow2(i) {
          assert Limit(ls, i) > Pow2(i);
          return false;
        }
      }
      var nextCode := new nat[16](_ => 0);
      ok := ComputeRanges(ls, sizes, nextCode);
      if ok { FillSymbols(ls, nextCode); }
    }

    method ClearFast()
      requires Shape()
      modifies fast
      ensures forall j :: 0 <= j < FAST_SIZE ==> fast[j] == 0
    {
      for j := 0 to FAST_SIZE
        invariant forall x :: 0 <= x < j ==> fast[x] == 0
      {
        fast[j] := 0;
      }
    }

    static method CountSizes(ls: seq<nat>) returns (sizes: array<nat>)
      requires LengthsOk(ls)
      ensures fresh(sizes) && sizes.Length == 17
      ensures forall s :: 1 <= s <= MAX_LENGTH ==> sizes[s] == Count(ls, s)
    {
      sizes := new nat[17](_ => 0);
      for i := 0 to |ls|
        invariant forall s :: 0 <= s <= MAX_LENGTH ==> sizes[s] == Count(ls[..i], s)
      {
        forall s | 0 <= s <= MAX_LENGTH
          ensures Count(ls[..i + 1], s) == Count(ls[..i], s) + (if ls[i] == s then 1 else 0)
        {
          CountNext(ls, i, s);
        }
        sizes[ls[i]] := sizes[ls[i]] + 1;
      }
      assert ls[..|ls|] == ls;
      sizes[0] := 0;
    }

    /** First codes, first slots and preshifted limits, as 16-bit values. */
    method ComputeRanges(ls: seq<nat>, sizes: array<nat>, nextCode: array<nat>) returns (ok: bool)
      requires Shape() && LengthsOk(ls) && sizes.Length == 17 && nextCode.Length == 16
      requires forall s :: 1 <= s <= MAX_LENGTH ==> sizes[s] == Count(ls, s)
      requires {sizes, nextCode} !! {firstcode, maxcode, firstsymbol} && sizes != nextCode
      modifies firstcode, maxcode, firstsymbol, nextCode
      ensures ok <==> Accepted(ls)
      ensures ok ==> RangesFor(ls, 16, firstcode[..], firstsymbol[..], maxcode[..]) && maxcode[16] == 0x1_0000
      ensures ok ==> forall s :: 1 <= s <= MAX_LENGTH ==> nextCode[s] == FirstCode(ls, s)
    {
      hide FirstCode;
      hide FirstSymbol;
      hide Count;
      hide Pow2;
      var code, k := 0, 0;
      RangeStart(ls);
      for i := 1 to 16
        invariant code == FirstCode(ls, i) && k == FirstSymbol(ls, i) && code <= Pow2(i)
        invariant forall s :: 1 <= s < i ==> Limit(ls, s) <= Pow2(s)
        invariant forall s :: 1 <= s < i ==> nextCode[s] == FirstCode(ls, s)
        invariant RangesFor(ls, i, firstcode[..], firstsymbol[..], maxcode[..])
      {
        RangeStep(ls, i);
        nextCode[i] := code;
        firstcode[i] := code % 0x1_0000;
        firstsymbol[i] := k % 0x1_0000;
        code := code + sizes[i];
        if sizes[i] != 0 && code - 1 >= Pow2(i) {
          assert Limit(ls, i) > Pow2(i);
          return false;
        }
        maxcode[i] := code * Pow2(16 - i);
        code := 2 * code;
        k := k + sizes[i];
      }
      maxcode[16] := 0x1_0000;
      ok := true;
    }

    method FillSymbols(ls: seq<nat>, nextCode: array<nat>)
      requires Shape() && LengthsOk(ls) && Accepted(ls) && nextCode.Length == 16
      requires nextCode !in {fast, firstcode, maxcode, firstsymbol, size, value}
      requires RangesFor(ls, 16, firstcode[..], firstsymbol[..], maxcode[..])
      requires forall s :: 1 <= s <= MAX_LENGTH ==> nextCode[s] == FirstCode(ls, s)
      requires forall j :: 0 <= j < FAST_SIZE ==> fast[j] == 0
      modifies fast, size, value, nextCode
      ensures SlotsFor(ls, |ls|, size[..], value[..])
      ensures FastFor(ls, |ls|, fast[..])
    {
      for i := 0 to |ls|
        invariant SlotsFor(ls, i, size[..], value[..])
        invariant FastFor(ls, i, fast[..])
        invariant forall s :: 1 <= s <= MAX_LENGTH ==> nextCode[s] == FirstCode(ls, s) + Count(ls[..i], s)
      {
        AddSymbol(ls, i, nextCode);
      }
    }

    /** One turn of the builder's last loop. */
    method AddSymbol(ls: seq<nat>, i: nat, nextCode: array<nat>)
      requires Shape() && LengthsOk(ls) && Accepted(ls) && nextCode.Length == 16 && i < |ls|
      requires nextCode !in {fast, firstcode, maxcode, firstsymbol, size, value}
      requires RangesFor(ls, 16, firstcode[..], firstsymbol[..], maxcode[..])
      requires forall s :: 1 <= s <= MAX_LENGTH ==> nextCode[s] == FirstCode(ls, s) + Count(ls[..i], s)
      requires SlotsFor(ls, i, size[..], value[..]) && FastFor(ls, i, fast[..])
      modifies fast, size, value, nextCode
      ensures SlotsFor(ls, i + 1, size[..], value[..]) && FastFor(ls, i + 1, fast[..])
      ensures forall s :: 1 <= s <= MAX_LENGTH ==> nextCode[s] == FirstCode(ls, s) + Count(ls[..i + 1], s)
    {
      forall s | 1 <= s <= MAX_LENGTH
        ensures Count(ls[..i + 1], s) == Count(ls[..i], s) + (if ls[i] == s then 1 else 0)
      {
        CountNext(ls, i, s);
      }
      var s := ls[i];
      if s == 0 {
        SkipSymbol(ls, i, size[..], value[..], fast[..]);
        return;
      }
      ghost var size0, value0, fast0 := size[..], value[..], fast[..];
      var c := nextCode[s] - firstcode[s] + firstsymbol[s];
      SlotsNext(ls, i, size0, value0);
      assert c == Slot(ls, i) && nextCode[s] == CodeOf(ls, i);
      size[c] := s;
      value[c] := i;
      assert size[..] == size0[Slot(ls, i) := ls[i]] && value[..] == value0[Slot(ls, i) := i];
      if s <= FAST_BITS { FillFast(ls, i, nextCode[s]); }
      FastNext(ls, i, fast0, fast[..]);
      nextCode[s] := nextCode[s] + 1;
    }

    /** Stores the entry of symbol `i` wherever nine bits start with its code. */
    method FillFast(ls: seq<nat>, i: nat, code: nat)
      requires Shape() && LengthsOk(ls) && Accepted(ls) && i < |ls| && 0 < ls[i] <= FAST_BITS
      requires code == CodeOf(ls, i)
      modifies fast
      ensures forall j: nat :: j < FAST_SIZE ==>
        fast[j] == if ShortMatch(ls, j, i) then Entry(ls[i], i) else old(fast[j])
    {
      ghost var p, r := Pow2(ls[i]), Reverse(code, ls[i]);
      BitReverseIs(code, ls[i]);
      var j := BitReverse(code, ls[i]);
      ModUnique(r, p, 0, r);
      forall x: nat | x < r ensures !ShortMatch(ls, x, i) {
        ShortMatchIs(ls, x, i);
        ModUnique(x, p, 0, x);
      }
      while j < FAST_SIZE
        invariant j % p == r
        invariant forall x: nat :: x < FAST_SIZE ==>
          fast[x] == if x < j && ShortMatch(ls, x, i) then Entry(ls[i], i) else old(fast[x])
      {
        forall x: nat | j <= x < j + p ensures ShortMatch(ls, x, i) <==> x == j {
          ShortMatchIs(ls, x, i);
          if x > j { GapNoMatch(j, x, p); }
        }
        StepSame(j, p);
        fast[j] := Entry(ls[i], i);
        j := j + Pow2(ls[i]);
      }
    }
  }

  lemma SkipSymbol(ls: seq<nat>, n: nat, size: seq<nat>, value: seq<nat>, fast: seq<nat>)
    requires n < |ls| <= |size| == |value| && ls[n] == 0 && |fast| == FAST_SIZE
    requires SlotsFor(ls, n, size, value) && FastFor(ls, n, fast)
    ensures SlotsFor(ls, n + 1, size, value) && FastFor(ls, n + 1, fast)
  {
    forall j: nat | j < FAST_SIZE && fast[j] != 0
      ensures exists i: nat :: i < n + 1 && ShortMatch(ls, j, i) && fast[j] == Entry(ls[i], i)
    {
      var i: nat :| i < n && ShortMatch(ls, j, i) && fast[j] == Entry(ls[i], i);
      assert i < n + 1;
    }
  }
}
