/** `generate(from, to)`: rejection sampling without modulo bias. */
module Sampling {
  import opened Bits

  /** `-range % range` on u64. */
  function Threshold(range: nat): nat
    requires 0 < range < U64_LIMIT
  {
    (U64_LIMIT - range) % range
  }

  /** How many of the `n` draws from `first` on leave remainder `v`. */
  function Draws(first: nat, n: nat, range: nat, v: nat): nat
    requires range > 0
  {
    if n == 0 then 0 else Draws(first, n - 1, range, v) + (if (first + n - 1) % range == v then 1 else 0)
  }

  lemma {:induction false} DrawsSplit(first: nat, n: nat, k: nat, range: nat, v: nat)
    requires range > 0
    ensures Draws(first, n + k, range, v) == Draws(first, n, range, v) + Draws(first + n, k, range, v)
    decreases k
  {
    if k > 0 { DrawsSplit(first, n, k - 1, range, v); }
  }

  /** Less than a whole range of draws, starting at a multiple of the range. */
  lemma {:induction false} FirstDraws(q: nat, n: nat, range: nat, v: nat)
    requires 0 < range && n <= range && v < range
    ensures Draws(q * range, n, range, v) == if v < n then 1 else 0
    decreases n
  {
    if n > 0 {
      FirstDraws(q, n - 1, range, v);
      ModUnique(q * range + (n - 1), range, q, n - 1);
    }
  }

  /** Any `range` consecutive draws leave each remainder exactly once. */
  lemma OneRound(first: nat, range: nat, v: nat)
    requires v < range
    ensures Draws(first, range, range, v) == 1
  {
    hide Draws;
    var q, r := first / range, first % range;
    OneMore(q, range);
    assert first == q * range + r;
    FirstDraws(q, r, range, v);
    FirstDraws(q, range, range, v);
    FirstDraws(q + 1, r, range, v);
    DrawsSplit(q * range, r, range - r, range, v);
    DrawsSplit(first, range - r, r, range, v);
  }

  lemma {:induction false} Rounds(first: nat, k: nat, range: nat, v: nat)
    requires v < range
    ensures Draws(first, k * range, range, v) == k
    decreases k
  {
    if k > 0 {
      hide Draws;
      Rounds(first, k - 1, range, v);
      OneMore(k - 1, range);
      DrawsSplit(first, (k - 1) * range, range, range, v);
      OneRound(first + (k - 1) * range, range, v);
    }
  }

  /** The threshold leaves a whole number of ranges. */
  lemma ThresholdIs(range: nat)
    requires 0 < range < U64_LIMIT
    ensures Threshold(range) == U64_LIMIT % range < range
    ensures U64_LIMIT - Threshold(range) == (U64_LIMIT / range) * range
  {
    var q, r := U64_LIMIT / range, U64_LIMIT % range;
    assert U64_LIMIT == q * range + r && (q - 1) * range == q * range - range;
    ModUnique(U64_LIMIT - range, range, q - 1, r);
  }

  /** Of the accepted 64-bit draws, exactly `2^64 / range`, rounded down, give each value. */
  lemma NoModuloBias(from: nat, to: nat, value: nat)
    requires from < to < U64_LIMIT && from <= value < to
    ensures var range := to - from;
      Draws(Threshold(range), U64_LIMIT - Threshold(range), range, value - from) == U64_LIMIT / range
  {
    ThresholdIs(to - from);
    Rounds(Threshold(to - from), U64_LIMIT / (to - from), to - from, value - from);
  }

  /** `generate(from, to)` on a stream of draws that is accepted at the latest at `last`. */
  method Generate(from: nat, to: nat, draws: nat -> nat, ghost last: nat) returns (value: nat, k: nat)
    requires from < to < U64_LIMIT && draws(last) >= Threshold(to - from)
    ensures k <= last && draws(k) >= Threshold(to - from) && forall j :: 0 <= j < k ==> draws(j) < Threshold(to - from)
    ensures from <= value < to && value - from == draws(k) % (to - from)
  {
    var range := to - from;
    var threshold := (U64_LIMIT - range) % range;
    k := 0;
    while draws(k) < threshold
      invariant k <= last && forall j :: 0 <= j < k ==> draws(j) < threshold
      decreases last - k
    {
      k := k + 1;
    }
    value := from + draws(k) % range;
  }
}
