/** `stbi__compute_huffman_codes`: the code lengths of a dynamic block, themselves coded with a prefix code and run
    lengths as section 3.2.7 of RFC 1951 has it. */
module InflateHeader {
  import opened Bits
  import opened BitStream
  import opened Gauges
  import opened Huffman
  import opened HuffmanTable

  /** `length_dezigzag`. */
  const ORDER: seq<nat> := [16, 17, 18, 0, 8, 7, 9, 6, 10, 5, 11, 4, 12, 3, 13, 2, 14, 1, 15]
  const CODE_LENGTHS: nat := 19
  /** The size of `lencodes`. */
  const ROOM: nat := 286 + 32 + 137

  // ---------------------------------------------------------------- what the stream says

  /** `n` numbers of three bits. */
  function Triples(v: nat, n: nat): (s: seq<nat>)
    ensures |s| == n
    decreases n
  {
    if n == 0 then [] else Triples(v, n - 1) + [Low(Shr(v, 3 * (n - 1)), 3)]
  }

  /** The symbol whose length is sent in place `i`. */
  function InOrder(i: nat): (r: nat)
    requires i < CODE_LENGTHS
    ensures r < CODE_LENGTHS
  {
    ORDER[i]
  }

  /** The lengths of the code length code, sent in the order of `ORDER`. */
  function Placed(s: seq<nat>): (r: seq<nat>)
    requires |s| <= CODE_LENGTHS
    ensures |r| == CODE_LENGTHS
    decreases |s|
  {
    if s == [] then seq(CODE_LENGTHS, _ => 0)
    else
      Placed(s[..|s| - 1])[InOrder(|s| - 1) := s[|s| - 1]]
  }

  /** A length, or an instruction to repeat one, with the bits that follow its symbol. */
  datatype Run = Run(symbol: nat, bits: nat)

  function RunBits(symbol: nat): nat {
    if symbol == 16 then 2 else if symbol == 17 then 3 else if symbol == 18 then 7 else 0
  }

  ghost predicate Starts(cl: seq<nat>, v: nat, r: Run) {
    r.symbol < CODE_LENGTHS && Matches(cl, v, r.symbol) && r.bits == Low(Shr(v, cl[r.symbol]), RunBits(r.symbol))
  }

  ghost function After(cl: seq<nat>, v: nat, r: Run): nat
    requires Starts(cl, v, r)
  {
    Shr(Shr(v, cl[r.symbol]), RunBits(r.symbol))
  }

  /** How many bits a run takes. */
  function RunWidth(cl: seq<nat>, r: Run): nat { WidthOf(cl, r.symbol) + RunBits(r.symbol) }

  function RunsWidth(cl: seq<nat>, rs: seq<Run>): nat {
    if rs == [] then 0 else RunWidth(cl, rs[0]) + RunsWidth(cl, rs[1..])
  }

  lemma {:induction false} RunsWidthPrefix(cl: seq<nat>, rs: seq<Run>, n: nat)
    requires n <= |rs|
    ensures RunsWidth(cl, rs[..n]) <= RunsWidth(cl, rs)
    decreases n
  {
    if n > 0 {
      assert rs[..n][1..] == rs[1..][..n - 1];
      RunsWidthPrefix(cl, rs[1..], n - 1);
    }
  }

  ghost predicate Reads(cl: seq<nat>, v: nat, rs: seq<Run>)
    decreases |rs|
  {
    rs == [] || (Starts(cl, v, rs[0]) && Reads(cl, After(cl, v, rs[0]), rs[1..]))
  }

  ghost function AfterAll(cl: seq<nat>, v: nat, rs: seq<Run>): nat
    requires Reads(cl, v, rs)
    decreases |rs|
  {
    if rs == [] then v else AfterAll(cl, After(cl, v, rs[0]), rs[1..])
  }

  /** How many lengths a run stands for. */
  function Width(r: Run): nat {
    if r.symbol < 16 then 1 else if r.symbol == 18 then r.bits + 11 else r.bits + 3
  }

  /** The length that a run repeats: its own, or the one before it, or 0. */
  function Filling(s: seq<nat>, r: Run): nat
    requires r.symbol == 16 ==> s != []
  {
    if r.symbol < 16 then r.symbol else if r.symbol == 16 then s[|s| - 1] else 0
  }

  function Repeat(x: nat, n: nat): (s: seq<nat>)
    ensures |s| == n && forall i :: 0 <= i < n ==> s[i] == x
  {
    seq(n, _ => x)
  }

  function Append(s: seq<nat>, r: Run): seq<nat>
    requires r.symbol == 16 ==> s != []
  {
    s + Repeat(Filling(s, r), Width(r))
  }

  /** The order of section 3.2.7: the three instructions to repeat, no length at all, and then the lengths outwards
      from 8, each side in turn. Every symbol has one place. */
  lemma OrderIs(i: nat)
    requires i < CODE_LENGTHS
    ensures InOrder(i) ==
      if i < 3 then 16 + i
      else if i == 3 then 0
      else if i % 2 == 0 then 8 + (i - 4) / 2
      else 8 - (i - 3) / 2
    ensures forall k :: 0 <= k < CODE_LENGTHS && InOrder(k) == InOrder(i) ==> k == i
  {}

  /** What the runs stand for: symbols below 16 for their own number, 16 for three to six copies of the length before
      it, 17 for three to ten zeros, and 18 for the counts of zeros from there to 138. */
  lemma RunMeans(s: seq<nat>, r: Run)
    requires r.symbol < CODE_LENGTHS && r.bits < Pow2(RunBits(r.symbol)) && (r.symbol == 16 ==> s != [])
    ensures Pow2(RunBits(16)) + 3 == 7 && Pow2(RunBits(17)) + 3 == 11 && Pow2(RunBits(18)) + 11 == 139
    ensures Append(s, r)[..|s|] == s && |Append(s, r)| > |s|
    ensures var added := |Append(s, r)| - |s|;
      if r.symbol < 16 then Append(s, r) == s + [r.symbol]
      else
        && added == r.bits + (if r.symbol == 18 then 11 else 3)
        && (r.symbol == 16 ==> added <= 6) && (r.symbol == 17 ==> added <= 10) && (r.symbol == 18 ==> added <= 138)
        && forall k :: |s| <= k < |Append(s, r)| ==>
             Append(s, r)[k] == if r.symbol == 16 then s[|s| - 1] else 0
  {
    assert Pow2(2) == 4 && Pow2(3) == 8 && Pow2(7) == 128 && Pow2(0) == 1;
  }

  ghost predicate Expandable(s: seq<nat>, rs: seq<Run>)
    decreases |rs|
  {
    rs == [] || ((rs[0].symbol == 16 ==> s != []) && Expandable(Append(s, rs[0]), rs[1..]))
  }

  /** The code lengths that the runs stand for, after `s`. */
  ghost function Expansion(s: seq<nat>, rs: seq<Run>): seq<nat>
    requires Expandable(s, rs)
    decreases |rs|
  {
    if rs == [] then s else Expansion(Append(s, rs[0]), rs[1..])
  }

  lemma {:induction false} OneMore(cl: seq<nat>, v: nat, rs: seq<Run>, r: Run, s: seq<nat>)
    requires Reads(cl, v, rs) && Starts(cl, AfterAll(cl, v, rs), r)
    requires Expandable(s, rs) && (r.symbol == 16 ==> Expansion(s, rs) != [])
    ensures Reads(cl, v, rs + [r]) && AfterAll(cl, v, rs + [r]) == After(cl, AfterAll(cl, v, rs), r)
    ensures Expandable(s, rs + [r]) && Expansion(s, rs + [r]) == Append(Expansion(s, rs), r)
    ensures RunsWidth(cl, rs + [r]) == RunsWidth(cl, rs) + RunWidth(cl, r)
    decreases |rs|
  {
    if rs == [] {
      assert rs + [r] == [r] && [r][1..] == [];
    } else {
      assert (rs + [r])[1..] == rs[1..] + [r];
      OneMore(cl, After(cl, v, rs[0]), rs[1..], r, Append(s, rs[0]));
    }
  }

  lemma {:induction false} ExpansionGrows(s: seq<nat>, rs: seq<Run>)
    requires Expandable(s, rs)
    ensures |Expansion(s, rs)| >= |s| + |rs|
    decreases |rs|
  {
    if rs != [] { ExpansionGrows(Append(s, rs[0]), rs[1..]); }
  }

  /** Only one list of runs that stands for a given number of lengths can be read from a stream. */
  lemma {:induction false} OneHeader(cl: seq<nat>, v: nat, rs: seq<Run>, qs: seq<Run>, s: seq<nat>)
    requires Reads(cl, v, rs) && Reads(cl, v, qs) && Expandable(s, rs) && Expandable(s, qs)
    requires |Expansion(s, rs)| == |Expansion(s, qs)|
    ensures rs == qs
    decreases |rs|
  {
    ExpansionGrows(s, rs);
    ExpansionGrows(s, qs);
    if rs != [] && qs != [] {
      OneMatch(cl, v, rs[0].symbol, qs[0].symbol);
      OneHeader(cl, After(cl, v, rs[0]), rs[1..], qs[1..], Append(s, rs[0]));
    }
  }

  /** What has been read so far is the beginning of any list of runs that goes on longer. */
  lemma {:induction false} RunsPrefix(cl: seq<nat>, v: nat, rs: seq<Run>, qs: seq<Run>, s: seq<nat>)
    requires Reads(cl, v, rs) && Reads(cl, v, qs) && Expandable(s, rs) && Expandable(s, qs)
    requires |Expansion(s, rs)| < |Expansion(s, qs)|
    ensures |rs| < |qs| && rs == qs[..|rs|]
    ensures var at, q := AfterAll(cl, v, rs), qs[|rs|];
      && Starts(cl, at, q) && (q.symbol == 16 ==> Expansion(s, rs) != [])
      && |Expansion(s, rs)| + Width(q) <= |Expansion(s, qs)|
    decreases |rs|
  {
    ExpansionGrows(s, rs);
    if rs == [] {
      ExpansionGrows(Append(s, qs[0]), qs[1..]);
    } else if qs != [] {
      OneMatch(cl, v, rs[0].symbol, qs[0].symbol);
      RunsPrefix(cl, After(cl, v, rs[0]), rs[1..], qs[1..], Append(s, rs[0]));
      assert rs == [rs[0]] + rs[1..] && qs == [qs[0]] + qs[1..];
    }
  }

  /** The three counts at the start of the header. */
  datatype Counts = Counts(literals: nat, distances: nat, lengths: nat) {
    function Total(): nat { literals + distances }
  }

  function CountsOf(v: nat): Counts {
    Counts(Low(v, 5) + 257, Low(Shr(v, 5), 5) + 1, Low(Shr(v, 10), 4) + 4)
  }

  /** The code length code that the header announces. */
  function LengthCode(v: nat): seq<nat>
    requires CountsOf(v).lengths <= CODE_LENGTHS
  {
    Placed(Triples(Shr(v, 14), CountsOf(v).lengths))
  }

  function RunsAt(v: nat): nat { Shr(v, 14 + 3 * CountsOf(v).lengths) }

  /** `v` starts with the header of a dynamic block with these runs and these lengths. */
  ghost predicate HeaderIs(v: nat, rs: seq<Run>, all: seq<nat>) {
    && CountsOf(v).lengths <= CODE_LENGTHS && Accepted(LengthCode(v))
    && Reads(LengthCode(v), RunsAt(v), rs) && Expandable([], rs)
    && Expansion([], rs) == all && |all| == CountsOf(v).Total()
  }

  lemma CountsBound(v: nat)
    ensures 257 <= CountsOf(v).literals <= 288 && 1 <= CountsOf(v).distances <= 32
    ensures 4 <= CountsOf(v).lengths <= CODE_LENGTHS
  {
    LowBound(v, 5);
    LowBound(Shr(v, 5), 5);
    LowBound(Shr(v, 10), 4);
    assert Pow2(5) == 32 && Pow2(4) == 16;
  }

  lemma RunBound(v: nat)
    ensures Low(v, 2) < 4 && Low(v, 3) < 8 && Low(v, 7) < 128
  {
    LowBound(v, 2);
    LowBound(v, 3);
    LowBound(v, 7);
    assert Pow2(2) == 4 && Pow2(3) == 8 && Pow2(7) == 128;
  }

  // ---------------------------------------------------------------- encoding it

  ghost predicate Encodable(cl: seq<nat>, r: Run) {
    r.symbol < |cl| == CODE_LENGTHS && cl[r.symbol] > 0 && r.bits < Pow2(RunBits(r.symbol))
  }

  ghost predicate AllEncodable(cl: seq<nat>, rs: seq<Run>) {
    forall k :: 0 <= k < |rs| ==> Encodable(cl, rs[k])
  }

  ghost function EncodeRuns(cl: seq<nat>, rs: seq<Run>, rest: nat): nat
    requires AllEncodable(cl, rs)
    decreases |rs|
  {
    if rs == [] then rest
    else EncodeSymbol(cl, rs[0].symbol, Prepend(rs[0].bits, RunBits(rs[0].symbol), EncodeRuns(cl, rs[1..], rest)))
  }

  function EncodeTriples(s: seq<nat>, rest: nat): nat {
    if s == [] then rest else Prepend(s[0], 3, EncodeTriples(s[1..], rest))
  }

  /** The header with these counts, these lengths of the code length code, in the order of `ORDER`, and these runs. */
  ghost function EncodeHeader(c: Counts, s: seq<nat>, rs: seq<Run>, rest: nat): nat
    requires c.literals >= 257 && c.distances >= 1 && c.lengths >= 4 && |s| <= CODE_LENGTHS
    requires AllEncodable(Placed(s), rs)
  {
    var triples := EncodeTriples(s, EncodeRuns(Placed(s), rs, rest));
    Prepend(c.literals - 257, 5, Prepend(c.distances - 1, 5, Prepend(c.lengths - 4, 4, triples)))
  }

  lemma {:induction false} TakeRuns(cl: seq<nat>, rs: seq<Run>, rest: nat)
    requires LengthsOk(cl) && Accepted(cl) && AllEncodable(cl, rs)
    ensures Reads(cl, EncodeRuns(cl, rs, rest), rs) && AfterAll(cl, EncodeRuns(cl, rs, rest), rs) == rest
    decreases |rs|
  {
    if rs != [] {
      var r, tail := rs[0], EncodeRuns(cl, rs[1..], rest);
      TakeRuns(cl, rs[1..], rest);
      TakeSymbol(cl, r.symbol, Prepend(r.bits, RunBits(r.symbol), tail));
      TakePrepended(r.bits, RunBits(r.symbol), tail);
    }
  }

  lemma {:induction false} FirstTriple(v: nat, n: nat)
    requires n > 0
    ensures Triples(v, n) == [Low(v, 3)] + Triples(Shr(v, 3), n - 1)
    decreases n
  {
    hide Low;
    hide Shr;
    NoBits(v);
    if n > 1 {
      FirstTriple(v, n - 1);
      ShrAdd(v, 3, 3 * (n - 2));
    }
  }

  lemma {:induction false} TakeTriples(s: seq<nat>, rest: nat)
    requires forall i :: 0 <= i < |s| ==> s[i] < 8
    ensures Triples(EncodeTriples(s, rest), |s|) == s && Shr(EncodeTriples(s, rest), 3 * |s|) == rest
    decreases |s|
  {
    hide Low;
    hide Shr;
    hide Prepend;
    if s == [] {
      NoBits(rest);
    } else {
      var v := EncodeTriples(s, rest);
      assert Pow2(3) == 8;
      TakePrepended(s[0], 3, EncodeTriples(s[1..], rest));
      FirstTriple(v, |s|);
      ShrAdd(v, 3, 3 * (|s| - 1));
      TakeTriples(s[1..], rest);
    }
  }

  lemma TakeCounts(c: Counts, tail: nat)
    requires 257 <= c.literals <= 288 && 1 <= c.distances <= 32 && 4 <= c.lengths <= CODE_LENGTHS
    ensures var v := Prepend(c.literals - 257, 5, Prepend(c.distances - 1, 5, Prepend(c.lengths - 4, 4, tail)));
      CountsOf(v) == c && Shr(v, 14) == tail
  {
    hide Low;
    hide Shr;
    hide Prepend;
    assert Pow2(5) == 32 && Pow2(4) == 16;
    var v2 := Prepend(c.lengths - 4, 4, tail);
    var v1 := Prepend(c.distances - 1, 5, v2);
    var v := Prepend(c.literals - 257, 5, v1);
    TakePrepended(c.literals - 257, 5, v1);
    TakePrepended(c.distances - 1, 5, v2);
    TakePrepended(c.lengths - 4, 4, tail);
    ShrAdd(v, 5, 5);
    ShrAdd(v, 10, 4);
  }

  lemma EncodedParts(c: Counts, s: seq<nat>, rs: seq<Run>, rest: nat)
    requires 257 <= c.literals <= 288 && 1 <= c.distances <= 32 && 4 <= c.lengths == |s| <= CODE_LENGTHS
    requires (forall i :: 0 <= i < |s| ==> s[i] < 8) && AllEncodable(Placed(s), rs)
    ensures var v := EncodeHeader(c, s, rs, rest);
      CountsOf(v) == c && LengthCode(v) == Placed(s) && RunsAt(v) == EncodeRuns(Placed(s), rs, rest)
  {
    hide Low;
    hide Shr;
    hide Placed;
    hide AllEncodable;
    hide EncodeRuns;
    hide EncodeTriples;
    hide Triples;
    hide CountsOf;
    var runs := EncodeRuns(Placed(s), rs, rest);
    TakeCounts(c, EncodeTriples(s, runs));
    TakeTriples(s, runs);
    ShrAdd(EncodeHeader(c, s, rs, rest), 14, 3 * c.lengths);
  }

  /** Reading undoes encoding: the header found at the front of an encoded one is that one, and what follows is left. */
  lemma HeaderRoundTrip(c: Counts, s: seq<nat>, rs: seq<Run>, rest: nat)
    requires 257 <= c.literals <= 288 && 1 <= c.distances <= 32 && 4 <= c.lengths == |s| <= CODE_LENGTHS
    requires (forall i :: 0 <= i < |s| ==> s[i] < 8) && Accepted(Placed(s))
    requires AllEncodable(Placed(s), rs) && Expandable([], rs) && |Expansion([], rs)| == c.Total()
    ensures var v := EncodeHeader(c, s, rs, rest);
      && HeaderIs(v, rs, Expansion([], rs)) && CountsOf(v) == c && LengthCode(v) == Placed(s)
      && AfterAll(Placed(s), RunsAt(v), rs) == rest
  {
    hide Placed;
    hide AllEncodable;
    hide EncodeHeader;
    hide EncodeRuns;
    hide LengthCode;
    hide RunsAt;
    hide CountsOf;
    PlacedOk(s);
    EncodedParts(c, s, rs, rest);
    TakeRuns(Placed(s), rs, rest);
  }

  // ---------------------------------------------------------------- reading it

  method ReadCounts(bits: BitReader) returns (c: Counts)
    requires bits.Valid()
    modifies bits
    ensures bits.Valid() && c == CountsOf(old(bits.Stream())) && bits.Stream() == Shr(old(bits.Stream()), 14)
    ensures bits.consumed == old(bits.consumed) + 14
  {
    hide StreamOf;
    ghost var v := bits.Stream();
    var hlit := bits.Receive(5);
    var hdist := bits.Receive(5);
    ShrAdd(v, 5, 5);
    var hclen := bits.Receive(4);
    ShrAdd(v, 10, 4);
    c := Counts(hlit + 257, hdist + 1, hclen + 4);
  }

  lemma PlacedNone(v: nat)
    ensures Placed(Triples(v, 0)) == seq(CODE_LENGTHS, _ => 0)
  {}

  lemma PlacedNext(v: nat, i: nat)
    requires i < CODE_LENGTHS
    ensures Placed(Triples(v, i + 1)) == Placed(Triples(v, i))[InOrder(i) := Low(Shr(v, 3 * i), 3)]
  {
    hide InOrder;
    hide Low;
    hide Shr;
    assert Triples(v, i + 1)[..i] == Triples(v, i);
  }

  /** The lengths of the code length code. */
  method ReadLengthCode(bits: BitReader, n: nat) returns (sizes: seq<nat>)
    requires bits.Valid() && n <= CODE_LENGTHS
    modifies bits
    ensures bits.Valid() && sizes == Placed(Triples(old(bits.Stream()), n)) && LengthsOk(sizes)
    ensures bits.Stream() == Shr(old(bits.Stream()), 3 * n) && bits.consumed == old(bits.consumed) + 3 * n
  {
    hide StreamOf;
    hide Low;
    hide Shr;
    hide Placed;
    hide Triples;
    hide InOrder;
    ghost var v := bits.Stream();
    NoBits(v);
    PlacedNone(v);
    var table := new nat[CODE_LENGTHS](_ => 0);
    for i := 0 to n
      invariant bits.Valid() && bits.Stream() == Shr(v, 3 * i) && bits.consumed == old(bits.consumed) + 3 * i
      invariant table[..] == Placed(Triples(v, i))
      invariant forall k :: 0 <= k < CODE_LENGTHS ==> table[k] < 8
    {
      ghost var before := table[..];
      RunBound(bits.Stream());
      ShrAdd(v, 3 * i, 3);
      PlacedNext(v, i);
      var s := bits.Receive(3);
      table[InOrder(i)] := s;
      assert table[..] == before[InOrder(i) := s];
    }
    sizes := table[..];
  }

  /** Why reading the lengths fails. */
  datatype Failure = Unreadable | Exhausted | NoPrevious | TooLong | OverSubscribed

  /** The runs `rs` lead from `v0`, before which `n0` bits had been taken, to `v`, and stand for the lengths `s`. */
  ghost predicate Progress(cl: seq<nat>, v0: nat, n0: nat, rs: seq<Run>, v: nat, n: nat, s: seq<nat>) {
    && Reads(cl, v0, rs) && Expandable([], rs) && v == AfterAll(cl, v0, rs)
    && n == n0 + RunsWidth(cl, rs) && s == Expansion([], rs)
  }

  lemma NoProgress(cl: seq<nat>, v: nat, n: nat)
    ensures Progress(cl, v, n, [], v, n, [])
  {}

  lemma ProgressOneMore(cl: seq<nat>, v0: nat, n0: nat, rs: seq<Run>, v: nat, n: nat, s: seq<nat>, r: Run, v': nat,
                        n': nat)
    requires Progress(cl, v0, n0, rs, v, n, s) && Starts(cl, v, r) && (r.symbol == 16 ==> s != [])
    requires v' == After(cl, v, r) && n' == n + RunWidth(cl, r)
    ensures Progress(cl, v0, n0, rs + [r], v', n', Append(s, r))
  {
    hide Starts;
    hide After;
    OneMore(cl, v0, rs, r, []);
  }

  /** The loop that fills `lencodes`. */
  method ReadLengths(bits: BitReader, table: Table, ghost cl: seq<nat>, total: nat)
    returns (ok: bool, all: seq<nat>, ghost rs: seq<Run>, ghost v: nat, ghost n1: nat, ghost s: seq<nat>,
             ghost why: Failure)
    requires bits.Valid() && table.BuiltFor(cl) && |cl| == CODE_LENGTHS && total <= 320
    modifies bits
    ensures bits.Valid() && Progress(cl, old(bits.Stream()), old(bits.consumed), rs, v, n1, s)
    ensures ok ==> s == all && |all| == total && (forall i :: 0 <= i < total ==> all[i] <= MAX_LENGTH)
    ensures ok ==> bits.Stream() == v && bits.consumed == n1
    ensures !ok ==> why != OverSubscribed && |s| < total && Stuck(bits, cl, v, n1, s, total, why)
  {
    hide StreamOf;
    hide Starts;
    hide After;
    hide Low;
    hide Stuck;
    hide RunWidth;
    hide Progress;
    hide Table.BuiltFor;
    var lencodes := new nat[ROOM](_ => 0);
    var n := 0;
    rs, why, v, n1, s := [], Unreadable, bits.Stream(), bits.consumed, [];
    NoProgress(cl, v, n1);
    while n < total
      invariant bits.Valid() && table.BuiltFor(cl) && n <= total
      invariant Progress(cl, old(bits.Stream()), old(bits.consumed), rs, v, n1, s)
      invariant v == bits.Stream() && n1 == bits.consumed
      invariant lencodes[..n] == s && forall i :: 0 <= i < n ==> lencodes[i] <= MAX_LENGTH
      decreases total - n
    {
      ghost var r := Run(0, 0);
      var fill, c;
      ok, fill, c, r, why := ReadRun(bits, table, cl, n, if n > 0 then lencodes[n - 1] else 0, s);
      if !ok {
        StuckAnyway(bits, cl, v, n1, s, 0, total, why);
        return false, [], rs, v, n1, s, why;
      }
      if total - n < c {
        RunTooLong(bits, cl, v, n1, s, total, r);
        return false, [], rs, v, n1, s, TooLong();
      }
      ProgressOneMore(cl, old(bits.Stream()), old(bits.consumed), rs, v, n1, s, r, bits.Stream(), bits.consumed);
      rs, v, n1, s := rs + [r], bits.Stream(), bits.consumed, Append(s, r);
      Fill(lencodes, n, fill, c);
      n := n + c;
    }
    ok, all := true, lencodes[..n];
  }

  /** Reading cannot go on at `v`, where `n` bits had been taken, with the lengths `s` so far. */
  ghost predicate Stuck(bits: BitReader, cl: seq<nat>, v: nat, n: nat, s: seq<nat>, total: nat, why: Failure)
    reads bits
  {
    match why
    case Unreadable => PlainDecode(cl, v) == NoCode && bits.consumed == n
    case Exhausted => bits.Exhausted() && bits.consumed == n
    case NoPrevious => s == [] && Matches(cl, v, 16) && bits.consumed == n + WidthOf(cl, 16) + RunBits(16)
    case TooLong =>
      exists r: Run :: Starts(cl, v, r) && |s| + Width(r) > total && bits.consumed == n + RunWidth(cl, r)
    case OverSubscribed => false
  }

  lemma RunTooLong(bits: BitReader, cl: seq<nat>, v: nat, n: nat, s: seq<nat>, total: nat, r: Run)
    requires Starts(cl, v, r) && |s| + Width(r) > total && bits.consumed == n + RunWidth(cl, r)
    ensures Stuck(bits, cl, v, n, s, total, TooLong)
  {}

  lemma StuckAnyway(bits: BitReader, cl: seq<nat>, v: nat, n: nat, s: seq<nat>, total: nat, total': nat, why: Failure)
    requires Stuck(bits, cl, v, n, s, total, why) && why != TooLong
    ensures Stuck(bits, cl, v, n, s, total', why)
  {}

  method ReadRun(bits: BitReader, table: Table, ghost cl: seq<nat>, n: nat, last: nat, ghost s: seq<nat>)
    returns (ok: bool, fill: nat, c: nat, ghost r: Run, ghost why: Failure)
    requires bits.Valid() && table.BuiltFor(cl) && |cl| == CODE_LENGTHS
    requires |s| == n && (n > 0 ==> last == s[n - 1]) && last <= MAX_LENGTH
    modifies bits
    ensures bits.Valid() && table.BuiltFor(cl)
    ensures ok ==> Starts(cl, old(bits.Stream()), r) && bits.Stream() == After(cl, old(bits.Stream()), r)
    ensures ok ==> (r.symbol == 16 ==> s != []) && c == Width(r) > 0 && fill == Filling(s, r) <= MAX_LENGTH && c <= 138
    ensures ok ==> bits.consumed == old(bits.consumed) + RunWidth(cl, r)
    ensures !ok ==>
      why != TooLong && why != OverSubscribed && Stuck(bits, cl, old(bits.Stream()), old(bits.consumed), s, 0, why)
  {
    hide StreamOf;
    hide Shr;
    hide PlainDecode;
    hide Table.BuiltFor;
    ghost var v := bits.Stream();
    r, fill, c, why := Run(0, 0), 0, 1, Unreadable;
    var symbol := bits.Decode(table, cl);
    if symbol < 0 || symbol >= CODE_LENGTHS {
      why := if bits.Exhausted() then Exhausted else Unreadable;
      return false, 0, 0, r, why;
    }
    ghost var v1 := bits.Stream();
    r := Run(symbol, Low(v1, RunBits(symbol)));
    RunBound(v1);
    if symbol < 16 {
      fill := symbol;
      NoBits(v1);
    } else if symbol == 16 {
      var k := bits.Receive(2);
      if n == 0 { return false, 0, 0, r, NoPrevious; }
      c, fill := k + 3, last;
    } else if symbol == 17 {
      var k := bits.Receive(3);
      c := k + 3;
    } else {
      var k := bits.Receive(7);
      c := k + 11;
    }
    ok := true;
  }

  /** The tables share no memory. */
  ghost predicate Separate(a: Table, b: Table) {
    {a.fast, a.firstcode, a.maxcode, a.firstsymbol, a.size, a.value}
      !! {b.fast, b.firstcode, b.maxcode, b.firstsymbol, b.size, b.value}
  }

  ghost predicate UnusableLengths(v: nat, rs: seq<Run>, all: seq<nat>) {
    HeaderIs(v, rs, all) && (!Accepted(all[..CountsOf(v).literals]) || !Accepted(all[CountsOf(v).literals..]))
  }

  /** Why the header at `v`, before which `n` bits had been taken, is refused, when the runs `rs` have been read. */
  ghost predicate Refused(bits: BitReader, v: nat, n: nat, rs: seq<Run>, why: Failure)
    reads bits
  {
    CountsOf(v).lengths <= CODE_LENGTHS &&
    if why == OverSubscribed then
      || !Accepted(LengthCode(v))
      || exists all: seq<nat> :: UnusableLengths(v, rs, all)
    else
      && Accepted(LengthCode(v)) && Reads(LengthCode(v), RunsAt(v), rs) && Expandable([], rs)
      && |Expansion([], rs)| < CountsOf(v).Total()
      && var at, taken := AfterAll(LengthCode(v), RunsAt(v), rs), RunsFrom(v, n) + RunsWidth(LengthCode(v), rs);
      Stuck(bits, LengthCode(v), at, taken, Expansion([], rs), CountsOf(v).Total(), why)
  }

  /** How many bits have been taken where the runs start. */
  function RunsFrom(v: nat, n: nat): nat { n + 14 + 3 * CountsOf(v).lengths }

  /** The header of a dynamic block, with usable codes, lies wholly within `size` bits of data. */
  ghost predicate WholeHeader(v: nat, n: nat, qs: seq<Run>, ls: seq<nat>, size: nat) {
    && HeaderIs(v, qs, ls) && !UnusableLengths(v, qs, ls)
    && RunsFrom(v, n) + RunsWidth(LengthCode(v), qs) <= size
  }

  /** A whole header is not refused. */
  lemma WholeIsRead(bits: BitReader, v: nat, n: nat, rs: seq<Run>, why: Failure, qs: seq<Run>, ls: seq<nat>)
    requires bits.Valid() && LengthsOk(LengthCode(v)) && WholeHeader(v, n, qs, ls, 8 * |bits.data|)
    ensures !Refused(bits, v, n, rs, why)
  {
    hide PlainDecode;
    hide LengthCode;
    hide CountsOf;
    hide Accepted;
    var cl, at := LengthCode(v), RunsAt(v);
    if Refused(bits, v, n, rs, why) {
      if why == OverSubscribed {
        var all :| UnusableLengths(v, rs, all);
        OneHeader(cl, at, rs, qs, []);
      } else {
        RunsPrefix(cl, at, rs, qs, []);
        RunsWidthPrefix(cl, qs, |rs|);
        EndCheckIs(bits.Gauge(), bits.consumed, 8 * |bits.data|);
        var taken := RunsFrom(v, n) + RunsWidth(cl, rs);
        NextRun(bits, cl, AfterAll(cl, at, rs), taken, Expansion([], rs), |ls|, why, qs[|rs|]);
      }
    }
  }

  /** Nothing is in the way of a run that is there. */
  lemma NextRun(bits: BitReader, cl: seq<nat>, v: nat, n: nat, s: seq<nat>, total: nat, why: Failure, q: Run)
    requires LengthsOk(cl) && Starts(cl, v, q) && (q.symbol == 16 ==> s != []) && |s| + Width(q) <= total
    requires Stuck(bits, cl, v, n, s, total, why)
    ensures why == Exhausted
  {
    hide PlainDecode;
    OneDecoded(cl, v, q.symbol);
    match why
    case NoPrevious => OneMatch(cl, v, q.symbol, 16);
    case TooLong =>
      var r: Run :| Starts(cl, v, r) && |s| + Width(r) > total;
      OneMatch(cl, v, q.symbol, r.symbol);
    case _ =>
  }

  lemma HeaderRead(v: nat, n: nat, rs: seq<Run>, at: nat, n1: nat, s: seq<nat>)
    requires CountsOf(v).lengths <= CODE_LENGTHS && Accepted(LengthCode(v)) && |s| == CountsOf(v).Total()
    requires Progress(LengthCode(v), RunsAt(v), RunsFrom(v, n), rs, at, n1, s)
    ensures HeaderIs(v, rs, s) && at == AfterAll(LengthCode(v), RunsAt(v), rs)
    ensures n1 == RunsFrom(v, n) + RunsWidth(LengthCode(v), rs)
  {}

  lemma HeaderStuck(bits: BitReader, v: nat, n: nat, rs: seq<Run>, at: nat, n1: nat, s: seq<nat>, why: Failure)
    requires CountsOf(v).lengths <= CODE_LENGTHS && Accepted(LengthCode(v)) && |s| < CountsOf(v).Total()
    requires Progress(LengthCode(v), RunsAt(v), RunsFrom(v, n), rs, at, n1, s)
    requires why != OverSubscribed && Stuck(bits, LengthCode(v), at, n1, s, CountsOf(v).Total(), why)
    ensures Refused(bits, v, n, rs, why)
  {}

  /** The body of `stbi__compute_huffman_codes`. */
  method ReadCodes(bits: BitReader, lengths: Table, distances: Table)
    returns (ok: bool, ghost rs: seq<Run>, ghost all: seq<nat>, ghost why: Failure)
    requires bits.Valid() && lengths.Shape() && distances.Shape() && Separate(lengths, distances)
    modifies bits, lengths.fast, lengths.firstcode, lengths.maxcode, lengths.firstsymbol, lengths.size, lengths.value
    modifies distances.fast, distances.firstcode, distances.maxcode, distances.firstsymbol, distances.size,
      distances.value
    ensures bits.Valid()
    ensures ok ==>
      && HeaderIs(old(bits.Stream()), rs, all)
      && lengths.BuiltFor(all[..CountsOf(old(bits.Stream())).literals])
      && distances.BuiltFor(all[CountsOf(old(bits.Stream())).literals..])
      && bits.Stream() == AfterAll(LengthCode(old(bits.Stream())), RunsAt(old(bits.Stream())), rs)
      && bits.consumed ==
         RunsFrom(old(bits.Stream()), old(bits.consumed)) + RunsWidth(LengthCode(old(bits.Stream())), rs)
    ensures !ok ==> Refused(bits, old(bits.Stream()), old(bits.consumed), rs, why)
  {
    hide StreamOf;
    hide Low;
    hide Shr;
    hide Accepted;
    hide Progress;
    hide HeaderIs;
    hide LengthCode;
    hide CountsOf;
    hide Stuck;
    hide RunsWidth;
    ghost var v := bits.Stream();
    CountsBound(v);
    rs, all, why := [], [], OverSubscribed;
    var c := ReadCounts(bits);
    var sizes := ReadLengthCode(bits, c.lengths);
    ghost var cl := HeaderParts(v);
    var table := new Table();
    ok := table.Build(sizes);
    if !ok { return; }
    var read;
    ghost var at, n, s;
    ok, read, rs, at, n, s, why := ReadLengths(bits, table, sizes, c.Total());
    if !ok {
      HeaderStuck(bits, v, old(bits.consumed), rs, at, n, s, why);
      return;
    }
    HeaderRead(v, old(bits.consumed), rs, at, n, s);
    all, why := read, OverSubscribed;
    ok := BuildBoth(lengths, distances, read, c.literals);
    assert !ok ==> UnusableLengths(v, rs, all);
  }

  /** `stbi__compute_huffman_codes`: leaves tables for exactly the code lengths that the header describes. It does not
      refuse a header with usable codes that lies wholly within the data. */
  method ComputeCodes(bits: BitReader, lengths: Table, distances: Table)
    returns (ok: bool, ghost rs: seq<Run>, ghost all: seq<nat>, ghost why: Failure)
    requires bits.Valid() && lengths.Shape() && distances.Shape() && Separate(lengths, distances)
    modifies bits, lengths.fast, lengths.firstcode, lengths.maxcode, lengths.firstsymbol, lengths.size, lengths.value
    modifies distances.fast, distances.firstcode, distances.maxcode, distances.firstsymbol, distances.size,
      distances.value
    ensures bits.Valid()
    ensures ok ==>
      && HeaderIs(old(bits.Stream()), rs, all)
      && lengths.BuiltFor(all[..CountsOf(old(bits.Stream())).literals])
      && distances.BuiltFor(all[CountsOf(old(bits.Stream())).literals..])
      && bits.Stream() == AfterAll(LengthCode(old(bits.Stream())), RunsAt(old(bits.Stream())), rs)
      && bits.consumed ==
         RunsFrom(old(bits.Stream()), old(bits.consumed)) + RunsWidth(LengthCode(old(bits.Stream())), rs)
    ensures !ok ==> Refused(bits, old(bits.Stream()), old(bits.consumed), rs, why)
    ensures forall qs, ls :: WholeHeader(old(bits.Stream()), old(bits.consumed), qs, ls, 8 * |bits.data|) ==> ok
  {
    hide StreamOf;
    hide HeaderIs;
    hide LengthCode;
    hide CountsOf;
    hide RunsWidth;
    hide RunsFrom;
    hide Refused;
    hide WholeHeader;
    hide LengthsOk;
    hide Table.BuiltFor;
    ok, rs, all, why := ReadCodes(bits, lengths, distances);
    LengthCodeOk(old(bits.Stream()));
    if !ok {
      forall qs, ls | WholeHeader(old(bits.Stream()), old(bits.consumed), qs, ls, 8 * |bits.data|)
        ensures false
      {
        WholeIsRead(bits, old(bits.Stream()), old(bits.consumed), rs, why, qs, ls);
      }
    }
  }

  lemma {:induction false} PlacedOk(s: seq<nat>)
    requires |s| <= CODE_LENGTHS && forall i :: 0 <= i < |s| ==> s[i] < 8
    ensures forall i :: 0 <= i < CODE_LENGTHS ==> Placed(s)[i] < 8
    decreases |s|
  {
    hide InOrder;
    if s != [] { PlacedOk(s[..|s| - 1]); }
  }

  lemma {:induction false} TriplesOk(v: nat, n: nat)
    ensures forall i :: 0 <= i < n ==> Triples(v, n)[i] < 8
    decreases n
  {
    if n > 0 {
      TriplesOk(v, n - 1);
      RunBound(Shr(v, 3 * (n - 1)));
    }
  }

  /** The lengths of the code length code are numbers of three bits. */
  lemma LengthCodeOk(v: nat)
    ensures CountsOf(v).lengths <= CODE_LENGTHS && LengthsOk(LengthCode(v))
  {
    CountsBound(v);
    TriplesOk(Shr(v, 14), CountsOf(v).lengths);
    PlacedOk(Triples(Shr(v, 14), CountsOf(v).lengths));
  }

  lemma HeaderParts(v: nat) returns (cl: seq<nat>)
    ensures CountsOf(v).lengths <= CODE_LENGTHS && cl == LengthCode(v)
    ensures cl == Placed(Triples(Shr(v, 14), CountsOf(v).lengths))
    ensures RunsAt(v) == Shr(Shr(v, 14), 3 * CountsOf(v).lengths)
  {
    hide Low;
    hide Shr;
    hide Placed;
    hide Triples;
    CountsBound(v);
    ShrAdd(v, 14, 3 * CountsOf(v).lengths);
    cl := LengthCode(v);
  }

  method BuildBoth(lengths: Table, distances: Table, all: seq<nat>, n: nat) returns (ok: bool)
    requires lengths.Shape() && distances.Shape() && Separate(lengths, distances)
    requires n <= |all| && n <= 288 && |all| - n <= 32 && forall i :: 0 <= i < |all| ==> all[i] <= MAX_LENGTH
    modifies lengths.fast, lengths.firstcode, lengths.maxcode, lengths.firstsymbol, lengths.size, lengths.value
    modifies distances.fast, distances.firstcode, distances.maxcode, distances.firstsymbol, distances.size,
      distances.value
    ensures ok <==> Accepted(all[..n]) && Accepted(all[n..])
    ensures ok ==> lengths.BuiltFor(all[..n]) && distances.BuiltFor(all[n..])
  {
    hide Accepted;
    ok := lengths.Build(all[..n]);
    if !ok { return; }
    ok := distances.Build(all[n..]);
  }

  /** `memset`. */
  method Fill(a: array<nat>, at: nat, x: nat, n: nat)
    requires at + n <= a.Length
    modifies a
    ensures a[..at + n] == old(a[..at]) + Repeat(x, n)
  {
    for i := 0 to n
      invariant a[..at + i] == old(a[..at]) + Repeat(x, i)
    {
      a[at + i] := x;
    }
  }
}
