/** The account of a bit reader: how many bits it has taken, has in its buffer, and has made up for want of data. */
module Gauges {
  /** One access to the stream: a symbol whose code has `width` bits, or a number of `width` bits. */
  datatype Reading = Symbol(width: nat) | Extra(width: nat)

  function Total(rs: seq<Reading>): nat {
    if rs == [] then 0 else rs[0].width + Total(rs[1..])
  }

  /** How full a reader is: the bits in its buffer, the bytes of data not yet in it, whether the end has been padded,
      and how many zero bits refills have put in for want of data. */
  datatype Gauge = Gauge(numBits: nat, left: nat, hitEof: bool, zeros: nat) {
    /** Bits that can still be taken. */
    function Available(): nat { numBits + 8 * left }

    /** Bits in the buffer that are not in the data. */
    function Padding(): nat { zeros + if hitEof then 16 else 0 }

    predicate Exhausted() { numBits < 16 && left == 0 && hitEof }

    /** The check at the end of a block. */
    predicate EndSeen() { hitEof && numBits < 16 }
  }

  function FilledOne(g: Gauge): Gauge {
    if g.left > 0 then g.(numBits := g.numBits + 8, left := g.left - 1)
    else g.(numBits := g.numBits + 8, zeros := g.zeros + 8)
  }

  /** A refill: bytes until more than 24 bits are there. */
  function Filled(g: Gauge): Gauge
    decreases 32 - g.numBits
  {
    if g.numBits > 24 then g else Filled(FilledOne(g))
  }

  /** What a symbol is decoded from. */
  function Ready(g: Gauge): Gauge {
    if g.numBits >= 16 then g
    else if g.left > 0 then Filled(g)
    else if g.hitEof then g
    else g.(numBits := g.numBits + 16, hitEof := true)
  }

  function Taken(g: Gauge, n: nat): Gauge {
    g.(numBits := if n <= g.numBits then g.numBits - n else 0)
  }

  function Next(g: Gauge, r: Reading): Gauge {
    match r
    case Symbol(n) => Taken(Ready(g), n)
    case Extra(n) => Taken(if g.numBits < n then Filled(g) else g, n)
  }

  function NextAll(g: Gauge, rs: seq<Reading>): Gauge
    decreases |rs|
  {
    if rs == [] then g else NextAll(Next(g, rs[0]), rs[1..])
  }

  lemma {:induction false} ReadingsJoin(g: Gauge, rs: seq<Reading>, qs: seq<Reading>)
    ensures Total(rs + qs) == Total(rs) + Total(qs) && NextAll(g, rs + qs) == NextAll(NextAll(g, rs), qs)
    decreases |rs|
  {
    if rs == [] {
      assert rs + qs == qs;
    } else {
      assert (rs + qs)[1..] == rs[1..] + qs;
      ReadingsJoin(Next(g, rs[0]), rs[1..], qs);
    }
  }

  lemma OneReading(g: Gauge, r: Reading)
    ensures Total([r]) == r.width && NextAll(g, [r]) == Next(g, r)
  {
    assert [r][1..] == [];
  }

  /** What a refill aims at: the least number of bits above 24 that whole bytes lead to. */
  function Aim(available: nat): nat { 25 + (available + 7) % 8 }

  /** A refill puts in zeros exactly when fewer than 25 bits are left, as many as are missing. */
  lemma {:induction false} FilledIs(g: Gauge)
    requires g.numBits <= 32
    ensures var f := Filled(g);
      && 24 < f.numBits <= 32 && f.hitEof == g.hitEof
      && (f.zeros > g.zeros <==> g.Available() < 25)
      && f.zeros == g.zeros + (if g.Available() < 25 then Aim(g.Available()) - g.Available() else 0)
      && f.Available() - f.zeros == g.Available() - g.zeros
      && (f.zeros > g.zeros ==> f.left == 0 && f.numBits == Aim(g.Available()))
    decreases 32 - g.numBits
  {
    if g.numBits <= 24 {
      FilledIs(FilledOne(g));
      if g.left == 0 { AimNext(g.numBits); }
    }
  }

  lemma AimNext(n: nat)
    ensures Aim(n + 8) == Aim(n) && 25 <= Aim(n) <= 32 && (17 <= n <= 24 ==> Aim(n) == n + 8)
  {}

  /** The reader has taken `consumed` of `size` bits of data, and what it has made up is all behind them. */
  predicate Balanced(g: Gauge, consumed: nat, size: nat) {
    && consumed + g.Available() == size + g.Padding() && g.numBits <= 32
    && (g.Padding() > 0 ==> g.left == 0)
  }

  lemma {:induction false} BalancedFilled(g: Gauge, consumed: nat, size: nat)
    requires Balanced(g, consumed, size)
    ensures Balanced(Filled(g), consumed, size)
    decreases 32 - g.numBits
  {
    if g.numBits <= 24 { BalancedFilled(FilledOne(g), consumed, size); }
  }

  // ---------------------------------------------------------------- the check at the end of a block

  /** The reading makes the reader refill its buffer from the data. */
  predicate Refills(g: Gauge, r: Reading) {
    match r
    case Symbol(_) => g.numBits < 16 && g.left > 0
    case Extra(n) => g.numBits < n
  }

  /** Every refill on the way finds at least 25 bits. */
  predicate NeverShort(g: Gauge, rs: seq<Reading>)
    decreases |rs|
  {
    rs != [] ==> (Refills(g, rs[0]) ==> g.Available() >= 25) && NeverShort(Next(g, rs[0]), rs[1..])
  }

  lemma NextZeros(g: Gauge, r: Reading)
    requires g.numBits <= 32
    ensures Next(g, r).numBits <= 32 && Next(g, r).zeros >= g.zeros
    ensures Next(g, r).zeros > g.zeros <==> Refills(g, r) && g.Available() < 25
  {
    hide Filled;
    FilledIs(g);
  }

  /** No zeros are made up if and only if no refill finds fewer than 25 bits. */
  lemma {:induction false} ZerosIff(g: Gauge, rs: seq<Reading>)
    requires g.numBits <= 32
    ensures NextAll(g, rs).zeros >= g.zeros
    ensures NextAll(g, rs).zeros == g.zeros <==> NeverShort(g, rs)
    decreases |rs|
  {
    hide Next;
    hide Refills;
    if rs != [] {
      NextZeros(g, rs[0]);
      ZerosIff(Next(g, rs[0]), rs[1..]);
    }
  }

  /** The check fires exactly when more has been taken than the data and the zeros that refills put in, so it misses
      what was taken of those zeros and nothing else. */
  lemma EndCheckIs(g: Gauge, consumed: nat, size: nat)
    requires Balanced(g, consumed, size)
    ensures g.EndSeen() <==> consumed > size + g.zeros
    ensures g.Exhausted() ==> consumed > size + g.zeros
    ensures (g.EndSeen() <==> consumed > size) <==> !(size < consumed <= size + g.zeros)
  {}
}
