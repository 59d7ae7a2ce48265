/** A compressed block that is cut short and decoded all the same. */
module InflateLimits {
  import opened Bits
  import opened BitReversal
  import opened Huffman
  import opened HuffmanTable
  import opened Memory
  import opened BitStream
  import opened Gauges
  import opened Inflate
  import opened InflateBlock

  /** Code lengths that give nine bits to the end of a block, and no code to anything else. */
  function OnlyEnd(): seq<nat> {
    seq(END_OF_BLOCK + 1, i => if i == END_OF_BLOCK then 9 else 0)
  }

  lemma {:induction false} NoCodes(ls: seq<nat>, s: nat)
    requires s > 0 && forall i :: 0 <= i < |ls| ==> ls[i] == 0
    ensures Count(ls, s) == 0
    decreases |ls|
  {
    if ls != [] { NoCodes(ls[..|ls| - 1], s); }
  }

  lemma {:induction false} OneCode(s: nat)
    ensures FirstCode(OnlyEnd(), s) == if s <= 9 then 0 else Pow2(s - 9)
    ensures s > 0 ==> Count(OnlyEnd(), s) == if s == 9 then 1 else 0
    decreases s
  {
    var ls := OnlyEnd();
    if s > 0 {
      NoCodes(ls[..END_OF_BLOCK], s);
      OneCode(s - 1);
    }
  }

  lemma OnlyEndIs(dl: seq<nat>)
    requires dl == []
    ensures LengthsOk(OnlyEnd()) && Accepted(OnlyEnd()) && LengthsOk(dl) && Accepted(dl)
    ensures Matches(OnlyEnd(), 0, END_OF_BLOCK)
  {
    var ls := OnlyEnd();
    forall s | 1 <= s <= MAX_LENGTH ensures Limit(ls, s) <= Pow2(s) && Limit(dl, s) == 0 {
      OneCode(s);
      NoCode(s);
      if s > 9 { Pow2Mono(s - 9 + 1, s); } else { Pow2Mono(0, s); }
    }
    NoCodes(ls[..END_OF_BLOCK], 9);
    OneCode(9);
    ReverseZero(9);
  }

  lemma {:induction false} NoCode(s: nat)
    ensures FirstCode([], s) == 0
    decreases s
  {
    if s > 1 { NoCode(s - 1); }
  }

  lemma {:induction false} ReverseZero(n: nat)
    ensures Reverse(0, n) == 0
    decreases n
  {
    if n > 0 { ReverseZero(n - 1); }
  }

  lemma NothingStarts(p0: Place, ts: seq<Token>, p: Place)
    requires p0.stream == 0 && TookAll(OnlyEnd(), [], p0, ts, p)
    ensures ts == [] && p == p0
  {
    OnlyEndIs([]);
    ReadableEnd(OnlyEnd(), [], 0);
    hide OnlyEnd;
    assert Reads(OnlyEnd(), [], 0, ts);
  }

  lemma EndWidth()
    ensures |OnlyEnd()| == END_OF_BLOCK + 1 && OnlyEnd()[END_OF_BLOCK] == 9
    ensures LengthsOk(OnlyEnd()) && Matches(OnlyEnd(), 0, END_OF_BLOCK)
  {
    OnlyEndIs([]);
  }

  /** One refill, which finds eight bits and makes up 24. */
  lemma OneRefill(g: Gauge)
    requires g == Gauge(0, 1, false, 0)
    ensures !Next(g, Symbol(9)).hitEof
  {
    hide Filled;
    FilledIs(g);
  }

  lemma NothingButEnd(z: Inflater, p0: Place, ts: seq<Token>, p: Place, why: Stop)
    requires z.Valid() && p0 == Place(0, 0, Gauge(0, 1, false, 0)) && z.bits.data == [0]
    requires TookAll(OnlyEnd(), [], p0, ts, p) && z.Stopped(OnlyEnd(), [], p, why)
    ensures ts == [] && why == Done && z.bits.consumed == 9
  {
    hide OnlyEnd;
    hide LengthsOk;
    hide PlainDecode;
    hide Undecodable;
    hide TookAll;
    hide Next;
    hide Matches;
    hide Starts;
    hide StreamOf;
    EndWidth();
    NothingStarts(p0, ts, p);
    OneRefill(p0.gauge);
    ReadableEnd(OnlyEnd(), [], 0);
    EndCheckIs(z.bits.Gauge(), z.bits.consumed, 8);
  }

  method MakeTable(ls: seq<nat>) returns (table: Table)
    requires LengthsOk(ls) && Accepted(ls)
    ensures fresh(table) && table.BuiltFor(ls)
  {
    hide Accepted;
    table := new Table();
    var built := table.Build(ls);
  }

  /** One byte of zeros, of whose nine-bit end of block one bit is missing: the block is decoded without complaint. */
  method TruncationMissed() returns (z: Inflater, ok: bool)
    ensures ok && z.Valid() && z.Output() == [] && z.bits.data == [0] && z.bits.consumed == 9 > 8 * |z.bits.data|
  {
    hide Accepted;
    hide Table.BuiltFor;
    hide TookAll;
    hide Inflater.Stopped;
    hide ReadsWhole;
    hide Succeeds;
    hide StreamOf;
    hide OnlyEnd;
    OnlyEndIs([]);
    var lengths := MakeTable(OnlyEnd());
    var distances := MakeTable([]);
    var bits := new BitReader([0]);
    ghost var p0 := PlaceOf(bits);
    ZeroByte();
    assert p0 == Place(0, 0, Gauge(0, 1, false, 0));
    var out := new Byte[1];
    z := new Inflater(bits, lengths, distances, out, false, 0);
    ghost var ts, p, why;
    ok, ts, p, why := z.ParseBlock(OnlyEnd(), []);
    NothingButEnd(z, p0, ts, p, why);
  }

  lemma ZeroByte()
    ensures Value([0]) == 0
  {
    assert [0][1..] == [];
  }
}
