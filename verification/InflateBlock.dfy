/** `stbi__parse_huffman_block` and the output buffer it writes to. */
module InflateBlock {
  import opened Bits
  import opened BitReversal
  import opened Huffman
  import opened HuffmanTable
  import opened Memory
  import opened BitStream
  import opened Gauges
  import opened Inflate

  /** The size `stbi__zexpand` doubles `limit` to, or 0 if 32 bits are not enough. */
  function GrownLimit(limit: nat, need: nat): (r: nat)
    requires 0 < limit <= UINT_MAX
    ensures r != 0 ==> limit <= r <= UINT_MAX && need <= r && (r == limit || r < 2 * need)
    ensures need <= limit ==> r == limit
    ensures r == 0 ==> need > UINT_MAX / 2 + 1
    decreases UINT_MAX - limit, need
  {
    if need <= limit then limit
    else if limit > UINT_MAX / 2 then 0
    else GrownLimit(2 * limit, need)
  }

  /** Why the loop over the tokens of a block stops. */
  datatype Stop = Done | BadCode | Exhausted | BadDistance(token: Token) | NoRoom(token: Token) | UnexpectedEnd

  /** The literal/length code, or the distance code after a length, is not one that may appear. */
  ghost predicate Undecodable(ll: seq<nat>, dl: seq<nat>, v: nat) {
    || PlainDecode(ll, v) == NoCode
    || (PlainDecode(ll, v).Code? && PlainDecode(ll, v).symbol >= 286)
    || exists t: Token :: LengthStarts(ll, v, t) && BadSymbol(PlainDecode(dl, AfterLength(ll, v, t)))
  }

  ghost predicate BadSymbol(d: Decoded) { d == NoCode || d.symbol >= 30 }

  /** The stream starts with the length of a match. */
  ghost predicate LengthStarts(ll: seq<nat>, v: nat, t: Token) {
    && t.Ok() && t.Match? && Matches(ll, v, t.length)
    && t.lengthBits == Low(Shr(v, ll[t.length]), LENGTH_EXTRA[t.length - 257])
  }

  /** The bits of a match behind its length symbol. */
  function MatchRest(dl: seq<nat>, t: Token): nat
    requires t.Ok() && t.Match?
  {
    LENGTH_EXTRA[t.length - 257] + WidthOf(dl, t.distance) + DISTANCE_EXTRA[t.distance]
  }

  function AfterLengthSymbol(g: Gauge, dl: seq<nat>, t: Token): Gauge
    requires t.Ok() && t.Match?
  {
    var h := Next(Next(g, Extra(LENGTH_EXTRA[t.length - 257])), Symbol(WidthOf(dl, t.distance)));
    Next(h, Extra(DISTANCE_EXTRA[t.distance]))
  }

  /** The four readings of a match, one after the other. */
  lemma MatchReadings(g: Gauge, ll: seq<nat>, dl: seq<nat>, t: Token)
    requires t.Ok() && t.Match?
    ensures Total(LengthReadings(ll, t.length)) == WidthOf(ll, t.length) + LENGTH_EXTRA[t.length - 257]
    ensures Total(TokenReadings(ll, dl, t)) == WidthOf(ll, t.length) + MatchRest(dl, t)
    ensures NextAll(g, TokenReadings(ll, dl, t)) == AfterLengthSymbol(Next(g, Symbol(WidthOf(ll, t.length))), dl, t)
  {
    hide Next;
    var a, b := Symbol(WidthOf(ll, t.length)), Extra(LENGTH_EXTRA[t.length - 257]);
    var c, d := Symbol(WidthOf(dl, t.distance)), Extra(DISTANCE_EXTRA[t.distance]);
    assert TokenReadings(ll, dl, t) == [a] + ([b] + ([c] + [d]));
    assert LengthReadings(ll, t.length) == [a] + [b];
    ReadingsJoin(g, [a], [b]);
    ReadingsJoin(g, [a], [b] + ([c] + [d]));
    ReadingsJoin(Next(g, a), [b], [c] + [d]);
    ReadingsJoin(Next(Next(g, a), b), [c], [d]);
    OneReading(g, a);
    OneReading(Next(g, a), b);
    OneReading(Next(Next(g, a), b), c);
    OneReading(Next(Next(Next(g, a), b), c), d);
  }

  /** Where a reader stands: what it has still to read, how many bits it has taken, and its account. */
  datatype Place = Place(stream: nat, consumed: nat, gauge: Gauge)

  ghost function PlaceOf(bits: BitReader): Place
    requires bits.Valid()
    reads bits
  {
    Place(bits.Stream(), bits.consumed, bits.Gauge())
  }

  /** Token `t` leads from `p` to `q`. */
  ghost predicate Took(ll: seq<nat>, dl: seq<nat>, p: Place, t: Token, q: Place) {
    && Starts(ll, dl, p.stream, t) && q.stream == After(ll, dl, p.stream, t)
    && q.consumed == p.consumed + Total(TokenReadings(ll, dl, t))
    && q.gauge == NextAll(p.gauge, TokenReadings(ll, dl, t))
  }

  ghost predicate TookAll(ll: seq<nat>, dl: seq<nat>, p: Place, ts: seq<Token>, q: Place) {
    && Reads(ll, dl, p.stream, ts) && AllOk(ts) && q.stream == AfterAll(ll, dl, p.stream, ts)
    && q.consumed == p.consumed + Total(Readings(ll, dl, ts))
    && q.gauge == NextAll(p.gauge, Readings(ll, dl, ts))
  }

  lemma TookNone(ll: seq<nat>, dl: seq<nat>, p: Place)
    ensures TookAll(ll, dl, p, [], p)
  {}

  lemma TookOneMore(ll: seq<nat>, dl: seq<nat>, p: Place, ts: seq<Token>, q: Place, t: Token, r: Place)
    requires TookAll(ll, dl, p, ts, q) && Took(ll, dl, q, t, r)
    ensures TookAll(ll, dl, p, ts + [t], r)
  {
    hide TokenReadings;
    hide Readings;
    hide NextAll;
    hide Total;
    hide Reads;
    hide After;
    ReadOneMore(ll, dl, p.stream, ts, t);
    ReadingsOneMore(ll, dl, ts, t);
    ReadingsJoin(p.gauge, Readings(ll, dl, ts), TokenReadings(ll, dl, t));
  }

  /** An output buffer, whether it may grow, and the largest reallocation that succeeds. */
  datatype Room = Room(size: nat, expandable: bool, heapLimit: nat) {
    /** There is room for `total` bytes, or it can be made by doubling. */
    predicate For(total: nat) {
      total <= size || (expandable && total <= UINT_MAX / 2 + 1 && 2 * total <= heapLimit)
    }
  }

  /** A whole block has been read to its end, or up to a token that reaches too far back or finds no room. */
  ghost predicate Fate(us: seq<Token>, ts: seq<Token>, why: Stop) {
    if why == Done then ts == us else ts < us && (why == BadDistance(us[|ts|]) || why == NoRoom(us[|ts|]))
  }

  ghost predicate ReadsWhole(ll: seq<nat>, dl: seq<nat>, p: Place, size: nat, ts: seq<Token>, why: Stop) {
    forall us :: Whole(ll, dl, p, us, size) ==> Fate(us, ts, why)
  }

  /** A whole block after the output `s` is decoded if its distances reach no further than that and there is room. */
  ghost predicate Succeeds(ll: seq<nat>, dl: seq<nat>, p: Place, size: nat, s: seq<Byte>, room: Room, why: Stop) {
    forall us ::
      Whole(ll, dl, p, us, size) && AllReachable(s, us) && room.For(|Expansion(s, us)|) ==> why == Done
  }

  /** The tokens `us` and the end of the block lie wholly within `size` bits of data. */
  ghost predicate Whole(ll: seq<nat>, dl: seq<nat>, p: Place, us: seq<Token>, size: nat) {
    && Reads(ll, dl, p.stream, us) && AllOk(us) && Matches(ll, AfterAll(ll, dl, p.stream, us), END_OF_BLOCK)
    && p.consumed + Total(Readings(ll, dl, us)) + ll[END_OF_BLOCK] <= size
  }

  /** So do those of an encoded block that is not cut short. */
  lemma EncodedIsWhole(ll: seq<nat>, dl: seq<nat>, us: seq<Token>, rest: nat, p: Place, size: nat)
    requires LengthsOk(ll) && Accepted(ll) && LengthsOk(dl) && Accepted(dl)
    requires END_OF_BLOCK < |ll| && ll[END_OF_BLOCK] > 0
    requires (forall t <- us :: Encodable(ll, dl, t)) && p.stream == EncodeBlock(ll, dl, us, rest)
    ensures AllOk(us)
    ensures p.consumed + Total(Readings(ll, dl, us)) + ll[END_OF_BLOCK] <= size ==> Whole(ll, dl, p, us, size)
  {
    TakeBlock(ll, dl, us, rest);
    ReadsOk(ll, dl, p.stream, us);
  }

  /** The stream is readable wherever a whole block has more to come. */
  lemma Readable(ll: seq<nat>, dl: seq<nat>, v: nat, t: Token)
    requires LengthsOk(ll) && LengthsOk(dl) && Starts(ll, dl, v, t)
    ensures !Undecodable(ll, dl, v) && !Matches(ll, v, END_OF_BLOCK)
    ensures forall u: Token :: LengthStarts(ll, v, u) ==> t.Match? && u.length == t.length
  {
    hide PlainDecode;
    var l := if t.Literal? then t.byte else t.length;
    NotBothEnd(ll, dl, v, t);
    OneDecoded(ll, v, l);
    forall u: Token | LengthStarts(ll, v, u)
      ensures t.Match? && u.length == t.length && !BadSymbol(PlainDecode(dl, AfterLength(ll, v, u)))
    {
      OneMatch(ll, v, l, u.length);
      OneDecoded(dl, AfterLength(ll, v, t), t.distance);
    }
  }

  lemma ReadableEnd(ll: seq<nat>, dl: seq<nat>, v: nat)
    requires LengthsOk(ll) && Matches(ll, v, END_OF_BLOCK)
    ensures !Undecodable(ll, dl, v)
    ensures forall u: Token :: !LengthStarts(ll, v, u) && !Starts(ll, dl, v, u)
  {
    hide PlainDecode;
    OneDecoded(ll, v, END_OF_BLOCK);
    forall u: Token ensures !LengthStarts(ll, v, u) && !Starts(ll, dl, v, u) {
      if LengthStarts(ll, v, u) { OneMatch(ll, v, END_OF_BLOCK, u.length); }
      if Starts(ll, dl, v, u) { NotBothEnd(ll, dl, v, u); }
    }
  }

  /** After the last token read, a whole block goes on with its next token or ends, within the data. */
  lemma WholeFrom(ll: seq<nat>, dl: seq<nat>, p0: Place, ts: seq<Token>, p: Place, us: seq<Token>, size: nat)
    requires TookAll(ll, dl, p0, ts, p) && Whole(ll, dl, p0, us, size)
    ensures ts <= us
    ensures |ts| < |us| ==>
      && us[|ts|].Ok() && Starts(ll, dl, p.stream, us[|ts|])
      && p.consumed + Total(TokenReadings(ll, dl, us[|ts|])) <= size
    ensures ts == us ==>
      Matches(ll, p.stream, END_OF_BLOCK) && p.consumed <= p.consumed + ll[END_OF_BLOCK] <= size
  {
    hide TokenReadings;
    ReadsPrefix(ll, dl, p0.stream, ts, us);
    if |ts| < |us| {
      TotalPrefix(ll, dl, us, |ts|);
      assert us[..|ts|] == ts;
    }
  }

  /** Whoever reads a whole block reads all of it, unless a distance reaches too far or there is no room. */
  lemma WholeBlock(z: Inflater, ll: seq<nat>, dl: seq<nat>, p0: Place, ts: seq<Token>, p: Place, why: Stop,
                   us: seq<Token>)
    requires z.Valid() && LengthsOk(ll) && LengthsOk(dl)
    requires TookAll(ll, dl, p0, ts, p) && z.Stopped(ll, dl, p, why) && Whole(ll, dl, p0, us, 8 * |z.bits.data|)
    ensures Fate(us, ts, why)
  {
    hide Undecodable;
    hide TokenReadings;
    hide LengthReadings;
    hide Starts;
    hide After;
    hide Matches;
    WholeFrom(ll, dl, p0, ts, p, us, 8 * |z.bits.data|);
    EndCheckIs(z.bits.Gauge(), z.bits.consumed, 8 * |z.bits.data|);
    if ts == us {
      ReadableEnd(ll, dl, p.stream);
    } else {
      var t := us[|ts|];
      Readable(ll, dl, p.stream, t);
      if t.Match? { MatchReadings(p.gauge, ll, dl, t); }
      if why.BadDistance? || why.NoRoom? { OneToken(ll, dl, p.stream, t, why.token); }
    }
  }

  class Inflater {
    const bits: BitReader
    /** `z_length` and `z_distance`. */
    const lengths: Table
    const distances: Table
    /** The memory from `zout_start` to `zout_end`, and how much of it has been written. */
    var out: array<Byte>
    var written: nat
    const expandable: bool
    /** The largest reallocation that succeeds. */
    const heapLimit: nat

    ghost predicate Valid()
      reads this, bits
    {
      bits.Valid() && 0 < out.Length <= UINT_MAX && written <= out.Length
    }

    ghost function Output(): seq<Byte>
      requires written <= out.Length
      reads this, out
    {
      out[..written]
    }

    constructor (bits: BitReader, lengths: Table, distances: Table, out: array<Byte>, expandable: bool, heapLimit: nat)
      requires bits.Valid() && 0 < out.Length <= UINT_MAX
      ensures Valid() && Output() == [] && this.bits == bits && this.lengths == lengths && this.distances == distances
      ensures this.out == out && this.expandable == expandable && this.heapLimit == heapLimit
    {
      this.bits, this.lengths, this.distances := bits, lengths, distances;
      this.out, this.expandable, this.heapLimit := out, expandable, heapLimit;
      written := 0;
    }

    /** There is room for `n` more bytes, or it can be made. */
    ghost predicate CanHold(n: nat)
      requires 0 < out.Length <= UINT_MAX
      reads this
    {
      written + n <= out.Length
      || (expandable && written + n <= UINT_MAX && 0 < GrownLimit(out.Length, written + n) <= heapLimit)
    }

    ghost function RoomNow(): Room
      reads this
    {
      Room(out.Length, expandable, heapLimit)
    }

    /** `stbi__zexpand`: makes room for `n` more bytes, and keeps everything written so far. */
    method Expand(n: nat) returns (ok: bool)
      requires Valid() && written + n > out.Length
      modifies this`out
      ensures Valid() && Output() == old(Output())
      ensures ok <==> old(CanHold(n))
      ensures if ok then written + n <= out.Length && fresh(out) else out == old(out)
    {
      if !expandable { return false; }
      var limit := out.Length;
      if UINT_MAX - written < n { return false; }
      while written + n > limit
        invariant 0 < limit <= UINT_MAX && GrownLimit(limit, written + n) == GrownLimit(out.Length, written + n)
        decreases UINT_MAX - limit
      {
        if limit > UINT_MAX / 2 { return false; }
        limit := 2 * limit;
      }
      if limit > heapLimit { return false; }
      var from := out;
      var q := new Byte[limit](i requires 0 <= i < limit reads from => if i < from.Length then from[i] else 0);
      out := q;
      assert out[..written] == from[..written];
      ok := true;
    }

    /** Writes one byte of output. */
    method Put(byte: Byte)
      requires written < out.Length
      modifies this`written, out
      ensures written == old(written) + 1 && Output() == old(Output()) + [byte]
    {
      out[written] := byte;
      written := written + 1;
    }

    /** The copying loops: the run of one byte, and the general one. */
    method CopyMatch(length: nat, distance: nat)
      requires 0 < distance <= written && written + length <= out.Length
      modifies this`written, out
      ensures written == old(written) + length && Output() == Copy(old(Output()), length, distance)
    {
      var left: nat := length;
      var p := written - distance;
      if distance == 1 {
        var v := out[p];
        while left > 0
          invariant left <= length && written == old(written) + (length - left) && 0 < written + left <= out.Length
          invariant written > 0 && out[written - 1] == v
          invariant Copy(Output(), left, 1) == Copy(old(Output()), length, 1)
          decreases left
        {
          Put(v);
          left := left - 1;
        }
      } else {
        while left > 0
          invariant left <= length && written == old(written) + (length - left) && written + left <= out.Length
          invariant p == written - distance >= 0
          invariant Copy(Output(), left, distance) == Copy(old(Output()), length, distance)
          decreases left
        {
          Put(out[p]);
          p := p + 1;
          left := left - 1;
        }
      }
    }

    /** A base value plus `n` extra bits, which are not read at all if `n` is 0. */
    method AddExtra(base: nat, n: nat) returns (sum: nat)
      requires bits.Valid() && n <= 24
      modifies bits
      ensures bits.Valid() && bits.Stream() == Shr(old(bits.Stream()), n) && sum == base + Low(old(bits.Stream()), n)
      ensures bits.consumed == old(bits.consumed) + n && bits.Gauge() == Next(old(bits.Gauge()), Extra(n))
    {
      hide StreamOf;
      hide Filled;
      NoBits(bits.Stream());
      sum := base;
      if n != 0 {
        var extra := bits.Receive(n);
        sum := sum + extra;
      }
    }

    /** Reads the part of a match that follows its length symbol. */
    method ReadMatch(symbol: nat, ghost ll: seq<nat>, ghost dl: seq<nat>, ghost v: nat)
      returns (ok: bool, length: nat, distance: nat, ghost t: Token, ghost why: Stop)
      requires bits.Valid() && distances.BuiltFor(dl) && 257 <= symbol < 286
      requires Decodes(ll, v, symbol, bits.Stream())
      modifies bits
      ensures bits.Valid()
      ensures ok ==> t.Match? && t.Ok() && Starts(ll, dl, v, t) && bits.Stream() == After(ll, dl, v, t)
      ensures ok ==> length == t.Length() >= 3 && distance == t.Distance() > 0
      ensures ok ==> t.length == symbol && bits.consumed == old(bits.consumed) + MatchRest(dl, t)
      ensures ok ==> bits.Gauge() == AfterLengthSymbol(old(bits.Gauge()), dl, t)
      ensures !ok ==> why == Exhausted || why == BadCode
      ensures !ok && why == Exhausted ==>
        && bits.Exhausted() && bits.consumed == old(bits.consumed) + LENGTH_EXTRA[symbol - 257]
        && t.Ok() && LengthStarts(ll, v, t) && t.length == symbol
      ensures !ok && why == BadCode ==> Undecodable(ll, dl, v)
    {
      hide StreamOf;
      hide Next;
      hide Low;
      hide Shr;
      hide Reverse;
      hide CodeOf;
      hide PlainDecode;
      hide Table.BuiltFor;
      ghost var v1 := bits.Stream();
      ExtraBits(symbol - 257, 0);
      length := AddExtra(LENGTH_BASE[symbol - 257], LENGTH_EXTRA[symbol - 257]);
      t := Match(symbol, Low(v1, LENGTH_EXTRA[symbol - 257]), 0, 0);
      ghost var v2 := bits.Stream();
      assert LengthStarts(ll, v, t) && v2 == AfterLength(ll, v, t);
      var d := bits.Decode(distances, dl);
      if d < 0 || d >= 30 {
        why := if d < 0 && bits.Exhausted() then Exhausted else BadCode;
        assert d >= 0 || !bits.Exhausted() ==> BadSymbol(PlainDecode(dl, AfterLength(ll, v, t)));
        return false, length, 0, t, why;
      }
      ghost var v3 := bits.Stream();
      ExtraBits(0, d);
      distance := AddExtra(DISTANCE_BASE[d], DISTANCE_EXTRA[d]);
      t := Match(symbol, t.lengthBits, d, Low(v3, DISTANCE_EXTRA[d]));
      assert v2 == AfterLength(ll, v, t);
      ok, why := true, Done;
    }

    /** What is the case when the loop stops, having read its last whole token at `p`. */
    ghost predicate Stopped(ll: seq<nat>, dl: seq<nat>, p: Place, why: Stop)
      requires Valid()
      reads this, bits
    {
      match why
      case Done => Ended(ll, p) && !(bits.hitEof && bits.numBits < 16)
      case UnexpectedEnd => Ended(ll, p) && bits.hitEof && bits.numBits < 16
      case BadCode => Undecodable(ll, dl, p.stream)
      case Exhausted =>
        && bits.Exhausted()
        && (bits.consumed == p.consumed
            || exists t: Token ::
                 LengthStarts(ll, p.stream, t) && bits.consumed == p.consumed + Total(LengthReadings(ll, t.length)))
      case BadDistance(t) => t.Match? && Took(ll, dl, p, t, PlaceOf(bits)) && t.Distance() > written
      case NoRoom(t) => Took(ll, dl, p, t, PlaceOf(bits)) && Reachable(written, t) && !CanHold(t.Size())
    }

    /** The end of the block has been read at `p`. */
    ghost predicate Ended(ll: seq<nat>, p: Place)
      requires Valid()
      reads this, bits
    {
      && Decodes(ll, p.stream, END_OF_BLOCK, bits.Stream()) && bits.consumed == p.consumed + ll[END_OF_BLOCK]
      && bits.Gauge() == Next(p.gauge, Symbol(ll[END_OF_BLOCK]))
    }

    /** One turn of the loop over the tokens of a block; `ok` says how the loop ends. */
    method Step(ghost ll: seq<nat>, ghost dl: seq<nat>) returns (more: bool, ok: bool, ghost t: Token, ghost why: Stop)
      requires Valid() && lengths.BuiltFor(ll) && distances.BuiltFor(dl)
      modifies this, out, bits
      ensures Valid() && lengths.BuiltFor(ll) && distances.BuiltFor(dl) && (out == old(out) || fresh(out))
      ensures out.Length >= old(out.Length)
      ensures more ==> Took(ll, dl, old(PlaceOf(bits)), t, PlaceOf(bits))
      ensures more ==> Reachable(|old(Output())|, t) && Output() == Append(old(Output()), t) && written > old(written)
      ensures !more ==> Output() == old(Output()) && (ok <==> why == Done)
      ensures !more ==> Stopped(ll, dl, old(PlaceOf(bits)), why)
    {
      hide Matches;
      hide PlainDecode;
      hide StreamOf;
      hide Shr;
      hide Copy;
      hide Next;
      hide NextAll;
      hide Total;
      hide Table.BuiltFor;
      ghost var p := PlaceOf(bits);
      t, why, ok := Literal(0), Done, false;
      var z := bits.Decode(lengths, ll);
      if z < 0 {
        why := if bits.Exhausted() then Exhausted else BadCode;
        return false, false, t, why;
      }
      if z < 256 {
        more, t, why := PutLiteral(z, ll, dl, p);
        return;
      }
      if z == END_OF_BLOCK {
        ok := !(bits.hitEof && bits.numBits < 16);
        why := if ok then Done else UnexpectedEnd;
        return false, ok, t, why;
      }
      if z >= 286 { return false, false, t, BadCode; }
      more, t, why := PutMatch(z, ll, dl, p);
    }

    method PutLiteral(z: nat, ghost ll: seq<nat>, ghost dl: seq<nat>, ghost p: Place)
      returns (ok: bool, ghost t: Token, ghost why: Stop)
      requires Valid() && z < 256 && Decodes(ll, p.stream, z, bits.Stream())
      requires bits.consumed == p.consumed + ll[z] && bits.Gauge() == Next(p.gauge, Symbol(ll[z]))
      modifies this, out
      ensures Valid() && (out == old(out) || fresh(out)) && out.Length >= old(out.Length)
      ensures ok ==> Took(ll, dl, p, t, PlaceOf(bits))
      ensures ok ==> Reachable(|old(Output())|, t) && Output() == Append(old(Output()), t) && written > old(written)
      ensures !ok ==> Output() == old(Output()) && Stopped(ll, dl, p, why) && why != Done
    {
      t := Literal(z);
      why := NoRoom(t);
      OneReading(p.gauge, Symbol(ll[z]));
      assert Took(ll, dl, p, t, PlaceOf(bits));
      hide Took;
      hide StreamOf;
      ok := MakeRoom(1);
      if ok { Put(z); }
    }

    method PutMatch(z: nat, ghost ll: seq<nat>, ghost dl: seq<nat>, ghost p: Place)
      returns (ok: bool, ghost t: Token, ghost why: Stop)
      requires Valid() && distances.BuiltFor(dl) && 257 <= z < 286 && Decodes(ll, p.stream, z, bits.Stream())
      requires bits.consumed == p.consumed + ll[z] && bits.Gauge() == Next(p.gauge, Symbol(ll[z]))
      modifies this, out, bits
      ensures Valid() && (out == old(out) || fresh(out)) && out.Length >= old(out.Length)
      ensures ok ==> Took(ll, dl, p, t, PlaceOf(bits))
      ensures ok ==> Reachable(|old(Output())|, t) && Output() == Append(old(Output()), t) && written > old(written)
      ensures !ok ==> Output() == old(Output()) && Stopped(ll, dl, p, why) && why != Done
    {
      hide Next;
      hide NextAll;
      hide Total;
      hide TokenReadings;
      hide LengthReadings;
      hide Starts;
      hide StreamOf;
      hide Shr;
      hide Copy;
      hide Table.BuiltFor;
      hide Undecodable;
      var length, distance;
      assert WidthOf(ll, z) == ll[z];
      hide Matches;
      ok, length, distance, t, why := ReadMatch(z, ll, dl, p.stream);
      if t.Ok() && t.Match? { MatchReadings(p.gauge, ll, dl, t); }
      if !ok { return; }
      if written < distance { return false, t, BadDistance(t); }
      why := NoRoom(t);
      ok := MakeRoom(length);
      if ok { CopyMatch(length, distance); }
    }

    /** Expands the output buffer if `n` more bytes do not fit. */
    method MakeRoom(n: nat) returns (ok: bool)
      requires Valid()
      modifies this`out
      ensures Valid() && Output() == old(Output()) && (out == old(out) || fresh(out))
      ensures ok <==> old(CanHold(n))
      ensures ok ==> written + n <= out.Length
      ensures out.Length >= old(out.Length)
      ensures !ok ==> out == old(out)
    {
      ok := true;
      if n > out.Length - written { ok := Expand(n); }
    }

    /** The loop over the tokens of a block. */
    method ReadTokens(ghost ll: seq<nat>, ghost dl: seq<nat>)
      returns (ok: bool, ghost ts: seq<Token>, ghost p: Place, ghost why: Stop)
      requires Valid() && lengths.BuiltFor(ll) && distances.BuiltFor(dl)
      modifies this, out, bits
      ensures Valid() && (ok <==> why == Done) && out.Length >= old(out.Length)
      ensures AllReachable(old(Output()), ts) && Output() == Expansion(old(Output()), ts)
      ensures TookAll(ll, dl, old(PlaceOf(bits)), ts, p) && Stopped(ll, dl, p, why)
    {
      hide Took;
      hide TookAll;
      hide Reachable;
      hide Append;
      hide Stopped;
      hide Table.BuiltFor;
      ts, why, ok, p := [], Done, false, PlaceOf(bits);
      TookNone(ll, dl, p);
      var more := true;
      while more
        invariant Valid() && lengths.BuiltFor(ll) && distances.BuiltFor(dl) && (out == old(out) || fresh(out))
        invariant out.Length >= old(out.Length)
        invariant AllReachable(old(Output()), ts) && Output() == Expansion(old(Output()), ts)
        invariant TookAll(ll, dl, old(PlaceOf(bits)), ts, p)
        invariant if more then p == PlaceOf(bits) else Stopped(ll, dl, p, why) && (ok <==> why == Done)
        decreases more, UINT_MAX - written
      {
        ghost var t;
        more, ok, t, why := Step(ll, dl);
        if more {
          TookOneMore(ll, dl, old(PlaceOf(bits)), ts, p, t, PlaceOf(bits));
          ExpandOneMore(old(Output()), ts, t);
          ts, p := ts + [t], PlaceOf(bits);
        }
      }
    }

    /** `stbi__parse_huffman_block`: appends what the tokens of the block stand for, up to the end of the block or the
        first thing that is wrong. */
    method ParseBlock(ghost ll: seq<nat>, ghost dl: seq<nat>)
      returns (ok: bool, ghost ts: seq<Token>, ghost p: Place, ghost why: Stop)
      requires Valid() && lengths.BuiltFor(ll) && distances.BuiltFor(dl)
      modifies this, out, bits
      ensures Valid() && (ok <==> why == Done)
      ensures AllReachable(old(Output()), ts) && Output() == Expansion(old(Output()), ts)
      ensures TookAll(ll, dl, old(PlaceOf(bits)), ts, p) && Stopped(ll, dl, p, why)
      ensures ReadsWhole(ll, dl, old(PlaceOf(bits)), 8 * |bits.data|, ts, why)
      ensures Succeeds(ll, dl, old(PlaceOf(bits)), 8 * |bits.data|, old(Output()), old(RoomNow()), why)
    {
      assert LengthsOk(ll) && LengthsOk(dl);
      hide AllReachable;
      hide Expansion;
      hide TookAll;
      hide Stopped;
      hide ReadsWhole;
      hide Succeeds;
      ok, ts, p, why := ReadTokens(ll, dl);
      WholeRead(this, ll, dl, old(PlaceOf(bits)), ts, p, why, old(Output()), old(RoomNow()));
    }
  }

  lemma {:induction false} ExpandsTo(s: seq<Byte>, us: seq<Token>, n: nat)
    requires AllReachable(s, us) && n < |us|
    ensures AllReachable(s, us[..n]) && Reachable(|Expansion(s, us[..n])|, us[n])
    ensures |Expansion(s, us[..n])| + us[n].Size() <= |Expansion(s, us)|
    decreases n
  {
    hide Reachable;
    if n > 0 {
      ExpandsTo(Append(s, us[0]), us[1..], n - 1);
      assert us[..n][1..] == us[1..][..n - 1];
    } else {
      ExpansionLonger(Append(s, us[0]), us[1..]);
    }
  }

  lemma {:induction false} ExpansionLonger(s: seq<Byte>, us: seq<Token>)
    requires AllReachable(s, us)
    ensures |Expansion(s, us)| >= |s|
    decreases |us|
  {
    if us != [] { ExpansionLonger(Append(s, us[0]), us[1..]); }
  }

  /** A distance that reaches and room for everything leave nothing to stop the decoder. */
  lemma NothingWrong(z: Inflater, ll: seq<nat>, dl: seq<nat>, p: Place, why: Stop, s: seq<Byte>, us: seq<Token>, n: nat,
                     room: Room)
    requires z.Valid() && z.Stopped(ll, dl, p, why)
    requires room == z.RoomNow().(size := room.size) && z.out.Length >= room.size
    requires n < |us| && AllReachable(s, us) && AllReachable(s, us[..n]) && z.Output() == Expansion(s, us[..n])
    requires room.For(|Expansion(s, us)|)
    ensures why != BadDistance(us[n]) && why != NoRoom(us[n])
  {
    hide Took;
    ExpandsTo(s, us, n);
    assert |z.Output()| == z.written;
    var need := z.written + us[n].Size();
    if need > z.out.Length { assert z.CanHold(us[n].Size()); }
  }

  /** What a decoder that has stopped has made of the whole blocks it may have been given. */
  lemma WholeRead(z: Inflater, ll: seq<nat>, dl: seq<nat>, p0: Place, ts: seq<Token>, p: Place, why: Stop,
                  s: seq<Byte>, room: Room)
    requires z.Valid() && LengthsOk(ll) && LengthsOk(dl)
    requires room == z.RoomNow().(size := room.size) && z.out.Length >= room.size
    requires TookAll(ll, dl, p0, ts, p) && z.Stopped(ll, dl, p, why)
    requires AllReachable(s, ts) && z.Output() == Expansion(s, ts)
    ensures ReadsWhole(ll, dl, p0, 8 * |z.bits.data|, ts, why)
    ensures Succeeds(ll, dl, p0, 8 * |z.bits.data|, s, room, why)
  {
    hide Whole;
    hide TookAll;
    hide Inflater.Stopped;
    hide AllReachable;
    hide Expansion;
    var size := 8 * |z.bits.data|;
    forall us | Whole(ll, dl, p0, us, size) ensures Fate(us, ts, why) {
      WholeBlock(z, ll, dl, p0, ts, p, why, us);
    }
    forall us | Whole(ll, dl, p0, us, size) && AllReachable(s, us) && room.For(|Expansion(s, us)|)
      ensures why == Done
    {
      WholeBlock(z, ll, dl, p0, ts, p, why, us);
      if why != Done {
        assert us[..|ts|] == ts;
        NothingWrong(z, ll, dl, p, why, s, us, |ts|, room);
      }
    }
  }

  // ---------------------------------------------------------------- data that ends too early

  /** The decoder complains about the end of the data only when it has taken more than there was. */
  lemma RanOut(z: Inflater, ll: seq<nat>, dl: seq<nat>, p: Place, why: Stop)
    requires z.Valid() && z.Stopped(ll, dl, p, why) && (why == Exhausted || why == UnexpectedEnd)
    ensures z.bits.consumed > 8 * |z.bits.data|
  {
    EndCheckIs(z.bits.Gauge(), z.bits.consumed, 8 * |z.bits.data|);
  }

  /** The readings of a block and its end. */
  ghost function BlockReadings(ll: seq<nat>, dl: seq<nat>, ts: seq<Token>): seq<Reading>
    requires AllOk(ts)
  {
    Readings(ll, dl, ts) + [Symbol(WidthOf(ll, END_OF_BLOCK))]
  }

  /** Exactly when the check at the end of a block is right about the data having ended too early. It misses a block
      that ends within the zeros that its refills put in, of which there are none exactly if every refill finds at least
      25 bits. How many there are follows from where the reader stands before the block, and from the block. */
  lemma EndCheckRightIff(z: Inflater, ll: seq<nat>, dl: seq<nat>, p0: Place, ts: seq<Token>, p: Place, why: Stop)
    requires z.Valid() && TookAll(ll, dl, p0, ts, p) && z.Stopped(ll, dl, p, why)
    requires why == Done || why == UnexpectedEnd
    requires p0.gauge.numBits <= 32
    ensures var rs, size := BlockReadings(ll, dl, ts), 8 * |z.bits.data|;
      var end, zeros := p0.consumed + Total(rs), NextAll(p0.gauge, rs).zeros;
      && z.bits.consumed == end
      && ((why == UnexpectedEnd <==> end > size) <==> !(size < end <= size + zeros))
      && (zeros == p0.gauge.zeros <==> NeverShort(p0.gauge, rs))
  {
    hide Next;
    var last := Symbol(WidthOf(ll, END_OF_BLOCK));
    ReadingsJoin(p0.gauge, Readings(ll, dl, ts), [last]);
    OneReading(p.gauge, last);
    ZerosIff(p0.gauge, BlockReadings(ll, dl, ts));
    EndCheckIs(z.bits.Gauge(), z.bits.consumed, 8 * |z.bits.data|);
  }
}
