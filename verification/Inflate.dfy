/** Compressed blocks: the tokens of section 3.2.5 of RFC 1951, what they stand for, and the decoder's loop over them,
    with its output buffer. */
module Inflate {
  import opened Bits
  import opened Gauges
  import opened Huffman
  import opened Memory
  import opened BitStream

  const UINT_MAX: nat := 0xFFFF_FFFF
  const END_OF_BLOCK: nat := 256

  const LENGTH_BASE: seq<nat> := [
    3, 4, 5, 6, 7, 8, 9, 10, 11, 13, 15, 17, 19, 23, 27, 31, 35, 43, 51, 59,
    67, 83, 99, 115, 131, 163, 195, 227, 258, 0, 0]
  const LENGTH_EXTRA: seq<nat> := [
    0, 0, 0, 0, 0, 0, 0, 0, 1, 1, 1, 1, 2, 2, 2, 2, 3, 3, 3, 3, 4, 4, 4, 4, 5, 5, 5, 5, 0, 0, 0]
  const DISTANCE_BASE: seq<nat> := [
    1, 2, 3, 4, 5, 7, 9, 13, 17, 25, 33, 49, 65, 97, 129, 193,
    257, 385, 513, 769, 1025, 1537, 2049, 3073, 4097, 6145, 8193, 12289, 16385, 24577, 0, 0]
  const DISTANCE_EXTRA: seq<nat> := [
    0, 0, 0, 0, 1, 1, 2, 2, 3, 3, 4, 4, 5, 5, 6, 6, 7, 7, 8, 8, 9, 9, 10, 10, 11, 11, 12, 12, 13, 13, 0, 0]

  // ---------------------------------------------------------------- tokens

  /** A literal byte, or a length and a distance, each as a symbol and the extra bits that follow it. */
  datatype Token =
    | Literal(byte: Byte)
    | Match(length: nat, lengthBits: nat, distance: nat, distanceBits: nat)
  {
    ghost predicate Ok() {
      Match? ==> 257 <= length < 286 && distance < 30
    }

    function Length(): nat
      requires Ok() && Match?
    {
      LENGTH_BASE[length - 257] + lengthBits
    }

    function Distance(): nat
      requires Ok() && Match?
    {
      DISTANCE_BASE[distance] + distanceBits
    }

    /** The number of bytes the token stands for. */
    function Size(): nat
      requires Ok()
    {
      if Literal? then 1 else Length()
    }
  }

  lemma ExtraBits(i: nat, d: nat)
    requires i < 29 && d < 30
    ensures LENGTH_EXTRA[i] <= 5 && LENGTH_BASE[i] >= 3
    ensures DISTANCE_EXTRA[d] <= 13 && DISTANCE_BASE[d] >= 1
  {}

  /** The lengths that the symbols stand for, as section 3.2.5 of RFC 1951 lays them out: 3 is the first, each symbol
      goes on where the one before it ends, the last alone is 258, and after eight lengths on their own the extra bits
      grow by one with every fourth symbol. */
  lemma LengthsInOrder(i: nat)
    requires i < 28
    ensures LENGTH_BASE[0] == 3 && LENGTH_BASE[28] == 258 && LENGTH_EXTRA[28] == 0
    ensures LENGTH_EXTRA[i] == if i < 8 then 0 else (i - 4) / 4
    ensures LENGTH_BASE[i] + Pow2(LENGTH_EXTRA[i]) == if i < 27 then LENGTH_BASE[i + 1] else 259
  {
    SmallPowers();
  }

  /** Distances go on in the same way from 1 to 32768, with one more extra bit for every second symbol. */
  lemma DistancesInOrder(d: nat)
    requires d < 30
    ensures DISTANCE_BASE[0] == 1
    ensures DISTANCE_EXTRA[d] == if d < 4 then 0 else (d - 2) / 2
    ensures DISTANCE_BASE[d] + Pow2(DISTANCE_EXTRA[d]) == if d < 29 then DISTANCE_BASE[d + 1] else 32769
  {
    SmallPowers();
  }

  /** Counting through symbols and extra bits counts through the lengths from 3 on. */
  lemma LengthsCount(t: Token, u: Token)
    requires t.Ok() && u.Ok() && t.Match? && u.Match? && t.length < 285
    requires (u.length == t.length && u.lengthBits == t.lengthBits + 1)
      || (u.length == t.length + 1 && u.lengthBits == 0 && t.length < 284
          && t.lengthBits + 1 == Pow2(LENGTH_EXTRA[t.length - 257]))
    ensures u.Length() == t.Length() + 1
    ensures t.length == 257 && t.lengthBits == 0 ==> t.Length() == 3
  {
    LengthsInOrder(t.length - 257);
  }

  /** And so for distances from 1 on. */
  lemma DistancesCount(t: Token, u: Token)
    requires t.Ok() && u.Ok() && t.Match? && u.Match?
    requires (u.distance == t.distance && u.distanceBits == t.distanceBits + 1)
      || (u.distance == t.distance + 1 && u.distanceBits == 0
          && t.distanceBits + 1 == Pow2(DISTANCE_EXTRA[t.distance]))
    ensures u.Distance() == t.Distance() + 1
    ensures t.distance == 0 && t.distanceBits == 0 ==> t.Distance() == 1
  {
    DistancesInOrder(t.distance);
  }

  lemma SmallPowers()
    ensures Pow2(0) == 1 && Pow2(1) == 2 && Pow2(2) == 4 && Pow2(3) == 8 && Pow2(4) == 16 && Pow2(5) == 32
    ensures Pow2(6) == 64 && Pow2(7) == 128 && Pow2(8) == 256 && Pow2(9) == 512 && Pow2(10) == 1024
    ensures Pow2(11) == 2048 && Pow2(12) == 4096 && Pow2(13) == 8192
  {
    assert Pow2(5) == 32 && Pow2(10) == 1024;
  }

  /** The stream after the length symbol and its extra bits. */
  function AfterLength(ll: seq<nat>, v: nat, t: Token): nat
    requires t.Ok() && t.Match? && t.length < |ll|
  {
    Shr(Shr(v, ll[t.length]), LENGTH_EXTRA[t.length - 257])
  }

  /** Stream `v` starts with token `t`, in the codes with lengths `ll` and `dl`. */
  ghost predicate Starts(ll: seq<nat>, dl: seq<nat>, v: nat, t: Token) {
    && t.Ok()
    && match t
       case Literal(b) => Matches(ll, v, b)
       case Match(l, lb, d, db) =>
         && Matches(ll, v, l) && lb == Low(Shr(v, ll[l]), LENGTH_EXTRA[l - 257])
         && Matches(dl, AfterLength(ll, v, t), d)
         && db == Low(Shr(AfterLength(ll, v, t), dl[d]), DISTANCE_EXTRA[d])
  }

  /** What follows token `t`. */
  ghost function After(ll: seq<nat>, dl: seq<nat>, v: nat, t: Token): nat
    requires Starts(ll, dl, v, t)
  {
    match t
    case Literal(b) => Shr(v, ll[b])
    case Match(l, lb, d, db) => Shr(Shr(AfterLength(ll, v, t), dl[d]), DISTANCE_EXTRA[d])
  }

  /** Stream `v` starts with the tokens `ts`, one after the other. */
  ghost predicate Reads(ll: seq<nat>, dl: seq<nat>, v: nat, ts: seq<Token>)
    decreases |ts|
  {
    ts == [] || (Starts(ll, dl, v, ts[0]) && Reads(ll, dl, After(ll, dl, v, ts[0]), ts[1..]))
  }

  ghost function AfterAll(ll: seq<nat>, dl: seq<nat>, v: nat, ts: seq<Token>): nat
    requires Reads(ll, dl, v, ts)
    decreases |ts|
  {
    if ts == [] then v else AfterAll(ll, dl, After(ll, dl, v, ts[0]), ts[1..])
  }

  lemma {:induction false} ReadOneMore(ll: seq<nat>, dl: seq<nat>, v: nat, ts: seq<Token>, t: Token)
    requires Reads(ll, dl, v, ts) && Starts(ll, dl, AfterAll(ll, dl, v, ts), t)
    ensures Reads(ll, dl, v, ts + [t])
    ensures AfterAll(ll, dl, v, ts + [t]) == After(ll, dl, AfterAll(ll, dl, v, ts), t)
    decreases |ts|
  {
    if ts == [] {
      assert ts + [t] == [t] && [t][1..] == [];
    } else {
      assert (ts + [t])[1..] == ts[1..] + [t];
      ReadOneMore(ll, dl, After(ll, dl, v, ts[0]), ts[1..], t);
    }
  }

  /** At most one token can be read from a stream. */
  lemma OneToken(ll: seq<nat>, dl: seq<nat>, v: nat, t: Token, u: Token)
    requires Starts(ll, dl, v, t) && Starts(ll, dl, v, u)
    ensures t == u
  {
    OneMatch(ll, v, if t.Literal? then t.byte else t.length, if u.Literal? then u.byte else u.length);
    if t.Match? { OneMatch(dl, AfterLength(ll, v, t), t.distance, u.distance); }
  }

  /** A block can be read in one way only. */
  lemma {:induction false} OneBlock(ll: seq<nat>, dl: seq<nat>, v: nat, ts: seq<Token>, us: seq<Token>)
    requires Reads(ll, dl, v, ts) && Matches(ll, AfterAll(ll, dl, v, ts), END_OF_BLOCK)
    requires Reads(ll, dl, v, us) && Matches(ll, AfterAll(ll, dl, v, us), END_OF_BLOCK)
    ensures ts == us
    decreases |ts|
  {
    if ts == [] || us == [] {
      if ts != [] { NotBothEnd(ll, dl, v, ts[0]); }
      if us != [] { NotBothEnd(ll, dl, v, us[0]); }
    } else {
      OneToken(ll, dl, v, ts[0], us[0]);
      OneBlock(ll, dl, After(ll, dl, v, ts[0]), ts[1..], us[1..]);
    }
  }

  lemma NotBothEnd(ll: seq<nat>, dl: seq<nat>, v: nat, t: Token)
    requires Starts(ll, dl, v, t)
    ensures !Matches(ll, v, END_OF_BLOCK)
  {
    if Matches(ll, v, END_OF_BLOCK) {
      OneMatch(ll, v, END_OF_BLOCK, if t.Literal? then t.byte else t.length);
    }
  }

  // ---------------------------------------------------------------- how many bits a block takes

  /** What is read of a match after its length symbol and the extra bits of that. */
  function DistanceReadings(dl: seq<nat>, d: nat): seq<Reading>
    requires d < 30
  {
    [Symbol(WidthOf(dl, d)), Extra(DISTANCE_EXTRA[d])]
  }

  function LengthReadings(ll: seq<nat>, l: nat): seq<Reading>
    requires 257 <= l < 286
  {
    [Symbol(WidthOf(ll, l)), Extra(LENGTH_EXTRA[l - 257])]
  }

  ghost function TokenReadings(ll: seq<nat>, dl: seq<nat>, t: Token): seq<Reading>
    requires t.Ok()
  {
    match t
    case Literal(b) => [Symbol(WidthOf(ll, b))]
    case Match(l, _, d, _) => LengthReadings(ll, l) + DistanceReadings(dl, d)
  }

  ghost predicate AllOk(ts: seq<Token>) {
    forall k :: 0 <= k < |ts| ==> ts[k].Ok()
  }

  ghost function Readings(ll: seq<nat>, dl: seq<nat>, ts: seq<Token>): seq<Reading>
    requires AllOk(ts)
    decreases |ts|
  {
    if ts == [] then [] else TokenReadings(ll, dl, ts[0]) + Readings(ll, dl, ts[1..])
  }

  lemma {:induction false} ReadingsOneMore(ll: seq<nat>, dl: seq<nat>, ts: seq<Token>, t: Token)
    requires AllOk(ts) && t.Ok()
    ensures AllOk(ts + [t]) && Readings(ll, dl, ts + [t]) == Readings(ll, dl, ts) + TokenReadings(ll, dl, t)
    decreases |ts|
  {
    hide TokenReadings;
    if ts == [] {
      assert ts + [t] == [t] && [t][1..] == [];
    } else {
      assert (ts + [t])[1..] == ts[1..] + [t];
      ReadingsOneMore(ll, dl, ts[1..], t);
    }
  }

  lemma {:induction false} ReadsOk(ll: seq<nat>, dl: seq<nat>, v: nat, ts: seq<Token>)
    requires Reads(ll, dl, v, ts)
    ensures AllOk(ts)
    decreases |ts|
  {
    if ts != [] {
      ReadsOk(ll, dl, After(ll, dl, v, ts[0]), ts[1..]);
      assert forall k :: 1 <= k < |ts| ==> ts[k] == ts[1..][k - 1];
    }
  }

  /** Of two readings of one stream, one goes on where the other stops, if that does not stop at the end of a block. */
  lemma {:induction false} ReadsPrefix(ll: seq<nat>, dl: seq<nat>, v: nat, ts: seq<Token>, us: seq<Token>)
    requires Reads(ll, dl, v, ts) && Reads(ll, dl, v, us) && Matches(ll, AfterAll(ll, dl, v, us), END_OF_BLOCK)
    ensures ts <= us
    ensures |ts| < |us| ==> Starts(ll, dl, AfterAll(ll, dl, v, ts), us[|ts|])
    decreases |ts|
  {
    if ts != [] {
      if us == [] {
        NotBothEnd(ll, dl, v, ts[0]);
      } else {
        OneToken(ll, dl, v, ts[0], us[0]);
        ReadsPrefix(ll, dl, After(ll, dl, v, ts[0]), ts[1..], us[1..]);
        assert ts == [ts[0]] + ts[1..] && us == [us[0]] + us[1..];
      }
    }
  }

  /** The first tokens take no more bits than all of them. */
  lemma {:induction false} TotalPrefix(ll: seq<nat>, dl: seq<nat>, us: seq<Token>, n: nat)
    requires AllOk(us) && n < |us|
    ensures AllOk(us[..n]) && us[n].Ok()
    ensures Total(Readings(ll, dl, us[..n])) + Total(TokenReadings(ll, dl, us[n])) <= Total(Readings(ll, dl, us))
    decreases n
  {
    hide TokenReadings;
    var g := Gauge(0, 0, false, 0);
    assert us[1..] == us[1..] && us == [us[0]] + us[1..];
    ReadingsJoin(g, TokenReadings(ll, dl, us[0]), Readings(ll, dl, us[1..]));
    if n > 0 {
      TotalPrefix(ll, dl, us[1..], n - 1);
      assert us[..n][1..] == us[1..][..n - 1];
      ReadingsJoin(g, TokenReadings(ll, dl, us[0]), Readings(ll, dl, us[..n][1..]));
    }
  }

  // ---------------------------------------------------------------- encoding

  /** The extra bits fit, and the symbols have codes. */
  ghost predicate Encodable(ll: seq<nat>, dl: seq<nat>, t: Token) {
    && t.Ok()
    && match t
       case Literal(b) => b < |ll| && ll[b] > 0
       case Match(l, lb, d, db) =>
         && l < |ll| && ll[l] > 0 && lb < Pow2(LENGTH_EXTRA[l - 257])
         && d < |dl| && dl[d] > 0 && db < Pow2(DISTANCE_EXTRA[d])
  }

  function EncodeToken(ll: seq<nat>, dl: seq<nat>, t: Token, rest: nat): nat
    requires Encodable(ll, dl, t)
  {
    match t
    case Literal(b) => EncodeSymbol(ll, b, rest)
    case Match(l, lb, d, db) =>
      EncodeSymbol(ll, l, Prepend(lb, LENGTH_EXTRA[l - 257], EncodeSymbol(dl, d, Prepend(db, DISTANCE_EXTRA[d], rest))))
  }

  function EncodeBlock(ll: seq<nat>, dl: seq<nat>, ts: seq<Token>, rest: nat): nat
    requires forall t <- ts :: Encodable(ll, dl, t)
    requires END_OF_BLOCK < |ll|
    decreases |ts|
  {
    if ts == [] then EncodeSymbol(ll, END_OF_BLOCK, rest)
    else EncodeToken(ll, dl, ts[0], EncodeBlock(ll, dl, ts[1..], rest))
  }

  lemma TakeToken(ll: seq<nat>, dl: seq<nat>, t: Token, rest: nat)
    requires LengthsOk(ll) && Accepted(ll) && LengthsOk(dl) && Accepted(dl) && Encodable(ll, dl, t)
    ensures Starts(ll, dl, EncodeToken(ll, dl, t, rest), t)
    ensures After(ll, dl, EncodeToken(ll, dl, t, rest), t) == rest
  {
    match t
    case Literal(b) => TakeSymbol(ll, b, rest);
    case Match(l, lb, d, db) =>
      var tail := Prepend(db, DISTANCE_EXTRA[d], rest);
      var v2 := EncodeSymbol(dl, d, tail);
      var v1 := Prepend(lb, LENGTH_EXTRA[l - 257], v2);
      TakeSymbol(ll, l, v1);
      TakePrepended(lb, LENGTH_EXTRA[l - 257], v2);
      TakeSymbol(dl, d, tail);
      TakePrepended(db, DISTANCE_EXTRA[d], rest);
  }

  lemma {:induction false} TakeBlock(ll: seq<nat>, dl: seq<nat>, ts: seq<Token>, rest: nat)
    requires LengthsOk(ll) && Accepted(ll) && LengthsOk(dl) && Accepted(dl)
    requires END_OF_BLOCK < |ll| && ll[END_OF_BLOCK] > 0
    requires forall t <- ts :: Encodable(ll, dl, t)
    ensures var v := EncodeBlock(ll, dl, ts, rest);
      && Reads(ll, dl, v, ts) && Decodes(ll, AfterAll(ll, dl, v, ts), END_OF_BLOCK, rest)
    decreases |ts|
  {
    if ts == [] {
      TakeSymbol(ll, END_OF_BLOCK, rest);
    } else {
      TakeBlock(ll, dl, ts[1..], rest);
      TakeToken(ll, dl, ts[0], EncodeBlock(ll, dl, ts[1..], rest));
    }
  }

  /** Reading undoes encoding: the tokens of an encoded block, and no others, are read from it, and what followed it is
      left. */
  lemma BlockRoundTrip(ll: seq<nat>, dl: seq<nat>, ts: seq<Token>, rest: nat, us: seq<Token>)
    requires LengthsOk(ll) && Accepted(ll) && LengthsOk(dl) && Accepted(dl)
    requires END_OF_BLOCK < |ll| && ll[END_OF_BLOCK] > 0
    requires forall t <- ts :: Encodable(ll, dl, t)
    requires var v := EncodeBlock(ll, dl, ts, rest);
      Reads(ll, dl, v, us) && Matches(ll, AfterAll(ll, dl, v, us), END_OF_BLOCK)
    ensures us == ts
    ensures Shr(AfterAll(ll, dl, EncodeBlock(ll, dl, ts, rest), us), ll[END_OF_BLOCK]) == rest
  {
    TakeBlock(ll, dl, ts, rest);
    OneBlock(ll, dl, EncodeBlock(ll, dl, ts, rest), ts, us);
  }

  // ---------------------------------------------------------------- what the tokens stand for

  /** Appends `n` bytes, each the one `distance` bytes back. */
  function Copy(s: seq<Byte>, n: nat, distance: nat): (r: seq<Byte>)
    requires 0 < distance <= |s|
    ensures |r| == |s| + n
    decreases n
  {
    if n == 0 then s else Copy(s + [s[|s| - distance]], n - 1, distance)
  }

  /** An overlapping copy repeats the last `distance` bytes periodically. */
  lemma {:induction false} CopyIsPeriodic(s: seq<Byte>, n: nat, distance: nat)
    requires 0 < distance <= |s|
    ensures Copy(s, n, distance)[..|s|] == s
    ensures forall k :: 0 <= k < n ==> Copy(s, n, distance)[|s| + k] == s[|s| - distance + k % distance]
    decreases n
  {
    if n > 0 {
      var s1 := s + [s[|s| - distance]];
      CopyIsPeriodic(s1, n - 1, distance);
      var r := Copy(s, n, distance);
      assert r[..|s|] == r[..|s1|][..|s|];
      assert r[|s|] == r[..|s1|][|s|];
      forall k | 0 <= k < n ensures r[|s| + k] == s[|s| - distance + k % distance] {
        if k > 0 {
          NextPhase(k - 1, distance);
          assert r[|s1| + (k - 1)] == s1[|s1| - distance + (k - 1) % distance];
        } else {
          ModUnique(0, distance, 0, 0);
        }
      }
    }
  }

  lemma NextPhase(k: nat, d: nat)
    requires d > 0
    ensures 0 <= k % d < d
    ensures (k + 1) % d == if k % d + 1 == d then 0 else k % d + 1
  {
    var q, r := k / d, k % d;
    assert k == q * d + r;
    if r + 1 == d {
      assert (q + 1) * d == q * d + d;
      ModUnique(k + 1, d, q + 1, 0);
    } else {
      ModUnique(k + 1, d, q, r + 1);
    }
  }

  /** The distance does not reach back beyond the start of the output. */
  ghost predicate Reachable(n: nat, t: Token) {
    t.Ok() && (t.Match? ==> 0 < t.Distance() <= n)
  }

  ghost function Append(s: seq<Byte>, t: Token): (r: seq<Byte>)
    requires Reachable(|s|, t)
    ensures |r| == |s| + t.Size()
  {
    match t
    case Literal(b) => s + [b]
    case Match(_, _, _, _) => Copy(s, t.Length(), t.Distance())
  }

  ghost predicate AllReachable(s: seq<Byte>, ts: seq<Token>)
    decreases |ts|
  {
    ts == [] || (Reachable(|s|, ts[0]) && AllReachable(Append(s, ts[0]), ts[1..]))
  }

  /** The output that the tokens stand for, after `s`. */
  ghost function Expansion(s: seq<Byte>, ts: seq<Token>): seq<Byte>
    requires AllReachable(s, ts)
    decreases |ts|
  {
    if ts == [] then s else Expansion(Append(s, ts[0]), ts[1..])
  }

  lemma {:induction false} ExpandOneMore(s: seq<Byte>, ts: seq<Token>, t: Token)
    requires AllReachable(s, ts) && Reachable(|Expansion(s, ts)|, t)
    ensures AllReachable(s, ts + [t]) && Expansion(s, ts + [t]) == Append(Expansion(s, ts), t)
    decreases |ts|
  {
    if ts == [] {
      assert ts + [t] == [t] && [t][1..] == [];
    } else {
      assert (ts + [t])[1..] == ts[1..] + [t];
      ExpandOneMore(Append(s, ts[0]), ts[1..], t);
    }
  }
}
