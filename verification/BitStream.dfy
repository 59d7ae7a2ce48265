/** The bit buffer of the zlib reader: a number of bits taken from the front of a little-endian byte stream that goes on
    with zeros for ever. */
module BitStream {
  import opened Bits
  import opened BitReversal
  import opened Gauges
  import opened Huffman
  import opened HuffmanTable
  import opened Memory

  /** The stream whose first `n` bits are in `buffer` and whose other bits are in `bytes`. */
  function StreamOf(buffer: nat, n: nat, bytes: seq<Byte>): nat {
    buffer + Pow2(n) * Value(bytes)
  }

  /** Appending a byte to the buffer leaves the stream as it is. */
  lemma AppendByte(buffer: nat, n: nat, byte: Byte, rest: seq<Byte>)
    requires buffer < Pow2(n)
    ensures Or(buffer, byte * Pow2(n)) < Pow2(n + 8)
    ensures StreamOf(Or(buffer, byte * Pow2(n)), n + 8, rest) == StreamOf(buffer, n, [byte] + rest)
  {
    var p := Pow2(n);
    OrDisjoint(buffer, byte, n);
    EightMore(n);
    MulMono(byte + 1, 256, p);
    OneMore(byte, p);
    assert ([byte] + rest)[1..] == rest;
    ByteFirst(p, byte, Value(rest));
  }

  /** Appending zeros at the end of the data does so too. */
  lemma AppendZeros(buffer: nat, n: nat, k: nat)
    requires buffer < Pow2(n)
    ensures Or(buffer, 0 * Pow2(n)) == buffer < Pow2(n + k)
    ensures StreamOf(buffer, n + k, []) == StreamOf(buffer, n, []) == buffer
  {
    Pow2Mono(n, n + k);
  }

  lemma ByteFirst(p: nat, byte: nat, rest: nat)
    ensures p * (byte + 256 * rest) == byte * p + (256 * p) * rest
  {
    assert p * (byte + 256 * rest) == p * byte + p * (256 * rest);
    assert p * (256 * rest) == (256 * p) * rest;
  }

  /** The low `n` bits of `v`. */
  function Low(v: nat, n: nat): nat
    decreases n
  {
    if n == 0 then 0 else v % 2 + 2 * Low(v / 2, n - 1)
  }

  lemma NoBits(v: nat)
    ensures Low(v, 0) == 0 && Shr(v, 0) == v
  {}

  lemma {:induction false} LowIs(v: nat, n: nat)
    ensures Low(v, n) == v % Pow2(n)
    decreases n
  {
    if n > 0 {
      LowIs(v / 2, n - 1);
      HalfMod(v, n);
    }
  }

  lemma {:induction false} LowBound(v: nat, n: nat)
    ensures Low(v, n) < Pow2(n)
    decreases n
  {
    if n > 0 { LowBound(v / 2, n - 1); }
  }

  /** The low bits of the stream, and the rest of it, are those of the buffer. */
  lemma {:induction false} TakeBits(buffer: nat, n: nat, bytes: seq<Byte>, k: nat)
    requires k <= n && buffer < Pow2(n)
    ensures Shr(buffer, k) < Pow2(n - k)
    ensures Low(StreamOf(buffer, n, bytes), k) == Low(buffer, k)
    ensures Shr(StreamOf(buffer, n, bytes), k) == StreamOf(Shr(buffer, k), n - k, bytes)
    ensures Reverse(StreamOf(buffer, n, bytes), k) == Reverse(buffer, k)
    decreases k
  {
    if k > 0 {
      var m := Pow2(n - 1) * Value(bytes);
      assert Pow2(n) * Value(bytes) == 2 * m by { Doubled(Pow2(n - 1), Value(bytes)); }
      var v := StreamOf(buffer, n, bytes);
      assert v % 2 == buffer % 2 && v / 2 == buffer / 2 + m == StreamOf(buffer / 2, n - 1, bytes);
      TakeBits(buffer / 2, n - 1, bytes, k - 1);
    }
  }

  /** `v` starts with the code of symbol `i` and goes on with `rest`. */
  ghost predicate Decodes(ls: seq<nat>, v: nat, i: nat, rest: nat) {
    Matches(ls, v, i) && rest == Shr(v, ls[i])
  }

  // ---------------------------------------------------------------- what an encoder writes

  /** `n` bits with the value `x`, then `rest`. */
  function Prepend(x: nat, n: nat, rest: nat): nat { x + Pow2(n) * rest }

  lemma {:induction false} TakePrepended(x: nat, n: nat, rest: nat)
    requires x < Pow2(n)
    ensures Low(Prepend(x, n, rest), n) == x && Shr(Prepend(x, n, rest), n) == rest
    decreases n
  {
    if n > 0 {
      var m := Pow2(n - 1) * rest;
      assert Pow2(n) * rest == 2 * m by { Doubled(Pow2(n - 1), rest); }
      var v := Prepend(x, n, rest);
      assert v == x + 2 * m;
      assert v % 2 == x % 2 && v / 2 == x / 2 + m;
      assert x / 2 < Pow2(n - 1);
      TakePrepended(x / 2, n - 1, rest);
    }
  }

  lemma TakeSymbol(ls: seq<nat>, i: nat, rest: nat)
    requires LengthsOk(ls) && Accepted(ls) && i < |ls| && ls[i] > 0
    ensures Matches(ls, EncodeSymbol(ls, i, rest), i) && Shr(EncodeSymbol(ls, i, rest), ls[i]) == rest
  {
    DecodeEncoded(ls, i, rest);
    PlainDecodeIs(ls, EncodeSymbol(ls, i, rest));
    ShrIsDiv(EncodeSymbol(ls, i, rest), ls[i]);
  }

  class BitReader {
    /** The bytes between `zbuffer` and `zbuffer_end` at the start. */
    const data: seq<Byte>
    /** How many of them have been read. */
    var at: nat
    var numBits: nat
    var codeBuffer: nat
    var hitEof: bool
    /** Zero bits put into the buffer by refills that found no more data, and bits taken out of it. */
    ghost var zeros: nat
    ghost var consumed: nat

    ghost predicate Valid()
      reads this
    {
      at <= |data| && codeBuffer < Pow2(numBits) && Balanced(Gauge(), consumed, 8 * |data|)
    }

    ghost function Gauge(): Gauge
      requires at <= |data|
      reads this
    {
      Gauges.Gauge.Gauge(numBits, |data| - at, hitEof, zeros)
    }

    /** Everything still to be read, the first bit lowest. */
    ghost function Stream(): nat
      requires at <= |data|
      reads this
    {
      StreamOf(codeBuffer, numBits, data[at..])
    }

    constructor (data: seq<Byte>)
      ensures Valid() && this.data == data && Stream() == Value(data)
      ensures consumed == 0 && Gauge() == Gauges.Gauge.Gauge(0, |data|, false, 0)
    {
      this.data := data;
      at, numBits, codeBuffer, hitEof := 0, 0, 0, false;
      zeros, consumed := 0, 0;
    }

    /** `stbi__zeof`. */
    predicate AtEnd()
      reads this
    {
      at >= |data|
    }

    /** `stbi__zget8`. */
    method GetByte() returns (byte: Byte)
      requires at <= |data|
      modifies this`at
      ensures byte == if old(at) < |data| then data[old(at)] else 0
      ensures at == if old(at) < |data| then old(at) + 1 else old(at)
    {
      if AtEnd() { return 0; }
      byte := data[at];
      at := at + 1;
    }

    /** `stbi__fill_bits`. The test whether the buffer holds more bits than it should never succeeds. */
    method FillBits()
      requires Valid() && numBits <= 24
      modifies this
      ensures Valid() && numBits > 24 && Stream() == old(Stream())
      ensures consumed == old(consumed) && Gauge() == Filled(old(Gauge()))
    {
      var more := true;
      while more
        invariant Valid() && Stream() == old(Stream()) && consumed == old(consumed)
        invariant Filled(Gauge()) == Filled(old(Gauge()))
        invariant if more then numBits <= 24 else numBits > 24
        decreases 32 - numBits, more
      {
        assert codeBuffer < Pow2(numBits);
        FillByte();
        more := numBits <= 24;
      }
    }

    method FillByte()
      requires Valid() && numBits <= 24
      modifies this
      ensures Valid() && numBits == old(numBits) + 8 && Stream() == old(Stream())
      ensures consumed == old(consumed) && Gauge() == FilledOne(old(Gauge()))
    {
      hide StreamOf;
      hide Or;
      hide Pow2;
      if AtEnd() {
        assert data[at..] == [];
        AppendZeros(codeBuffer, numBits, 8);
        zeros := zeros + 8;
      } else {
        AppendByte(codeBuffer, numBits, data[at], data[at + 1..]);
        assert data[at..] == [data[at]] + data[at + 1..];
      }
      var byte := GetByte();
      codeBuffer := Or(codeBuffer, byte * Pow2(numBits));
      numBits := numBits + 8;
    }

    /** `stbi__zreceive`: the next `n` bits as a number. */
    method Receive(n: nat) returns (k: nat)
      requires Valid() && n <= 24
      modifies this
      ensures Valid() && k == Low(old(Stream()), n) && Stream() == Shr(old(Stream()), n)
      ensures consumed == old(consumed) + n && Gauge() == Next(old(Gauge()), Extra(n))
    {
      hide StreamOf;
      hide Low;
      hide Shr;
      hide Filled;
      if numBits < n { FillBits(); }
      TakeBits(codeBuffer, numBits, data[at..], n);
      AndMask(codeBuffer, n);
      LowIs(codeBuffer, n);
      k := And(codeBuffer, Pow2(n) - 1);
      Drop(n);
    }

    /** Takes `n` bits that are in the buffer out of it. */
    method Drop(n: nat)
      requires Valid() && n <= numBits
      modifies this`codeBuffer, this`numBits, this`consumed
      ensures Valid() && Stream() == Shr(old(Stream()), n) && consumed == old(consumed) + n
      ensures n <= old(numBits) && Gauge() == Taken(old(Gauge()), n)
    {
      TakeBits(codeBuffer, numBits, data[at..], n);
      codeBuffer := Shr(codeBuffer, n);
      numBits := numBits - n;
      consumed := consumed + n;
    }

    /** The stream is over and its padding has been used up. */
    ghost predicate Exhausted()
      reads this
    {
      numBits < 16 && at >= |data| && hitEof
    }

    /** Makes 16 bits available, or reports that there are none. */
    method Refill() returns (ok: bool)
      requires Valid()
      modifies this
      ensures Valid() && Stream() == old(Stream()) && consumed == old(consumed) && Gauge() == Ready(old(Gauge()))
      ensures ok <==> !old(Exhausted())
      ensures if ok then numBits >= 16 else unchanged(this)
    {
      hide StreamOf;
      hide Pow2;
      hide Filled;
      if numBits >= 16 { return true; }
      if !AtEnd() {
        FillBits();
        return true;
      }
      if hitEof { return false; }
      assert data[at..] == [];
      AppendZeros(codeBuffer, numBits, 16);
      hitEof := true;
      numBits := numBits + 16;
      ok := true;
    }

    /** `stbi__zhuffman_decode`: the next symbol, or -1. */
    method Decode(table: Table, ghost ls: seq<nat>) returns (symbol: int)
      requires Valid() && table.BuiltFor(ls)
      modifies this
      ensures Valid() && table.BuiltFor(ls)
      ensures symbol >= 0 ==>
        && Decodes(ls, old(Stream()), symbol, Stream()) && PlainDecode(ls, old(Stream())) == Code(symbol, ls[symbol])
        && consumed == old(consumed) + ls[symbol] && Gauge() == Next(old(Gauge()), Symbol(ls[symbol]))
      ensures symbol < 0 <==> old(Exhausted()) || PlainDecode(ls, old(Stream())) == NoCode
      ensures symbol < 0 ==> Stream() == old(Stream()) && consumed == old(consumed) && Exhausted() == old(Exhausted())
      ensures old(Exhausted()) ==> unchanged(this)
    {
      hide StreamOf;
      hide Pow2;
      hide Reverse;
      hide Slot;
      hide MatchUpTo;
      hide SlotsFor;
      hide RangesFor;
      hide FastFor;
      hide Accepted;
      hide PlainDecode;
      ghost var v := Stream();
      PlainDecodeIs(ls, v);
      var ok := Refill();
      if !ok { return -1; }
      FastLookup(ls, table.fast[..], v);
      LowBitsOfBuffer(codeBuffer, numBits, data[at..]);
      AndMask(codeBuffer, FAST_BITS);
      var b := table.fast[And(codeBuffer, FAST_SIZE - 1)];
      if b != 0 {
        OneDecoded(ls, v, b % FAST_SIZE);
        Drop(b / FAST_SIZE);
        return b % FAST_SIZE;
      }
      symbol := DecodeSlow(table, ls);
    }

    /** `stbi__zhuffman_decode_slowpath`. */
    method DecodeSlow(table: Table, ghost ls: seq<nat>) returns (symbol: int)
      requires Valid() && table.BuiltFor(ls) && numBits >= 16 && !MatchUpTo(ls, Stream(), FAST_BITS)
      modifies this`codeBuffer, this`numBits, this`consumed
      ensures Valid() && table.BuiltFor(ls)
      ensures symbol >= 0 ==>
        && Decodes(ls, old(Stream()), symbol, Stream()) && PlainDecode(ls, old(Stream())) == Code(symbol, ls[symbol])
        && consumed == old(consumed) + ls[symbol] && Gauge() == Taken(old(Gauge()), ls[symbol])
      ensures symbol < 0 ==> unchanged(this) && PlainDecode(ls, old(Stream())) == NoCode
    {
      hide StreamOf;
      hide Pow2;
      hide Reverse;
      hide FastFor;
      hide SlotsFor;
      hide RangesFor;
      hide Accepted;
      hide PlainDecode;
      hide MatchUpTo;
      hide CodeOf;
      BitReverseIs(codeBuffer, 16);
      TakeBits(codeBuffer, numBits, data[at..], 16);
      var s;
      symbol, s := FindSymbol(table, ls, Stream(), BitReverse(codeBuffer, 16));
      if symbol >= 0 { Drop(s); }
    }

    /** The symbol and the length of its code. The slot found always holds a symbol of the length found. */
    static method FindSymbol(table: Table, ghost ls: seq<nat>, ghost v: nat, k: nat) returns (symbol: int, s: nat)
      requires table.BuiltFor(ls) && k == Reverse(v, 16) && !MatchUpTo(ls, v, FAST_BITS)
      ensures symbol >= 0 ==>
        Matches(ls, v, symbol) && ls[symbol] == s <= MAX_LENGTH && PlainDecode(ls, v) == Code(symbol, s)
      ensures symbol < 0 ==> PlainDecode(ls, v) == NoCode
    {
      hide Reverse;
      hide FirstCode;
      hide FirstSymbol;
      hide Count;
      hide MatchUpTo;
      hide FastFor;
      hide Accepted;
      hide PlainDecode;
      s := FindLength(table, ls, v, k);
      if s >= 16 {
        NoneDecoded(ls, v);
        return -1, s;
      }
      ghost var i := SlowLookup(ls, v, s);
      OneDecoded(ls, v, i);
      ShrIsDiv(k, 16 - s);
      var b := Shr(k, 16 - s) - table.firstcode[s] + table.firstsymbol[s];
      assert b == Slot(ls, i) < MAX_SYMBOLS;
      if b >= MAX_SYMBOLS { return -1, s; }
      assert table.size[b] == s;
      if table.size[b] != s { return -1, s; }
      symbol := table.value[b];
    }

    /** The search of the slow path for the length of the code, 16 if there is none. */
    static method FindLength(table: Table, ghost ls: seq<nat>, ghost v: nat, k: nat) returns (s: nat)
      requires table.BuiltFor(ls) && k == Reverse(v, 16) && !MatchUpTo(ls, v, FAST_BITS)
      ensures FAST_BITS < s <= 16 && !MatchUpTo(ls, v, s - 1)
      ensures s < 16 ==> MatchUpTo(ls, v, s)
    {
      hide Reverse;
      hide MatchUpTo;
      hide FastFor;
      hide SlotsFor;
      hide Accepted;
      s := FAST_BITS + 1;
      Pow16();
      while k >= table.maxcode[s]
        invariant FAST_BITS < s <= 16 && !MatchUpTo(ls, v, s - 1)
        decreases 16 - s
      {
        MaxcodeTest(ls, v, s);
        s := s + 1;
      }
      if s < 16 { MaxcodeTest(ls, v, s); }
    }
  }

  lemma LowBitsOfBuffer(buffer: nat, n: nat, bytes: seq<Byte>)
    requires FAST_BITS <= n && buffer < Pow2(n)
    ensures Pow2(FAST_BITS) == FAST_SIZE
    ensures StreamOf(buffer, n, bytes) % FAST_SIZE == buffer % FAST_SIZE
  {
    assert Pow2(FAST_BITS) == FAST_SIZE;
    TakeBits(buffer, n, bytes, FAST_BITS);
    LowIs(buffer, FAST_BITS);
    LowIs(StreamOf(buffer, n, bytes), FAST_BITS);
  }

  lemma NoneDecoded(ls: seq<nat>, v: nat)
    requires LengthsOk(ls) && !MatchUpTo(ls, v, MAX_LENGTH)
    ensures PlainDecode(ls, v) == NoCode
  {
    PlainDecodeIs(ls, v);
  }

  /** A symbol whose code the stream starts with is the one that decoding bit by bit finds. */
  lemma OneDecoded(ls: seq<nat>, v: nat, i: nat)
    requires LengthsOk(ls) && Matches(ls, v, i)
    ensures PlainDecode(ls, v) == Code(i, ls[i]) && ls[i] <= MAX_LENGTH
  {
    PlainDecodeIs(ls, v);
    OneMatch(ls, v, i, PlainDecode(ls, v).symbol);
  }
}
