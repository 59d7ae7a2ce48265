/** The variable-length numbers of section 7.6 of DWARF 5: seven bits to a byte, least significant first, the top bit
    set on all bytes but the last. */
module Leb128 {
  import opened Bits
  import opened Memory

  /** The longest encoding that is read. */
  const MAX_BYTES: nat := 10
  const S64_LIMIT: nat := 0x8000_0000_0000_0000

  datatype Read<T> = Failed | Value(value: T, length: nat)

  /** `128^n`. */
  function Power(n: nat): nat { Pow2(7 * n) }

  lemma PowerNext(n: nat)
    ensures Power(n + 1) == 128 * Power(n) && Power(0) == 1
  {
    assert Pow2(7) == 128;
    Pow2Add(7, 7 * n);
  }

  /** The position of the last byte of the number at the front, or -1. */
  function LastByte(bytes: seq<Byte>, from: nat): (k: int)
    ensures k >= 0 ==> from <= k < |bytes| && k < MAX_BYTES && bytes[k] < 128
    ensures forall j :: from <= j < |bytes| && j < MAX_BYTES && (k < 0 || j < k) ==> bytes[j] >= 128
    decreases MAX_BYTES - from, bytes
  {
    if from >= MAX_BYTES || from >= |bytes| then -1
    else if bytes[from] < 128 then from
    else LastByte(bytes, from + 1)
  }

  /** The number whose seven-bit groups these bytes hold. */
  function Groups(bytes: seq<Byte>): nat {
    if bytes == [] then 0 else bytes[0] % 128 + 128 * Groups(bytes[1..])
  }

  function Unsigned(bytes: seq<Byte>): Read<nat> {
    var k := LastByte(bytes, 0);
    if k < 0 then Failed else Value(Groups(bytes[..k + 1]) % U64_LIMIT, k + 1)
  }

  /** The two's complement value of `g` in `n` groups of seven bits, in 64 bits. */
  function SignedValue(g: nat, n: nat): int {
    if 7 * n < 64 && 2 * g >= Power(n) then g - Power(n)
    else if g % U64_LIMIT >= S64_LIMIT then g % U64_LIMIT - U64_LIMIT
    else g % U64_LIMIT
  }

  function Signed(bytes: seq<Byte>): Read<int> {
    var k := LastByte(bytes, 0);
    if k < 0 then Failed else Value(SignedValue(Groups(bytes[..k + 1]), k + 1), k + 1)
  }

  // ---------------------------------------------------------------- encoding

  /** The shortest encoding. */
  function EncodeUnsigned(v: nat): seq<Byte> {
    if v < 128 then [v] else [v % 128 + 128] + EncodeUnsigned(v / 128)
  }

  function EncodeSigned(v: int): seq<Byte>
    decreases if v < 0 then -v else v
  {
    if -64 <= v < 64 then [v % 128] else [v % 128 + 128] + EncodeSigned(v / 128)
  }

  /** All bytes but the last announce another. */
  ghost predicate Framed(bytes: seq<Byte>) {
    bytes != [] && bytes[|bytes| - 1] < 128 && forall i :: 0 <= i < |bytes| - 1 ==> bytes[i] >= 128
  }

  lemma {:induction false} UnsignedFramed(v: nat)
    ensures Framed(EncodeUnsigned(v)) && Groups(EncodeUnsigned(v)) == v
    decreases v
  {
    if v >= 128 {
      UnsignedFramed(v / 128);
      assert EncodeUnsigned(v)[1..] == EncodeUnsigned(v / 128);
    } else {
      assert EncodeUnsigned(v)[1..] == [];
    }
  }

  lemma {:induction false} UnsignedLength(v: nat, n: nat)
    requires v < Power(n) && n > 0
    ensures |EncodeUnsigned(v)| <= n
    decreases n
  {
    PowerNext(n - 1);
    if v >= 128 { UnsignedLength(v / 128, n - 1); }
  }

  lemma LastOfFramed(e: seq<Byte>, rest: seq<Byte>)
    requires Framed(e) && |e| <= MAX_BYTES
    ensures LastByte(e + rest, 0) == |e| - 1 && (e + rest)[..|e|] == e
  {
    var k := LastByte(e + rest, 0);
    assert (e + rest)[|e| - 1] < 128;
    assert forall j :: 0 <= j < |e| - 1 ==> (e + rest)[j] >= 128;
  }

  /** Reading undoes the shortest encoding of any 64-bit number, whatever follows it. */
  lemma UnsignedRoundTrip(v: nat, rest: seq<Byte>)
    requires v < U64_LIMIT
    ensures Unsigned(EncodeUnsigned(v) + rest) == Value(v, |EncodeUnsigned(v)|)
  {
    UnsignedFramed(v);
    Pow2Values();
    Pow2Mono(64, 70);
    UnsignedLength(v, MAX_BYTES);
    LastOfFramed(EncodeUnsigned(v), rest);
    ModUnique(v, U64_LIMIT, 0, v);
  }

  /** `n` groups of seven bits hold the number in two's complement. */
  ghost predicate InGroups(v: int, n: nat)
    requires n > 0
  {
    0 <= v + Half(n) && v < Half(n)
  }

  function Half(n: nat): nat
    requires n > 0
  {
    Pow2(7 * n - 1)
  }

  lemma HalfNext(n: nat)
    requires n > 0
    ensures Half(n + 1) == 128 * Half(n) && Power(n) == 2 * Half(n) && Half(1) == 64
  {
    assert Pow2(7) == 128 && Pow2(6) == 64;
    Pow2Add(7, 7 * n - 1);
  }

  lemma {:induction false} SignedFramed(v: int)
    ensures var e := EncodeSigned(v);
      && Framed(e) && Groups(e) == (if v >= 0 then v else v + Power(|e|))
      && InGroups(v, |e|)
    decreases if v < 0 then -v else v
  {
    hide Power;
    hide Half;
    var e := EncodeSigned(v);
    if -64 <= v < 64 {
      assert e == [v % 128] && e[1..] == [];
      HalfNext(1);
    } else {
      var w, r := v / 128, v % 128;
      var rest := EncodeSigned(w);
      SignedFramed(w);
      PowerNext(|rest|);
      HalfNext(|rest|);
      HalfNext(|e|);
      assert e == [r + 128] + rest && e[1..] == rest && v == 128 * w + r;
    }
  }

  lemma {:induction false} SignedLength(v: int, n: nat)
    requires n > 0 && InGroups(v, n)
    ensures |EncodeSigned(v)| <= n
    decreases n
  {
    HalfNext(if n > 1 then n - 1 else 1);
    if !(-64 <= v < 64) { SignedLength(v / 128, n - 1); }
  }

  /** The same for signed numbers. */
  lemma SignedRoundTrip(v: int, rest: seq<Byte>)
    requires 0 <= v + S64_LIMIT && v < S64_LIMIT
    ensures Signed(EncodeSigned(v) + rest) == Value(v, |EncodeSigned(v)|)
  {
    var e := EncodeSigned(v);
    SignedFramed(v);
    TenGroups();
    HalfNext(MAX_BYTES);
    HalfNext(|e|);
    SignedLength(v, MAX_BYTES);
    LastOfFramed(e, rest);
    if |e| == MAX_BYTES {
      if v < 0 { ModUnique(v + Power(10), U64_LIMIT, 63, v + U64_LIMIT); } else { ModUnique(v, U64_LIMIT, 0, v); }
    } else {
      Pow2Bounds(7 * |e|);
      ModUnique(Groups(e), U64_LIMIT, 0, Groups(e));
    }
  }

  lemma TenGroups()
    ensures Power(10) == 64 * U64_LIMIT
  {
    Pow2Values();
    assert Pow2(6) == 64;
    Pow2Add(64, 6);
  }

  // ---------------------------------------------------------------- reading group by group

  /** One more byte adds its seven bits above those read before. */
  lemma {:induction false} GroupsNext(bytes: seq<Byte>, b: Byte)
    ensures Groups(bytes + [b]) == Groups(bytes) + (b % 128) * Power(|bytes|)
    ensures Groups(bytes) < Power(|bytes|)
    decreases |bytes|
  {
    PowerNext(0);
    if bytes == [] {
      assert bytes + [b] == [b] && [b][1..] == [];
    } else {
      assert (bytes + [b])[1..] == bytes[1..] + [b];
      GroupsNext(bytes[1..], b);
      PowerNext(|bytes| - 1);
      Scaled(b % 128, Power(|bytes| - 1));
    }
  }

  lemma Scaled(x: nat, p: nat)
    ensures 128 * (x * p) == x * (128 * p)
  {}

  /** A number that goes on for more than ten bytes is not read. */
  lemma TooLong(bytes: seq<Byte>)
    requires |bytes| >= 10 && forall j :: 0 <= j < 10 ==> bytes[j] >= 128
    ensures Unsigned(bytes).Failed? && Signed(bytes).Failed?
  {}

  /** Encodings worked out by hand. */
  lemma Examples()
    ensures EncodeUnsigned(2) == [2] && EncodeUnsigned(127) == [0x7F] && EncodeUnsigned(128) == [0x80, 1]
    ensures EncodeUnsigned(12857) == [0xB9, 0x64] && EncodeUnsigned(624485) == [0xE5, 0x8E, 0x26]
    ensures EncodeSigned(-2) == [0x7E] && EncodeSigned(127) == [0xFF, 0] && EncodeSigned(-127) == [0x81, 0x7F]
    ensures EncodeSigned(-128) == [0x80, 0x7F] && EncodeSigned(-129) == [0xFF, 0x7E]
  {
    assert EncodeUnsigned(4878) == [0x8E, 0x26];
  }
}
