/** Byte-addressed memory, with the little-endian words the allocator keeps in it. */
module Memory {
  type Byte = x: int | 0 <= x < 256

  /** The contents of physical memory: a byte at every address. */
  type Mem = nat -> Byte

  function Store(m: Mem, at: nat, bytes: seq<Byte>): Mem {
    (x: nat) => if at <= x < at + |bytes| then bytes[x - at] else m(x)
  }

  function Slice(m: Mem, at: nat, n: nat): (bs: seq<Byte>)
    ensures |bs| == n && forall i :: 0 <= i < n ==> bs[i] == m(at + i)
  {
    seq(n, i requires 0 <= i < n => m(at + i))
  }

  /** The number whose little-endian bytes these are. */
  function Value(bytes: seq<Byte>): nat {
    if bytes == [] then 0 else bytes[0] + 256 * Value(bytes[1..])
  }

  /** Byte `i` of a number, counted from the least significant. */
  function ByteOf(v: nat, i: nat): Byte
    decreases i
  {
    if i == 0 then v % 256 else ByteOf(v / 256, i - 1)
  }

  function Load64(m: Mem, at: nat): nat { Value(Slice(m, at, 8)) }

  function Store64(m: Mem, at: nat, v: nat): Mem {
    Store(m, at, seq(8, i requires 0 <= i < 8 => ByteOf(v, i)))
  }

  /** Both memories agree on `[at, at + n)`. */
  ghost predicate SameOn(m: Mem, m': Mem, at: nat, n: nat) {
    forall x: nat :: at <= x < at + n ==> m(x) == m'(x)
  }

  lemma LoadSame(m: Mem, m': Mem, at: nat)
    requires SameOn(m, m', at, 8)
    ensures Load64(m, at) == Load64(m', at)
  {
    assert Slice(m, at, 8) == Slice(m', at, 8);
  }

  /** The value fits in `n` bytes. */
  predicate Fits(v: nat, n: nat)
    decreases n
  {
    if n == 0 then v == 0 else Fits(v / 256, n - 1)
  }

  lemma {:induction false} ValueOfBytes(v: nat, bytes: seq<Byte>)
    requires Fits(v, |bytes|) && forall i :: 0 <= i < |bytes| ==> bytes[i] == ByteOf(v, i)
    ensures Value(bytes) == v
    decreases |bytes|
  {
    if bytes != [] {
      ValueOfBytes(v / 256, bytes[1..]);
    }
  }

  lemma Fits64(v: nat)
    requires v < 0x1_0000_0000_0000_0000
    ensures Fits(v, 8)
  {
    var v1 := v / 256;
    var v2 := v1 / 256;
    var v3 := v2 / 256;
    var v4 := v3 / 256;
    var v5 := v4 / 256;
    var v6 := v5 / 256;
    var v7 := v6 / 256;
    assert v7 / 256 == 0;
    assert Fits(v7, 1);
    assert Fits(v6, 2);
    assert Fits(v5, 3);
    assert Fits(v4, 4);
    assert Fits(v3, 5);
    assert Fits(v2, 6);
    assert Fits(v1, 7);
  }

  /** A 64-bit word reads back as it was stored. */
  lemma LoadStored(m: Mem, at: nat, v: nat)
    requires v < 0x1_0000_0000_0000_0000
    ensures Load64(Store64(m, at, v), at) == v
  {
    Fits64(v);
    ValueOfBytes(v, Slice(Store64(m, at, v), at, 8));
  }

  /** Storing elsewhere does not disturb a word. */
  lemma LoadBeside(m: Mem, at: nat, bytes: seq<Byte>, other: nat)
    requires other + 8 <= at || at + |bytes| <= other
    ensures Load64(Store(m, at, bytes), other) == Load64(m, other)
  {
    LoadSame(Store(m, at, bytes), m, other);
  }

  lemma LoadElsewhere(m: Mem, at: nat, v: nat, other: nat)
    requires other + 8 <= at || at + 8 <= other
    ensures Load64(Store64(m, at, v), other) == Load64(m, other)
  {
    LoadSame(Store64(m, at, v), m, other);
  }

  lemma ValueBound(bytes: seq<Byte>)
    ensures |bytes| == 8 ==> Value(bytes) < 0x1_0000_0000_0000_0000
  {
    if |bytes| == 8 {
      var b1 := bytes[1..];
      var b2 := b1[1..];
      var b3 := b2[1..];
      var b4 := b3[1..];
      var b5 := b4[1..];
      var b6 := b5[1..];
      var b7 := b6[1..];
      assert b7[1..] == [] && Value(b7) < 0x100;
      assert Value(b6) < 0x1_0000;
      assert Value(b5) < 0x100_0000;
      assert Value(b4) < 0x1_0000_0000;
      assert Value(b3) < 0x100_0000_0000;
      assert Value(b2) < 0x1_0000_0000_0000;
      assert Value(b1) < 0x100_0000_0000_0000;
    }
  }

  lemma LoadBound(m: Mem, at: nat)
    ensures Load64(m, at) < 0x1_0000_0000_0000_0000
  {
    ValueBound(Slice(m, at, 8));
  }
}
