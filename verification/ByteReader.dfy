/** `Byte_Reader`: a cursor over bytes. */
module ByteReader {
  import opened Bits
  import opened BitReversal
  import opened Memory
  import opened Leb128

  const VALUE_MASK: nat := 0x7F
  const CONTINUE_MASK: nat := 0x80
  const SIGN_MASK: nat := 0x40

  lemma {:induction false} AndBit(a: nat, k: nat)
    ensures And(a, Pow2(k)) == if Bit(a, k) == 1 then Pow2(k) else 0
    decreases k
  {
    if a == 0 {
      BitZero(k);
    } else if k > 0 {
      AndBit(a / 2, k - 1);
      assert Pow2(k) / 2 == Pow2(k - 1) && Pow2(k) % 2 == 0;
    } else {
      AndOne(a);
    }
  }

  lemma AndOne(a: nat)
    ensures And(a, 1) == a % 2
  {
    AndMask(a, 1);
    assert Pow2(1) == 2;
  }

  lemma {:induction false} BitIs(n: nat, i: nat)
    ensures Bit(n, i) == (n / Pow2(i)) % 2
    decreases i
  {
    if i > 0 {
      BitIs(n / 2, i - 1);
      HalfMod(n, i);
    }
  }

  /** The three masks, on a byte. */
  lemma ByteMasks(b: Byte)
    ensures And(b, VALUE_MASK) == b % 128
    ensures And(b, CONTINUE_MASK) == 0 <==> b < 128
    ensures b < 128 ==> (And(b, SIGN_MASK) != 0 <==> b >= 64)
  {
    assert Pow2(7) == 128 && Pow2(6) == 64;
    AndMask(b, 7);
    AndBit(b, 7);
    AndBit(b, 6);
    BitIs(b, 7);
    BitIs(b, 6);
  }

  /** Shifting seven bits in above `bytes`, in 64 bits. */
  lemma GroupStep(bytes: seq<Byte>, b: Byte)
    requires |bytes| < MAX_BYTES
    ensures Or(Groups(bytes) % U64_LIMIT, (b % 128) * Power(|bytes|) % U64_LIMIT) == Groups(bytes + [b]) % U64_LIMIT
  {
    hide Or;
    hide Power;
    hide Groups;
    GroupsNext(bytes, b);
    NineGroups(|bytes|);
    InWord(Groups(bytes));
    if |bytes| < 9 { LowGroup(Groups(bytes), b % 128, |bytes|); } else { TopGroup(Groups(bytes), b % 128); }
  }

  lemma NineGroups(k: nat)
    requires k < MAX_BYTES
    ensures Power(k) < U64_LIMIT
  {
    Pow2Bounds(7 * k);
  }

  /** The first nine groups fit. */
  lemma LowGroup(g: nat, x: nat, k: nat)
    requires k < 9 && g < Power(k) && x < 128
    ensures Or(g, x * Power(k) % U64_LIMIT) == (g + x * Power(k)) % U64_LIMIT
  {
    hide Or;
    hide Power;
    PowerNext(k);
    NineGroups(k + 1);
    OrGroup(g, x, k);
    var p, y := Power(k), x * Power(k);
    MulMono(x, 127, p);
    InWord(y);
    InWord(g + y);
  }

  lemma OrGroup(g: nat, x: nat, k: nat)
    requires g < Power(k)
    ensures Or(g, x * Power(k)) == g + x * Power(k)
  {
    OrDisjoint(g, x, 7 * k);
  }

  lemma InWord(x: nat)
    ensures x < U64_LIMIT ==> x % U64_LIMIT == x
  {}

  /** Of the tenth group only one bit fits. */
  lemma TopGroup(g: nat, x: nat)
    requires g < Power(9)
    ensures Or(g, x * Power(9) % U64_LIMIT) == (g + x * Power(9)) % U64_LIMIT
  {
    Pow2Values();
    var p := Power(9);
    assert p == 0x8000_0000_0000_0000;
    ModUnique(x * p, U64_LIMIT, x / 2, (x % 2) * p);
    ModUnique(g + x * p, U64_LIMIT, x / 2, g + (x % 2) * p);
    OrDisjoint(g, x % 2, 63);
  }

  /** Whether the sign bit of the last group is set. */
  lemma SignBit(bytes: seq<Byte>, b: Byte)
    requires b < 128
    ensures 2 * Groups(bytes + [b]) >= Power(|bytes| + 1) <==> b >= 64
    ensures Groups(bytes + [b]) < Power(|bytes| + 1)
  {
    hide Power;
    hide Groups;
    GroupsNext(bytes, b);
    GroupsNext(bytes + [b], 0);
    PowerNext(|bytes|);
    var p, x := Power(|bytes|), b * Power(|bytes|);
    assert b % 128 == b;
    if b >= 64 {
      MulMono(64, b, p);
    } else {
      MulMono(b + 1, 64, p);
      OneMore(b, p);
    }
  }

  lemma NoGroups(bytes: seq<Byte>)
    ensures Groups(bytes[..0]) % U64_LIMIT == 0
  {}

  /** Filling the bits above a negative number with ones. */
  lemma SignFill(g: nat, n: nat)
    requires 0 < n && 7 * n < 64 && g < Power(n)
    ensures Power(n) <= U64_LIMIT
    ensures Or(g % U64_LIMIT, U64_LIMIT - Power(n)) == g + (U64_LIMIT - Power(n))
  {
    hide Or;
    hide Power;
    var ones := HighOnes(n);
    InWord(g);
    OrGroup(g, ones, n);
  }

  /** The complement of a mask of whole groups is a multiple of the next bit. */
  lemma HighOnes(n: nat) returns (ones: nat)
    requires 7 * n < 64
    ensures Power(n) <= U64_LIMIT && U64_LIMIT - Power(n) == ones * Power(n)
  {
    hide Pow2;
    NineGroups(n);
    Pow2Fits(64);
    var p, q := Power(n), Pow2(64 - 7 * n);
    assert p * q == U64_LIMIT by { Pow2Add(7 * n, 64 - 7 * n); }
    ones := q - 1;
    OneMore(ones, p);
    assert q * p == p * q;
  }

  lemma NoBytes(bytes: seq<Byte>)
    requires bytes == []
    ensures Memory.Value(bytes) == 0 < Pow2(0)
  {}

  /** One more byte, in front of all those read before. */
  lemma ByteAbove(bytes: seq<Byte>, b: Byte)
    requires Memory.Value(bytes) < Pow2(8 * |bytes|)
    ensures Or(Memory.Value(bytes), b * Pow2(8 * |bytes|)) == Memory.Value(bytes + [b]) < Pow2(8 * |bytes| + 8)
  {
    hide Or;
    hide Pow2;
    hide Memory.Value;
    ValueNext(bytes, b);
    OrDisjoint(Memory.Value(bytes), b, 8 * |bytes|);
    EightMore(8 * |bytes|);
    MulMono(b + 1, 256, Pow2(8 * |bytes|));
    OneMore(b, Pow2(8 * |bytes|));
  }

  lemma {:induction false} ValueNext(bytes: seq<Byte>, b: Byte)
    ensures Memory.Value(bytes + [b]) == Memory.Value(bytes) + b * Pow2(8 * |bytes|)
    decreases |bytes|
  {
    hide Pow2;
    if bytes == [] {
      assert bytes + [b] == [b] && [b][1..] == [];
      PowerNext(0);
    } else {
      assert (bytes + [b])[1..] == bytes[1..] + [b];
      ValueNext(bytes[1..], b);
      EightMore(8 * |bytes| - 8);
      ScaledByte(b, Pow2(8 * |bytes| - 8));
    }
  }

  lemma ScaledByte(x: nat, p: nat)
    ensures 256 * (x * p) == x * (256 * p)
  {}

  class Reader {
    const source: seq<Byte>
    var offset: nat

    ghost predicate Valid()
      reads this
    {
      offset <= |source|
    }

    constructor (source: seq<Byte>)
      ensures Valid() && this.source == source && offset == 0
    {
      this.source, offset := source, 0;
    }

    /** `read_bool`. */
    method ReadBool() returns (value: bool, ok: bool)
      requires Valid()
      modifies this
      ensures Valid() && (ok <==> old(offset) < |source|)
      ensures if ok then value == (source[old(offset)] != 0) && offset == old(offset) + 1 else offset == old(offset)
    {
      if |source| - offset < 1 { return false, false; }
      value, ok := source[offset] != 0, true;
      offset := offset + 1;
    }

    /** `read_u8`. */
    method ReadByte() returns (value: Byte, ok: bool)
      requires Valid()
      modifies this
      ensures Valid() && (ok <==> old(offset) < |source|)
      ensures if ok then value == source[old(offset)] && offset == old(offset) + 1 else offset == old(offset)
    {
      if |source| - offset < 1 { return 0, false; }
      value, ok := source[offset], true;
      offset := offset + 1;
    }

    /** `read_u16`, `read_u32` and `read_u64`, for `n` bytes. */
    method ReadLittle(n: nat) returns (value: nat, ok: bool)
      requires Valid() && n <= 8
      modifies this
      ensures Valid() && (ok <==> old(offset) + n <= |source|)
      ensures ok ==> value < Pow2(8 * n)
      ensures if ok then value == Memory.Value(source[old(offset)..old(offset) + n]) && offset == old(offset) + n
        else offset == old(offset)
    {
      hide Or;
      hide Pow2;
      hide Memory.Value;
      if |source| - offset < n { return 0, false; }
      NoBytes(source[offset..offset]);
      value := 0;
      for i := 0 to n
        invariant offset == old(offset) && value == Memory.Value(source[offset..offset + i]) < Pow2(8 * i)
      {
        var byte := source[offset + i];
        ByteAbove(source[offset..offset + i], byte);
        assert source[offset..offset + i + 1] == source[offset..offset + i] + [byte];
        value := Or(value, byte * Pow2(8 * i));
      }
      offset := offset + n;
      ok := true;
    }

    /** `skip`, forwards or back to anywhere in the source. */
    method Skip(count: int) returns (ok: bool)
      requires Valid() && 0 <= offset + count
      modifies this
      ensures Valid() && (ok <==> old(offset) + count <= |source|)
      ensures offset == if ok then old(offset) + count else old(offset)
    {
      if |source| - offset < count { return false; }
      offset := offset + count;
      ok := true;
    }

    /** The loop of both number readers: the groups read and the position of the last byte. */
    method ReadGroups() returns (result: nat, shift: nat, ok: bool)
      requires Valid()
      ensures var bytes := source[offset..];
        if ok then LastByte(bytes, 0) == shift && result == Groups(bytes[..shift + 1]) % U64_LIMIT
        else LastByte(bytes, 0) < 0
    {
      hide Or;
      hide And;
      hide Groups;
      hide Pow2;
      ghost var bytes := source[offset..];
      NoGroups(bytes);
      result, shift := 0, 0;
      while true
        invariant 0 <= shift <= |bytes| && shift <= MAX_BYTES
        invariant LastByte(bytes, 0) == LastByte(bytes, shift) && result == Groups(bytes[..shift]) % U64_LIMIT
        decreases MAX_BYTES - shift
      {
        if |source| - offset <= shift { return result, shift, false; }
        if shift >= MAX_BYTES { return result, shift, false; }
        var byte := source[offset + shift];
        ByteMasks(byte);
        GroupStep(bytes[..shift], byte);
        assert bytes[..shift + 1] == bytes[..shift] + [byte];
        result := Or(result, And(byte, VALUE_MASK) * Pow2(shift * 7) % U64_LIMIT);
        if And(byte, CONTINUE_MASK) == 0 { return result, shift, true; }
        shift := shift + 1;
      }
    }

    /** `read_uleb128`. */
    method ReadUnsigned() returns (value: nat, ok: bool)
      requires Valid()
      modifies this
      ensures Valid()
      ensures match Unsigned(source[old(offset)..])
        case Failed => !ok && offset == old(offset)
        case Value(v, n) => ok && value == v && offset == old(offset) + n
    {
      var shift;
      value, shift, ok := ReadGroups();
      if ok { offset := offset + shift + 1; }
    }

    /** `read_sleb128`. */
    method ReadSigned() returns (value: int, ok: bool)
      requires Valid()
      modifies this
      ensures Valid()
      ensures match Signed(source[old(offset)..])
        case Failed => !ok && offset == old(offset)
        case Value(v, n) => ok && value == v && offset == old(offset) + n
    {
      hide Or;
      hide And;
      hide Groups;
      hide Pow2;
      ghost var bytes := source[offset..];
      var result, shift;
      result, shift, ok := ReadGroups();
      if !ok { return 0, false; }
      var last := source[offset + shift];
      ghost var g := Groups(bytes[..shift + 1]);
      assert bytes[..shift + 1] == bytes[..shift] + [last];
      SignBit(bytes[..shift], last);
      ByteMasks(last);
      var count := (shift + 1) * 7;
      if count < 64 {
        SignFill(g, shift + 1);
        Pow2Bounds(count);
        Extended(g, shift + 1);
        if And(last, SIGN_MASK) != 0 { result := Or(result, U64_LIMIT - Pow2(count)); }
      }
      offset := offset + shift + 1;
      value := if result >= Leb128.S64_LIMIT then result - U64_LIMIT else result;
    }
  }

  /** The value in 64 bits, with and without the filling. */
  lemma Extended(g: nat, n: nat)
    requires 0 < n && 7 * n < 64 && g < Power(n)
    ensures g % U64_LIMIT == g < Leb128.S64_LIMIT
    ensures 2 * g >= Power(n) ==> g + (U64_LIMIT - Power(n)) >= Leb128.S64_LIMIT
  {
    Pow2Bounds(7 * n);
    ModUnique(g, U64_LIMIT, 0, g);
  }
}
