/** Reading the low bits of a number the other way round: bit by bit, and by the mask-and-shift exchange of
    `stbi__bitreverse16`. */
module BitReversal {
  import opened Bits

  function Bit(n: nat, i: nat): (b: nat)
    ensures b <= 1
    decreases i
  {
    if i == 0 then n % 2 else Bit(n / 2, i - 1)
  }

  /** The low `n` bits of `v` read as a number whose most significant bit is bit 0. */
  function Reverse(v: nat, n: nat): (r: nat)
    ensures r < Pow2(n)
    decreases n
  {
    if n == 0 then 0 else (if v % 2 == 1 then Pow2(n - 1) else 0) + Reverse(v / 2, n - 1)
  }

  /** Reading one bit more. */
  lemma {:induction false} ReverseNext(v: nat, n: nat)
    ensures Reverse(v, n + 1) == 2 * Reverse(v, n) + Bit(v, n)
    decreases n
  {
    if n > 0 { ReverseNext(v / 2, n - 1); }
  }

  lemma {:induction false} ReverseHalves(v: nat, s: nat, n: nat)
    requires s <= n
    ensures Reverse(v, s) * Pow2(n - s) <= Reverse(v, n) < (Reverse(v, s) + 1) * Pow2(n - s)
    decreases n - s
  {
    if s < n {
      ReverseHalves(v, s, n - 1);
      ReverseNext(v, n - 1);
      Twice(Reverse(v, s), Pow2(n - 1 - s));
      Twice(Reverse(v, s) + 1, Pow2(n - 1 - s));
    }
  }

  lemma Twice(a: nat, p: nat)
    ensures a * (2 * p) == 2 * (a * p)
  {}

  /** The first `s` of `n` bits read are the top `s` bits of the number read. */
  lemma ReversePrefix(v: nat, s: nat, n: nat)
    requires s <= n
    ensures Reverse(v, n) / Pow2(n - s) == Reverse(v, s)
  {
    ReverseHalves(v, s, n);
    var p, r := Pow2(n - s), Reverse(v, s);
    assert (r + 1) * p == r * p + p;
    ModUnique(Reverse(v, n), p, r, Reverse(v, n) - r * p);
  }

  /** Only the low bits are read. */
  lemma {:induction false} ReverseLow(v: nat, n: nat)
    ensures Reverse(v % Pow2(n), n) == Reverse(v, n)
    decreases n
  {
    if n > 0 {
      HalfMod(v, n);
      var r := (v / 2) % Pow2(n - 1);
      assert (2 * r + v % 2) / 2 == r && (2 * r + v % 2) % 2 == v % 2;
      ReverseLow(v / 2, n - 1);
    }
  }

  lemma {:induction false} HighBit(x: nat, high: nat, k: nat)
    requires x < Pow2(k) && (high == 0 || high == Pow2(k))
    ensures Reverse(x + high, k) == Reverse(x, k) && Bit(x + high, k) == (if high == 0 then 0 else 1)
    decreases k
  {
    if k == 0 {
      assert x == 0 && Pow2(0) == 1;
    } else {
      assert high / 2 == (if high == 0 then 0 else Pow2(k - 1)) && high == 2 * (high / 2);
      assert (x + high) / 2 == x / 2 + high / 2 && (x + high) % 2 == x % 2;
      HighBit(x / 2, high / 2, k - 1);
    }
  }

  /** Reversing twice gives the number back. */
  lemma {:induction false} ReverseTwice(c: nat, n: nat)
    requires c < Pow2(n)
    ensures Reverse(Reverse(c, n), n) == c
    decreases n
  {
    if n > 0 {
      var r := Reverse(c / 2, n - 1);
      HighBit(r, if c % 2 == 1 then Pow2(n - 1) else 0, n - 1);
      ReverseNext(Reverse(c, n), n - 1);
      ReverseTwice(c / 2, n - 1);
    }
  }

  /** The stream `v` starts with the `s` bits of code `c`, first bit first, exactly when its low bits are `c`
      reversed. */
  lemma StartsWith(v: nat, c: nat, s: nat)
    requires c < Pow2(s)
    ensures v % Pow2(s) == Reverse(c, s) <==> Reverse(v, s) == c
  {
    ReverseLow(v, s);
    ReverseTwice(c, s);
    if Reverse(v, s) == c {
      ModUniqueBound(v, Pow2(s));
      ReverseTwice(v % Pow2(s), s);
    }
  }

  lemma ModUniqueBound(v: nat, m: nat)
    requires m > 0
    ensures 0 <= v % m < m
  {}

  // ---------------------------------------------------------------- mask and shift

  /** Exchanging neighbouring groups of `d` bits; `hi` and `lo` select the odd and the even groups. */
  function Exchange(n: nat, hi: nat, lo: nat, d: nat): nat {
    Or(Shr(And(n, hi), d), And(n, lo) * Pow2(d))
  }

  /** `stbi__bitreverse16`. */
  function BitReverse16(n: nat): nat {
    var n1 := Exchange(n, 0xAAAA, 0x5555, 1);
    var n2 := Exchange(n1, 0xCCCC, 0x3333, 2);
    var n4 := Exchange(n2, 0xF0F0, 0x0F0F, 4);
    Exchange(n4, 0xFF00, 0x00FF, 8)
  }

  /** `stbi__bit_reverse`. */
  function BitReverse(v: nat, bits: nat): nat
    requires bits <= 16
  {
    Shr(BitReverse16(v), 16 - bits)
  }

  lemma {:induction false} BitZero(i: nat)
    ensures Bit(0, i) == 0
    decreases i
  {
    if i > 0 { BitZero(i - 1); }
  }

  lemma {:induction false} BitAnd(a: nat, b: nat, i: nat)
    ensures Bit(And(a, b), i) == Bit(a, i) * Bit(b, i)
    decreases i
  {
    if a == 0 || b == 0 {
      BitZero(i);
    } else if i > 0 {
      BitAnd(a / 2, b / 2, i - 1);
      assert And(a, b) / 2 == And(a / 2, b / 2);
    }
  }

  lemma {:induction false} BitOr(a: nat, b: nat, i: nat)
    ensures Bit(Or(a, b), i) == if Bit(a, i) == 1 || Bit(b, i) == 1 then 1 else 0
    decreases i
  {
    if a == 0 || b == 0 {
      BitZero(i);
    } else if i > 0 {
      BitOr(a / 2, b / 2, i - 1);
      assert Or(a, b) / 2 == Or(a / 2, b / 2);
    }
  }

  /** Or-ing in bits above those that are there adds them. */
  lemma {:induction false} OrDisjoint(a: nat, b: nat, k: nat)
    requires a < Pow2(k)
    ensures Or(a, b * Pow2(k)) == a + b * Pow2(k)
    decreases k
  {
    if k == 0 {
      assert a == 0 && b * Pow2(0) == b;
    } else {
      var m := b * Pow2(k - 1);
      assert b * Pow2(k) == 2 * m by { Twice(b, Pow2(k - 1)); }
      OrDisjoint(a / 2, b, k - 1);
      assert 2 * m / 2 == m && 2 * m % 2 == 0;
    }
  }

  lemma {:induction false} BitShr(n: nat, d: nat, i: nat)
    ensures Bit(Shr(n, d), i) == Bit(n, i + d)
    decreases d
  {
    if d > 0 { BitShr(n / 2, d - 1, i); }
  }

  lemma {:induction false} BitShl(n: nat, d: nat, i: nat)
    ensures Bit(n * Pow2(d), i) == if i < d then 0 else Bit(n, i - d)
    decreases d
  {
    if d > 0 {
      var m := n * Pow2(d - 1);
      assert n * Pow2(d) == 2 * m by { Twice(n, Pow2(d - 1)); }
      if i > 0 {
        BitShl(n, d - 1, i - 1);
        assert 2 * m / 2 == m;
      }
    }
  }

  lemma {:induction false} BitReversed(v: nat, n: nat, i: nat)
    requires i < n
    ensures Bit(Reverse(v, n), i) == Bit(v, n - 1 - i)
    decreases n
  {
    ReverseNext(v, n - 1);
    var r, b := Reverse(v, n - 1), Bit(v, n - 1);
    assert (2 * r + b) / 2 == r && (2 * r + b) % 2 == b;
    if i > 0 { BitReversed(v, n - 1, i - 1); }
  }

  /** Numbers of `k` bits that agree bit by bit are equal. */
  lemma {:induction false} SameBits(a: nat, b: nat, k: nat)
    requires a < Pow2(k) && b < Pow2(k)
    requires forall i :: 0 <= i < k ==> Bit(a, i) == Bit(b, i)
    ensures a == b
    decreases k
  {
    if k > 0 {
      assert Bit(a, 0) == Bit(b, 0);
      forall i | 0 <= i < k - 1 ensures Bit(a / 2, i) == Bit(b / 2, i) { assert Bit(a, i + 1) == Bit(b, i + 1); }
      SameBits(a / 2, b / 2, k - 1);
    }
  }

  /** `hi` and `lo` are the 16-bit masks of the odd and the even groups of `d` bits. */
  ghost predicate Masks(hi: nat, lo: nat, d: nat)
    requires d > 0
  {
    && hi < Pow2(16) && lo < Pow2(16)
    && forall i :: 0 <= i < 16 ==>
      (Bit(hi, i) == if (i / d) % 2 == 1 then 1 else 0) && (Bit(lo, i) == if (i / d) % 2 == 1 then 0 else 1)
  }

  lemma {:induction false} BitAbove(n: nat, k: nat, i: nat)
    requires n < Pow2(k) && k <= i
    ensures Bit(n, i) == 0
    decreases k
  {
    if k == 0 { BitZero(i); } else { BitAbove(n / 2, k - 1, i - 1); }
  }

  /** The bit that an exchange of groups of `d` bits puts at `i`. */
  function Partner(i: nat, d: nat): nat
    requires d > 0
  {
    if (i / d) % 2 == 1 && i >= d then i - d else i + d
  }

  /** One exchange moves each bit to the group next to its own. */
  lemma ExchangeBit(n: nat, hi: nat, lo: nat, d: nat, i: nat)
    requires d > 0 && Masks(hi, lo, d) && i < 16 && Partner(i, d) < 16
    ensures Bit(Exchange(n, hi, lo, d), i) == Bit(n, Partner(i, d))
  {
    hide And;
    hide Or;
    hide Shr;
    hide Bit;
    hide Pow2;
    GroupNext(i, d);
    BitOr(Shr(And(n, hi), d), And(n, lo) * Pow2(d), i);
    BitShr(And(n, hi), d, i);
    BitAnd(n, hi, i + d);
    BitShl(And(n, lo), d, i);
    if i + d >= 16 { BitAbove(hi, 16, i + d); }
    if i >= d {
      BitAnd(n, lo, i - d);
      GroupNext(i - d, d);
    }
  }

  lemma GroupNext(i: nat, d: nat)
    requires d > 0
    ensures (i + d) / d == i / d + 1
    ensures (i / d) % 2 == 1 ==> i >= d
  {
    var q := i / d;
    assert i == q * d + i % d;
    assert (q + 1) * d == q * d + d;
    ModUnique(i + d, d, q + 1, i % d);
    if i < d { ModUnique(i, d, 0, i); }
  }

  lemma {:induction false} OrBound(a: nat, b: nat, k: nat)
    requires a < Pow2(k) && b < Pow2(k)
    ensures Or(a, b) < Pow2(k)
    decreases k
  {
    if a != 0 && b != 0 { OrBound(a / 2, b / 2, k - 1); }
  }

  lemma {:induction false} AndBound(a: nat, b: nat)
    ensures And(a, b) <= b
  {
    if a != 0 && b != 0 { AndBound(a / 2, b / 2); }
  }

  lemma ExchangeBound(n: nat, hi: nat, lo: nat, d: nat)
    requires hi < Pow2(16) && lo * Pow2(d) < Pow2(16)
    ensures Exchange(n, hi, lo, d) < Pow2(16)
  {
    hide And;
    hide Or;
    hide Shr;
    AndBound(n, hi);
    AndBound(n, lo);
    MulMono(And(n, lo), lo, Pow2(d));
    ShrBound(And(n, hi), d, 16);
    Pow2Mono(16, 16 + d);
    OrBound(Shr(And(n, hi), d), And(n, lo) * Pow2(d), 16);
  }

  lemma MulMono(a: nat, b: nat, p: nat)
    requires a <= b
    ensures a * p <= b * p
  {
    assert (b - a) * p >= 0;
  }

  /** The bits of `h` stand above the `k` bits of `l`. */
  lemma {:induction false} BitsAbove(h: nat, l: nat, k: nat, i: nat)
    requires l < Pow2(k)
    ensures Bit(Pow2(k) * h + l, i) == if i < k then Bit(l, i) else Bit(h, i - k)
    decreases k
  {
    if k > 0 {
      MulDouble(Pow2(k - 1), h);
      HalfOf(Pow2(k - 1) * h, l);
      if i > 0 { BitsAbove(h, l / 2, k - 1, i - 1); }
    }
  }

  lemma HalfOf(m: nat, l: nat)
    ensures (2 * m + l) / 2 == m + l / 2 && (2 * m + l) % 2 == l % 2
  {}

  lemma HexBit(h: nat, l: nat, i: nat)
    requires l < 16
    ensures Bit(16 * h + l, i) == if i < 4 then Bit(l, i) else Bit(h, i - 4)
  {
    assert Pow2(4) == 16;
    BitsAbove(h, l, 4, i);
  }

  /** Bit `i` of a number of four hexadecimal digits. */
  lemma HexBits(d3: nat, d2: nat, d1: nat, d0: nat, i: nat)
    requires d3 < 16 && d2 < 16 && d1 < 16 && d0 < 16 && i < 16
    ensures var n := 16 * (16 * (16 * d3 + d2) + d1) + d0;
      && n < 0x1_0000
      && Bit(n, i) == Bit(if i < 4 then d0 else if i < 8 then d1 else if i < 12 then d2 else d3, i % 4)
  {
    hide Bit;
    HexBit(16 * (16 * d3 + d2) + d1, d0, i);
    if i >= 4 { HexBit(16 * d3 + d2, d1, i - 4); }
    if i >= 8 { HexBit(d3, d2, i - 8); }
  }

  lemma Digits()
    ensures Bit(0xA, 0) == 0 && Bit(0xA, 1) == 1 && Bit(0xA, 2) == 0 && Bit(0xA, 3) == 1
    ensures Bit(0x5, 0) == 1 && Bit(0x5, 1) == 0 && Bit(0x5, 2) == 1 && Bit(0x5, 3) == 0
    ensures Bit(0xC, 0) == 0 && Bit(0xC, 1) == 0 && Bit(0xC, 2) == 1 && Bit(0xC, 3) == 1
    ensures Bit(0x3, 0) == 1 && Bit(0x3, 1) == 1 && Bit(0x3, 2) == 0 && Bit(0x3, 3) == 0
    ensures Bit(0xF, 0) == 1 && Bit(0xF, 1) == 1 && Bit(0xF, 2) == 1 && Bit(0xF, 3) == 1
    ensures Bit(0x0, 0) == 0 && Bit(0x0, 1) == 0 && Bit(0x0, 2) == 0 && Bit(0x0, 3) == 0
  {}

  lemma Pow16()
    ensures Pow2(16) == 0x1_0000
  {
    Pow2Values();
  }

  lemma MaskTables()
    ensures Masks(0xAAAA, 0x5555, 1) && Masks(0xCCCC, 0x3333, 2)
    ensures Masks(0xF0F0, 0x0F0F, 4) && Masks(0xFF00, 0x00FF, 8)
  {
    Pow16();
    forall i | 0 <= i < 16
      ensures Bit(0xAAAA, i) == i % 2 && Bit(0x5555, i) == 1 - i % 2
      ensures Bit(0xCCCC, i) == (i / 2) % 2 && Bit(0x3333, i) == 1 - (i / 2) % 2
      ensures Bit(0xF0F0, i) == (i / 4) % 2 && Bit(0x0F0F, i) == 1 - (i / 4) % 2
      ensures Bit(0xFF00, i) == (i / 8) % 2 && Bit(0x00FF, i) == 1 - (i / 8) % 2
    {
      MaskBits(i);
    }
  }

  lemma MaskBits(i: nat)
    requires i < 16
    ensures Bit(0xAAAA, i) == i % 2 && Bit(0x5555, i) == 1 - i % 2
    ensures Bit(0xCCCC, i) == (i / 2) % 2 && Bit(0x3333, i) == 1 - (i / 2) % 2
    ensures Bit(0xF0F0, i) == (i / 4) % 2 && Bit(0x0F0F, i) == 1 - (i / 4) % 2
    ensures Bit(0xFF00, i) == (i / 8) % 2 && Bit(0x00FF, i) == 1 - (i / 8) % 2
  {
    SmallMasks(i);
    WideMasks(i);
  }

  lemma SmallMasks(i: nat)
    requires i < 16
    ensures Bit(0xAAAA, i) == i % 2 && Bit(0x5555, i) == 1 - i % 2
    ensures Bit(0xCCCC, i) == (i / 2) % 2 && Bit(0x3333, i) == 1 - (i / 2) % 2
  {
    Digits();
    hide Bit;
    HexBits(0xA, 0xA, 0xA, 0xA, i);
    HexBits(0x5, 0x5, 0x5, 0x5, i);
    HexBits(0xC, 0xC, 0xC, 0xC, i);
    HexBits(0x3, 0x3, 0x3, 0x3, i);
    assert i % 4 == 0 || i % 4 == 1 || i % 4 == 2 || i % 4 == 3;
  }

  lemma WideMasks(i: nat)
    requires i < 16
    ensures Bit(0xF0F0, i) == (i / 4) % 2 && Bit(0x0F0F, i) == 1 - (i / 4) % 2
    ensures Bit(0xFF00, i) == (i / 8) % 2 && Bit(0x00FF, i) == 1 - (i / 8) % 2
  {
    Digits();
    hide Bit;
    HexBits(0xF, 0x0, 0xF, 0x0, i);
    HexBits(0x0, 0xF, 0x0, 0xF, i);
    HexBits(0xF, 0xF, 0x0, 0x0, i);
    HexBits(0x0, 0x0, 0xF, 0xF, i);
    assert i % 4 == 0 || i % 4 == 1 || i % 4 == 2 || i % 4 == 3;
  }

  lemma FinalBound(n: nat)
    ensures Exchange(n, 0xFF00, 0x00FF, 8) < Pow2(16)
  {
    Pow16();
    assert Pow2(8) == 0x100;
    ExchangeBound(n, 0xFF00, 0x00FF, 8);
  }

  /** Each exchange moves the bit by its distance, one way or the other. */
  lemma BitExchanged(n: nat, i: nat)
    requires i < 16
    ensures Bit(BitReverse16(n), i) == Bit(n, 15 - i)
  {
    hide Exchange;
    hide Masks;
    hide Bit;
    MaskTables();
    var n1 := Exchange(n, 0xAAAA, 0x5555, 1);
    var n2 := Exchange(n1, 0xCCCC, 0x3333, 2);
    var n4 := Exchange(n2, 0xF0F0, 0x0F0F, 4);
    ExchangeBit(n4, 0xFF00, 0x00FF, 8, i);
    var j := Partner(i, 8);
    ExchangeBit(n2, 0xF0F0, 0x0F0F, 4, j);
    var k := Partner(j, 4);
    ExchangeBit(n1, 0xCCCC, 0x3333, 2, k);
    var l := Partner(k, 2);
    ExchangeBit(n, 0xAAAA, 0x5555, 1, l);
  }

  /** Four exchanges reverse the low 16 bits, whatever lies above them. */
  lemma BitReverse16Is(n: nat)
    ensures BitReverse16(n) == Reverse(n, 16)
  {
    hide Exchange;
    hide Bit;
    hide Reverse;
    Pow16();
    FinalBound(Exchange(Exchange(Exchange(n, 0xAAAA, 0x5555, 1), 0xCCCC, 0x3333, 2), 0xF0F0, 0x0F0F, 4));
    forall i | 0 <= i < 16 ensures Bit(BitReverse16(n), i) == Bit(Reverse(n, 16), i) {
      BitReversed(n, 16, i);
      BitExchanged(n, i);
    }
    SameBits(BitReverse16(n), Reverse(n, 16), 16);
  }

  /** The table builder's reversal of a code of `bits` bits. */
  lemma BitReverseIs(v: nat, bits: nat)
    requires bits <= 16
    ensures BitReverse(v, bits) == Reverse(v, bits)
  {
    hide Reverse;
    hide Pow2;
    hide Shr;
    hide Exchange;
    BitReverse16Is(v);
    ShrIsDiv(Reverse(v, 16), 16 - bits);
    ReversePrefix(v, bits, 16);
  }
}
