/** Machine-integer operators over natural numbers: powers of two and the bitwise operators the kernel uses
    for alignment and for finding a buddy. The operators are defined bit by bit; the lemmas relate the bit
    tricks of the source to ordinary arithmetic. */
module Bits {
  const U64_LIMIT: nat := 0x1_0000_0000_0000_0000
  const FOUR_GIB: nat := 0x1_0000_0000

  function Pow2(n: nat): (r: nat)
    ensures r > 0
  {
    if n == 0 then 1 else 2 * Pow2(n - 1)
  }

  function And(a: nat, b: nat): nat {
    if a == 0 || b == 0 then 0
    else 2 * And(a / 2, b / 2) + (if a % 2 == 1 && b % 2 == 1 then 1 else 0)
  }

  function Or(a: nat, b: nat): nat {
    if a == 0 then b else if b == 0 then a
    else 2 * Or(a / 2, b / 2) + (if a % 2 == 1 || b % 2 == 1 then 1 else 0)
  }

  function Xor(a: nat, b: nat): nat {
    if a == 0 then b else if b == 0 then a
    else 2 * Xor(a / 2, b / 2) + (if a % 2 != b % 2 then 1 else 0)
  }

  /** The u64 complement `~a`. */
  function Not64(a: nat): nat
    requires a < U64_LIMIT
  {
    U64_LIMIT - 1 - a
  }

  // ---------------------------------------------------------------- powers of two

  lemma {:induction false} Pow2Add(a: nat, b: nat)
    ensures Pow2(a + b) == Pow2(a) * Pow2(b)
  {
    if a > 0 {
      Pow2Add(a - 1, b);
      MulDouble(Pow2(a - 1), Pow2(b));
    }
  }

  lemma EightMore(n: nat)
    ensures Pow2(n + 8) == 256 * Pow2(n)
  {
    assert Pow2(8) == 256;
    Pow2Add(n, 8);
  }

  lemma MulDouble(p: nat, q: nat)
    ensures (2 * p) * q == 2 * (p * q)
  {}

  lemma {:induction false} Pow2Mono(a: nat, b: nat)
    requires a <= b
    ensures Pow2(a) <= Pow2(b)
    ensures a < b ==> 2 * Pow2(a) <= Pow2(b)
    decreases b - a
  {
    if a < b { Pow2Mono(a + 1, b); }
  }

  lemma Pow2Strict(a: nat, b: nat)
    requires Pow2(a) < Pow2(b)
    ensures a < b
  {
    if b <= a { Pow2Mono(b, a); }
  }

  lemma Pow2Injective(a: nat, b: nat)
    requires Pow2(a) == Pow2(b)
    ensures a == b
  {
    if a < b { Pow2Mono(a, b); } else if b < a { Pow2Mono(b, a); }
  }

  lemma Pow2Values()
    ensures Pow2(12) == 4096 && Pow2(31) == 0x8000_0000 && Pow2(32) == 0x1_0000_0000
    ensures Pow2(52) == 0x10_0000_0000_0000 && Pow2(63) == 0x8000_0000_0000_0000 && Pow2(64) == U64_LIMIT
    ensures Pow2(5) == 32 && Pow2(16) == 0x1_0000
  {
    assert Pow2(4) == 16;
    assert Pow2(8) == 256 by { Pow2Add(4, 4); }
    assert Pow2(16) == 0x1_0000 by { Pow2Add(8, 8); }
    assert Pow2(12) == 4096 by { Pow2Add(8, 4); }
    assert Pow2(32) == 0x1_0000_0000 by { Pow2Add(16, 16); }
    assert Pow2(31) == 0x8000_0000;
    assert Pow2(48) == 0x1_0000_0000_0000 by { Pow2Add(32, 16); }
    assert Pow2(52) == 0x10_0000_0000_0000 by { Pow2Add(48, 4); }
    assert Pow2(64) == U64_LIMIT by { Pow2Add(32, 32); }
    assert Pow2(63) == 0x8000_0000_0000_0000;
  }

  /** Where `2^k` lies among the sizes that matter to the heap. */
  lemma Pow2Bounds(k: nat)
    ensures if k < 12 then Pow2(k) <= 2048 else Pow2(k) >= 4096
    ensures k == 12 <==> Pow2(k) == 4096
    ensures k <= 30 <==> Pow2(k) <= 0x4000_0000
    ensures k == 30 <==> Pow2(k) == 0x4000_0000
    ensures k == 31 <==> Pow2(k) == 0x8000_0000
    ensures k == 32 <==> Pow2(k) == FOUR_GIB
    ensures k >= 32 <==> Pow2(k) >= FOUR_GIB
    ensures k < 52 ==> Pow2(k) < 0x10_0000_0000_0000
    ensures k >= 52 ==> Pow2(k) >= 0x10_0000_0000_0000
    ensures k <= 63 <==> Pow2(k) <= 0x8000_0000_0000_0000
    ensures k == 63 <==> Pow2(k) == 0x8000_0000_0000_0000
    ensures k < 64 <==> Pow2(k) < U64_LIMIT
  {
    Pow2Values();
    Pow2Side(k, 12);
    Pow2Side(k, 30);
    Pow2Side(k, 31);
    Pow2Side(k, 32);
    Pow2Side(k, 52);
    Pow2Side(k, 63);
    Pow2Side(k, 64);
  }

  lemma Pow2Side(k: nat, n: nat)
    ensures k < n ==> 2 * Pow2(k) <= Pow2(n)
    ensures k > n ==> Pow2(k) >= 2 * Pow2(n)
  {
    if k < n { Pow2Mono(k, n); } else { Pow2Mono(n, k); }
  }

  // ---------------------------------------------------------------- remainders by powers of two

  lemma OneMore(n: nat, p: nat)
    ensures (n + 1) * p == n * p + p
  {}

  lemma MulBound(d: int, m: int)
    requires m > 0
    ensures d >= 1 ==> d * m >= m
    ensures d <= -1 ==> d * m <= -m
  {
    if d >= 1 {
      assert (d - 1) * m >= 0;
    } else if d <= -1 {
      assert (-1 - d) * m >= 0;
    }
  }

  /** Euclidean uniqueness, in the form the remainder proofs below need. */
  lemma ModUnique(x: int, m: int, q: int, r: int)
    requires m > 0 && x == q * m + r && 0 <= r < m
    ensures x % m == r && x / m == q
  {
    var d := q - x / m;
    MulBound(d, m);
    assert d * m == x % m - r by {
      assert x == (x / m) * m + x % m;
      assert d * m == q * m - (x / m) * m;
    }
  }

  lemma ModDouble(x: nat, p: nat)
    requires p > 0
    ensures x % (2 * p) == x % p + (if (x / p) % 2 == 1 then p else 0)
    ensures x / (2 * p) == (x / p) / 2
  {
    var q, r := x / p, x % p;
    var h, e := q / 2, q % 2;
    var s := if e == 1 then p else 0;
    assert x == h * (2 * p) + (s + r) by {
      assert x == q * p + r;
      assert q * p == (2 * h + e) * p == h * (2 * p) + e * p;
      assert e * p == s;
    }
    ModUnique(x, 2 * p, h, s + r);
  }

  /** Doubling the modulus either keeps the remainder or adds the old modulus, according to the next bit. */
  lemma ModStep(x: nat, k: nat)
    ensures x % Pow2(k + 1) == x % Pow2(k) + (if (x / Pow2(k)) % 2 == 1 then Pow2(k) else 0)
    ensures x / Pow2(k + 1) == (x / Pow2(k)) / 2
  {
    ModDouble(x, Pow2(k));
  }

  lemma {:induction false} AlignedDown(x: nat, k: nat, j: nat)
    requires j <= k && x % Pow2(k) == 0
    ensures x % Pow2(j) == 0
    decreases k - j
  {
    if j < k {
      ModStep(x, k - 1);
      AlignedDown(x, k - 1, j);
    }
  }

  lemma ModAdd(x: nat, y: nat, m: nat)
    requires m > 0 && x % m == 0
    ensures (x + y) % m == y % m
  {
    assert x + y == (x / m + y / m) * m + y % m by {
      assert x == (x / m) * m;
      assert y == (y / m) * m + y % m;
      assert (x / m + y / m) * m == (x / m) * m + (y / m) * m;
    }
    ModUnique(x + y, m, x / m + y / m, y % m);
  }

  lemma ModSub(x: nat, y: nat, m: nat)
    requires m > 0 && x % m == 0 && y % m == 0 && y <= x
    ensures (x - y) % m == 0
  {
    ModAdd(y, x - y, m);
  }

  // ---------------------------------------------------------------- bit tricks

  /** `a & (2^k - 1)` is the remainder by `2^k`. */
  lemma {:induction false} AndMask(a: nat, k: nat)
    ensures And(a, Pow2(k) - 1) == a % Pow2(k)
  {
    if a == 0 || k == 0 {
    } else {
      AndMask(a / 2, k - 1);
      HalfMod(a, k);
      var m := Pow2(k) - 1;
      assert m == 2 * (Pow2(k - 1) - 1) + 1;
      assert m / 2 == Pow2(k - 1) - 1 && m % 2 == 1;
    }
  }

  lemma HalfMod(a: nat, k: nat)
    requires k > 0
    ensures a % Pow2(k) == 2 * ((a / 2) % Pow2(k - 1)) + a % 2
    ensures a / Pow2(k) == (a / 2) / Pow2(k - 1)
  {
    var p := Pow2(k - 1);
    var h := a / 2;
    var q, r := h / p, h % p;
    assert h == q * p + r;
    assert a == q * (2 * p) + (2 * r + a % 2) by {
      assert q * (2 * p) == 2 * (q * p);
    }
    ModUnique(a, 2 * p, q, 2 * r + a % 2);
  }

  /** `a & ~(2^k - 1)` rounds a value of `width` bits down to a multiple of `2^k`; `mask` is the complement. */
  lemma {:induction false} AndNotMask(a: nat, k: nat, width: nat, mask: nat)
    requires a < Pow2(width) && k <= width
    requires mask + Pow2(k) == Pow2(width)
    ensures And(a, mask) == a - a % Pow2(k)
    decreases width
  {
    if mask == 0 {
      ModUnique(a, Pow2(k), 0, a);
    } else if k == 0 {
      AndAllOnes(a, width);
    } else {
      if k == width { assert false; }
      AndNotMask(a / 2, k - 1, width - 1, mask / 2);
      HalfMod(a, k);
      AndEven(a, mask / 2);
    }
  }

  lemma AndAllOnes(a: nat, width: nat)
    requires a < Pow2(width)
    ensures And(a, Pow2(width) - 1) == a
  {
    AndMask(a, width);
    ModUnique(a, Pow2(width), 0, a);
  }

  lemma AndEven(a: nat, m: nat)
    ensures And(a, 2 * m) == 2 * And(a / 2, m)
  {
    assert (2 * m) / 2 == m && (2 * m) % 2 == 0;
  }

  /** The buddy address: `base ^ 2^k` flips bit k of an address aligned to `2^k`. */
  lemma {:induction false} XorBuddy(base: nat, k: nat)
    requires base % Pow2(k) == 0
    ensures Xor(base, Pow2(k)) == if base % Pow2(k + 1) == 0 then base + Pow2(k) else base - Pow2(k)
    ensures base % Pow2(k + 1) == 0 || (base % Pow2(k + 1) == Pow2(k) && base >= Pow2(k))
  {
    if base == 0 {
      ModUnique(0, Pow2(k + 1), 0, 0);
    } else if k == 0 {
      assert Xor(base, 1) == 2 * Xor(base / 2, 0) + (if base % 2 != 1 then 1 else 0);
    } else {
      HalfMod(base, k);
      HalfMod(base, k + 1);
      XorBuddy(base / 2, k - 1);
      XorEven(base, Pow2(k - 1));
    }
  }

  lemma XorEven(a: nat, m: nat)
    requires a % 2 == 0
    ensures Xor(a, 2 * m) == 2 * Xor(a / 2, m)
  {}

  // ---------------------------------------------------------------- alignment

  /** `align_up(value, alignment)` on u64, with its wrap-around. */
  function AlignUp(value: nat, alignment: nat): nat
    requires 0 < alignment <= U64_LIMIT
  {
    And((value + alignment - 1) % U64_LIMIT, Not64(alignment - 1))
  }

  /** `align_down(value, alignment)` on u64. */
  function AlignDown(value: nat, alignment: nat): nat
    requires 0 < alignment <= U64_LIMIT
  {
    And(value, Not64(alignment - 1))
  }

  lemma Pow2Fits(k: nat)
    requires k <= 64
    ensures Pow2(k) <= Pow2(64) == U64_LIMIT
  {
    Pow2Values();
    Pow2Mono(k, 64);
  }

  lemma SubRemainder(x: nat, m: nat)
    requires m > 0
    ensures (x - x % m) % m == 0
    ensures x - m < x - x % m <= x
  {
    ModUnique(x - x % m, m, x / m, 0);
  }

  lemma AlignDownClears(value: nat, k: nat)
    requires k <= 64 && value < U64_LIMIT
    ensures Pow2(k) <= U64_LIMIT
    ensures AlignDown(value, Pow2(k)) == value - value % Pow2(k)
  {
    Pow2Fits(k);
    AndNotMask(value, k, 64, Not64(Pow2(k) - 1));
  }

  /** Rounding down yields the greatest multiple of the alignment at or below the value. */
  lemma AlignDownIs(value: nat, k: nat)
    requires k <= 64 && value < U64_LIMIT
    ensures Pow2(k) <= U64_LIMIT
    ensures AlignDown(value, Pow2(k)) % Pow2(k) == 0
    ensures value - Pow2(k) < AlignDown(value, Pow2(k)) <= value
  {
    AlignDownClears(value, k);
    SubRemainder(value, Pow2(k));
  }

  /** Rounding up yields the least multiple of the alignment at or above the value, as long as nothing wraps. */
  lemma AlignUpIs(value: nat, k: nat)
    requires k <= 64 && value + Pow2(k) - 1 < U64_LIMIT
    ensures Pow2(k) <= U64_LIMIT
    ensures AlignUp(value, Pow2(k)) % Pow2(k) == 0
    ensures value <= AlignUp(value, Pow2(k)) < value + Pow2(k)
  {
    var top := value + Pow2(k) - 1;
    AlignDownIs(top, k);
    assert top % U64_LIMIT == top;
  }

  /** Two multiples of `m` that are less than `m` apart are equal. */
  lemma MultipleGap(x: nat, y: nat, m: nat)
    requires m > 0 && x % m == 0 && y % m == 0 && x <= y < x + m
    ensures x == y
  {
    ModSub(y, x, m);
    ModUnique(y - x, m, 0, y - x);
  }

  /** Rounding up leaves no multiple of the alignment in between. */
  lemma AlignUpLeast(value: nat, k: nat, bound: nat)
    requires k <= 64 && value + Pow2(k) - 1 < U64_LIMIT
    requires value <= bound && bound % Pow2(k) == 0
    ensures Pow2(k) <= U64_LIMIT
    ensures AlignUp(value, Pow2(k)) <= bound
  {
    AlignUpIs(value, k);
    var r := AlignUp(value, Pow2(k));
    if bound < r {
      MultipleGap(bound, r, Pow2(k));
    }
  }

  // ---------------------------------------------------------------- powers of two recognised and rounded to

  /** `math::is_power_of_two` on ssize. */
  predicate IsPowerOfTwo(value: int) {
    value > 0 && And(value, value - 1) == 0
  }

  function Log2(n: nat): (t: nat)
    requires n > 0
    ensures Pow2(t) <= n < Pow2(t + 1)
  {
    if n == 1 then 0 else 1 + Log2(n / 2)
  }

  lemma {:induction false} AndSelf(a: nat)
    ensures And(a, a) == a
  {
    if a > 0 { AndSelf(a / 2); }
  }

  /** The test `value & (value - 1)` recognises exactly the powers of two. */
  lemma {:induction false} PowerOfTwoTest(value: nat)
    requires value > 0
    ensures IsPowerOfTwo(value) <==> value == Pow2(Log2(value))
  {
    if value == 1 {
    } else if value % 2 == 1 {
      AndSelf(value / 2);
      assert And(value, value - 1) == 2 * And(value / 2, value / 2);
      assert Pow2(Log2(value)) % 2 == 0;
    } else {
      PowerOfTwoTest(value / 2);
      assert (value - 1) / 2 == value / 2 - 1;
      assert And(value, value - 1) == 2 * And(value / 2, value / 2 - 1);
    }
  }

  lemma Log2OfPow2(k: nat)
    ensures Log2(Pow2(k)) == k
  {
    var t := Log2(Pow2(k));
    if t < k { Pow2Mono(t + 1, k); }
    if k < t { Pow2Mono(k, t); }
  }

  /** `n >> k`. */
  function Shr(n: nat, k: nat): nat {
    if k == 0 then n else Shr(n / 2, k - 1)
  }

  /** `n |= n >> shift`. */
  function Smear(n: nat, shift: nat): nat {
    Or(n, Shr(n, shift))
  }

  /** `math::floor_pow2`: smear the top bit downwards, then keep only the top bit. */
  function FloorPow2(n: nat): nat
    requires n < U64_LIMIT
  {
    if n == 0 then 0 else
    var m := Smear(Smear(Smear(Smear(Smear(Smear(n, 1), 2), 4), 8), 16), 32);
    And(m, Not64((m / 2) % U64_LIMIT))
  }

  lemma {:induction false} ShrIsDiv(n: nat, k: nat)
    ensures Shr(n, k) == n / Pow2(k)
  {
    if k > 0 {
      ShrIsDiv(n / 2, k - 1);
      HalfMod(n, k);
    }
  }

  lemma {:induction false} ShrAdd(n: nat, a: nat, b: nat)
    ensures Shr(Shr(n, a), b) == Shr(n, a + b)
  {
    if a > 0 { ShrAdd(n / 2, a - 1, b); }
  }

  lemma {:induction false} OrShift(a: nat, b: nat, k: nat)
    ensures Shr(Or(a, b), k) == Or(Shr(a, k), Shr(b, k))
  {
    if k > 0 {
      OrShift(a / 2, b / 2, k - 1);
      assert Or(a, b) / 2 == Or(a / 2, b / 2);
    }
  }

  lemma {:induction false} OnesShift(w: nat, s: nat)
    requires s <= w
    ensures Shr(Pow2(w) - 1, s) == Pow2(w - s) - 1
  {
    if s > 0 {
      OnesShift(w - 1, s - 1);
      assert (Pow2(w) - 1) / 2 == Pow2(w - 1) - 1;
    }
  }

  lemma {:induction false} ShrBound(m: nat, d: nat, v: nat)
    ensures Shr(m, d) < Pow2(v) <==> m < Pow2(d + v)
  {
    if d > 0 { ShrBound(m / 2, d - 1, v); }
  }

  /** Or-ing ones into the low bits of a number whose upper bits are all ones fills the number with ones. */
  lemma {:induction false} FillLow(x: nat, w: nat, e: nat)
    requires Shr(x, e) == Pow2(w) - 1
    ensures Or(x, Pow2(e) - 1) == Pow2(w + e) - 1
  {
    if e > 0 {
      FillLow(x / 2, w, e - 1);
      var m := Pow2(e) - 1;
      assert m / 2 == Pow2(e - 1) - 1 && m % 2 == 1;
    }
  }

  /** The top `w` of the `c` bits of `n` are ones. */
  ghost predicate TopOnes(n: nat, c: nat, w: nat)
    requires w <= c
  {
    Shr(n, c - w) == Pow2(w) - 1
  }

  lemma SmearStep(n: nat, c: nat, w: nat, v: nat)
    requires w <= v <= c && TopOnes(n, c, w)
    requires v == if 2 * w <= c then 2 * w else c
    ensures TopOnes(Smear(n, w), c, v)
  {
    var d, e := c - v, v - w;
    ShiftedCopy(n, c, w, d, e);
    var x := Shr(n, d);
    assert Shr(x, e) == Pow2(w) - 1 by { ShrAdd(n, d, e); }
    FillLow(x, w, e);
    assert Shr(Smear(n, w), d) == Or(x, Shr(Shr(n, w), d)) by { OrShift(n, Shr(n, w), d); }
  }

  /** The shifted copy covers the next `e` bits with ones. */
  lemma ShiftedCopy(n: nat, c: nat, w: nat, d: nat, e: nat)
    requires w <= c && e <= w && d + e == c - w && TopOnes(n, c, w)
    ensures Shr(Shr(n, w), d) == Pow2(e) - 1
  {
    ShrAdd(n, w, d);
    ShrAdd(n, c - w, w - e);
    OnesShift(w, w - e);
  }

  ghost function Capped(w: nat, c: nat): nat { if w <= c then w else c }

  lemma SmearCapped(n: nat, c: nat, w: nat)
    requires w > 0 && TopOnes(n, c, Capped(w, c))
    ensures TopOnes(Smear(n, w), c, Capped(2 * w, c))
  {
    if w <= c {
      SmearStep(n, c, w, Capped(2 * w, c));
    } else {
      Pow2Mono(c, w);
      ShrBound(n, w, 0);
    }
  }

  /** The bit-smearing `floor_pow2` returns the largest power of two not above its argument. */
  lemma FloorPow2Is(n: nat)
    requires 0 < n < U64_LIMIT
    ensures FloorPow2(n) == Pow2(Log2(n))
    ensures FloorPow2(n) <= n < 2 * FloorPow2(n)
    ensures Log2(n) < 64
  {
    var t := Log2(n);
    assert t < 64 by {
      Pow2Fits(64);
      Pow2Strict(t, 64);
    }
    var c := t + 1;
    assert TopOnes(n, c, Capped(1, c)) by {
      ShrBound(n, t, 1);
      ShrBound(n, t, 0);
    }
    SmearAll(n, c);
    var m := Smear(Smear(Smear(Smear(Smear(Smear(n, 1), 2), 4), 8), 16), 32);
    KeepTopBit(m, t);
  }

  lemma SmearAll(n: nat, c: nat)
    requires 1 <= c <= 64 && TopOnes(n, c, 1)
    ensures Smear(Smear(Smear(Smear(Smear(Smear(n, 1), 2), 4), 8), 16), 32) == Pow2(c) - 1
  {
    var n1 := Smear(n, 1);
    SmearCapped(n, c, 1);
    var n2 := Smear(n1, 2);
    SmearCapped(n1, c, 2);
    var n4 := Smear(n2, 4);
    SmearCapped(n2, c, 4);
    var n8 := Smear(n4, 8);
    SmearCapped(n4, c, 8);
    var n16 := Smear(n8, 16);
    SmearCapped(n8, c, 16);
    SmearCapped(n16, c, 32);
  }

  lemma KeepTopBit(m: nat, t: nat)
    requires t < 64 && m == Pow2(t + 1) - 1
    ensures m / 2 < U64_LIMIT && And(m, Not64((m / 2) % U64_LIMIT)) == Pow2(t)
  {
    assert m / 2 == Pow2(t) - 1;
    Pow2Fits(t);
    Pow2Fits(t + 1);
    assert (m / 2) % U64_LIMIT == m / 2;
    AndNotMask(m, t, 64, Not64(m / 2));
    ModUnique(m, Pow2(t), 1, Pow2(t) - 1);
  }
}
