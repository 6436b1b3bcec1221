/**
 Machine words as bounded integers: the widths used by the C code, its casts, and the
 bitwise operators on unsigned words.
 A right shift by k is division by Pow2(k); Dafny's division rounds towards minus infinity
 for a positive divisor, which is what an arithmetic shift does.
 */
module Words {

  type Q7 = x: int | -0x80 <= x < 0x80
  type Q15 = x: int | -0x8000 <= x < 0x8000
  type Q31 = x: int | -0x8000_0000 <= x < 0x8000_0000
  type Q63 = x: int | -0x8000_0000_0000_0000 <= x < 0x8000_0000_0000_0000
  type U8 = x: int | 0 <= x < 0x100
  type U16 = x: int | 0 <= x < 0x1_0000
  type U32 = x: int | 0 <= x < 0x1_0000_0000

  /** C's narrowing conversions: the two's complement reading of the low bits of x. */
  function ToQ31(x: int): (r: Q31)
    ensures -0x8000_0000 <= x < 0x8000_0000 ==> r == x
  {
    var m := x % 0x1_0000_0000;
    if m < 0x8000_0000 then m else m - 0x1_0000_0000
  }

  function ToQ63(x: int): (r: Q63)
    ensures -0x8000_0000_0000_0000 <= x < 0x8000_0000_0000_0000 ==> r == x
  {
    var m := x % 0x1_0000_0000_0000_0000;
    if m < 0x8000_0000_0000_0000 then m else m - 0x1_0000_0000_0000_0000
  }

  function ToQ15(x: int): (r: Q15)
    ensures -0x8000 <= x < 0x8000 ==> r == x
  {
    var m := x % 0x1_0000;
    if m < 0x8000 then m else m - 0x1_0000
  }

  function ToQ7(x: int): (r: Q7)
    ensures -0x80 <= x < 0x80 ==> r == x
  {
    var m := x % 0x100;
    if m < 0x80 then m else m - 0x100
  }

  function ToU32(x: int): U32 { x % 0x1_0000_0000 }

  function Min(x: int, y: int): int { if x <= y then x else y }

  function Max(x: int, y: int): int { if x <= y then y else x }

  function Abs(x: int): nat { if x < 0 then -x else x }

  function Clamp(x: int, lo: int, hi: int): int
  {
    if x < lo then lo else if x > hi then hi else x
  }

  function Pow2(k: nat): (p: int)
    ensures p > 0
  {
    if k == 0 then 1 else 2 * Pow2(k - 1)
  }

  lemma {:induction false} Pow2Add(a: nat, b: nat)
    ensures Pow2(a + b) == Pow2(a) * Pow2(b)
  {
    if a == 0 {
    } else {
      Pow2Add(a - 1, b);
      assert Pow2(a + b) == 2 * (Pow2(a - 1) * Pow2(b));
    }
  }

  lemma {:induction false} Pow2Monotone(a: nat, b: nat)
    requires a <= b
    ensures Pow2(a) <= Pow2(b)
    decreases b
  {
    if a == b {
    } else {
      Pow2Monotone(a, b - 1);
    }
  }

  /** The powers of two that occur as constants in the C code. */
  lemma Pow2Values()
    ensures Pow2(0) == 1 && Pow2(1) == 2 && Pow2(3) == 8 && Pow2(4) == 16 && Pow2(7) == 0x80
    ensures Pow2(8) == 0x100 && Pow2(14) == 0x4000 && Pow2(15) == 0x8000 && Pow2(16) == 0x1_0000
    ensures Pow2(24) == 0x100_0000 && Pow2(30) == 0x4000_0000 && Pow2(31) == 0x8000_0000
    ensures Pow2(32) == 0x1_0000_0000
  {
    Pow2Add(8, 8);
    Pow2Add(16, 8);
    Pow2Add(24, 8);
    assert Pow2(16) == 2 * Pow2(15) && Pow2(15) == 2 * Pow2(14);
    assert Pow2(32) == 2 * Pow2(31) && Pow2(31) == 2 * Pow2(30);
  }

  lemma WordWidth()
    ensures Pow2(32) == 0x1_0000_0000
  {
    Pow2Values();
  }

  // ---------------------------------------------------------------- division facts

  lemma MulLe(k: int, x: int, y: int)
    requires k >= 0 && x <= y
    ensures k * x <= k * y
  {
  }

  lemma MulAtLeast(a: int, b: int, d: int)
    requires d >= 0 && a >= b
    ensures a * d >= b * d
  {
  }

  /** Division is determined by its defining inequality. */
  lemma DivUnique(x: int, d: int, q: int, r: int)
    requires d > 0 && x == q * d + r && 0 <= r < d
    ensures x / d == q && x % d == r
  {
    var q', r' := x / d, x % d;
    assert x == q' * d + r' by {
      assert x == d * q' + r';
    }
    assert (q + 1) * d == q * d + d && (q - 1) * d == q * d - d;
    if q' >= q + 1 {
      MulAtLeast(q', q + 1, d);
    } else if q' <= q - 1 {
      MulAtLeast(q - 1, q', d);
    }
  }

  /** q = x / d is the only q with q * d <= x < (q + 1) * d. */
  lemma DivBounds(x: int, d: int)
    requires d > 0
    ensures (x / d) * d <= x < (x / d) * d + d
  {
  }

  lemma DivInRange(x: int, d: int, k: int)
    requires d > 0 && 0 <= x < k * d
    ensures 0 <= x / d < k
  {
  }

  lemma DivMonotone(x: int, y: int, d: int)
    requires d > 0 && x <= y
    ensures x / d <= y / d
  {
    DivBounds(x, d);
    DivBounds(y, d);
    assert (y / d + 1) * d == (y / d) * d + d;
    if x / d >= y / d + 1 {
      MulAtLeast(x / d, y / d + 1, d);
    }
  }

  /** Every cast keeps the low bits, which with its range determines it. */
  lemma CastsKeepLowBits(x: int)
    ensures ToQ7(x) % 0x100 == x % 0x100
    ensures ToQ15(x) % 0x1_0000 == x % 0x1_0000
    ensures ToQ31(x) % 0x1_0000_0000 == ToU32(x) % 0x1_0000_0000 == x % 0x1_0000_0000
    ensures ToQ63(x) % 0x1_0000_0000_0000_0000 == x % 0x1_0000_0000_0000_0000
  {
    SameRemainder(x % 0x100, 0x100);
    SameRemainder(x % 0x1_0000, 0x1_0000);
    SameRemainder(x % 0x1_0000_0000, 0x1_0000_0000);
    SameRemainder(x % 0x1_0000_0000_0000_0000, 0x1_0000_0000_0000_0000);
  }

  lemma SameRemainder(m: int, d: int)
    requires 0 <= m < d
    ensures m % d == m && (m - d) % d == m
  {
    DivUnique(m, d, 0, m);
    DivUnique(m - d, d, -1, m);
  }

  /** Truncation to 32 bits keeps the remainder by a divisor of 2^32. */
  lemma LowOfWord(x: int, d: int, e: int)
    requires d > 0 && d * e == 0x1_0000_0000
    ensures ToU32(x) % d == x % d
  {
    var q, r := x / 0x1_0000_0000, x % 0x1_0000_0000;
    Regrouped(q, e, r / d, d);
    DivUnique(x, d, q * e + r / d, r % d);
  }

  lemma Regrouped(q: int, e: int, s: int, d: int)
    ensures (q * e + s) * d == q * (d * e) + s * d
  {
  }

  /** Dividing by twice m is halving and then dividing by m. */
  lemma HalveThenDivide(x: int, m: int)
    requires m > 0
    ensures x / (2 * m) == (x / 2) / m
    ensures x % (2 * m) == 2 * ((x / 2) % m) + x % 2
  {
    var h := x / 2;
    assert h == (h / m) * m + h % m;
    assert x == (h / m) * (2 * m) + (2 * (h % m) + x % 2);
    DivUnique(x, 2 * m, h / m, 2 * (h % m) + x % 2);
  }

  // ---------------------------------------------------------------- bits

  function Bit(x: nat, i: nat): (b: nat)
    ensures b <= 1
  {
    if i == 0 then x % 2 else Bit(x / 2, i - 1)
  }

  /** A word has no bit above its width. */
  lemma {:induction false} BitOfSmall(x: nat, n: nat, i: nat)
    requires x < Pow2(n) && n <= i
    ensures Bit(x, i) == 0
    decreases i
  {
    if i == 0 {
    } else if n == 0 {
      BitOfSmall(x / 2, 0, i - 1);
    } else {
      BitOfSmall(x / 2, n - 1, i - 1);
    }
  }

  /** The word whose low k bits are those of lo and whose remaining bits are hi. */
  function Join(hi: nat, lo: nat, k: nat): nat
    decreases k
  {
    if k == 0 then hi else 2 * Join(hi, lo / 2, k - 1) + lo % 2
  }

  lemma {:induction false} JoinValue(hi: nat, lo: nat, k: nat)
    requires lo < Pow2(k)
    ensures Join(hi, lo, k) == hi * Pow2(k) + lo
  {
    if k == 0 {
    } else {
      Doubled(hi, Pow2(k - 1));
      JoinValue(hi, lo / 2, k - 1);
    }
  }

  lemma Doubled(h: int, m: int)
    ensures h * (2 * m) == 2 * (h * m)
  {
  }

  lemma QuotientAndRemainder(x: nat, d: int)
    requires d > 0
    ensures x / d >= 0 && 0 <= x % d < d && x == (x / d) * d + x % d
  {
    DivBounds(x, d);
    DivMonotone(0, x, d);
  }

  /** Every word splits at any bit position. */
  lemma SplitWord(x: nat, k: nat)
    ensures x % Pow2(k) < Pow2(k) && x / Pow2(k) >= 0
    ensures x == Join(x / Pow2(k), x % Pow2(k), k)
  {
    QuotientAndRemainder(x, Pow2(k));
    JoinValue(x / Pow2(k), x % Pow2(k), k);
  }

  lemma {:induction false} BitOfJoin(hi: nat, lo: nat, k: nat, i: nat)
    ensures Bit(Join(hi, lo, k), i) == if i < k then Bit(lo, i) else Bit(hi, i - k)
    decreases k
  {
    if k == 0 || i == 0 {
    } else {
      BitOfJoin(hi, lo / 2, k - 1, i - 1);
    }
  }

  /** Bit i is the binary digit of weight 2^i. */
  lemma BitIsDigit(x: nat, i: nat)
    ensures Bit(x, i) == (x / Pow2(i)) % 2
  {
    BitOfShifted(x, i, 0);
  }

  lemma BitOfLow(x: nat, k: nat, i: nat)
    requires i < k
    ensures Bit(x % Pow2(k), i) == Bit(x, i)
  {
    SplitWord(x, k);
    BitOfJoin(x / Pow2(k), x % Pow2(k), k, i);
  }

  lemma BitOfShifted(x: nat, k: nat, i: nat)
    ensures x / Pow2(k) >= 0
    ensures Bit(x / Pow2(k), i) == Bit(x, i + k)
  {
    SplitWord(x, k);
    BitOfJoin(x / Pow2(k), x % Pow2(k), k, i + k);
  }

  /** The highest set bit of a word in [2^n, 2^(n+1)) is bit n. */
  lemma {:induction false} TopBit(x: nat, n: nat)
    requires Pow2(n) <= x < Pow2(n + 1)
    ensures Bit(x, n) == 1
  {
    if n == 0 {
    } else {
      TopBit(x / 2, n - 1);
    }
  }

  /** Words with the same bits are the same word. */
  lemma {:induction false} SameBitsSameWord(x: nat, y: nat, n: nat)
    requires x < Pow2(n) && y < Pow2(n)
    requires forall i: nat :: i < n ==> Bit(x, i) == Bit(y, i)
    ensures x == y
  {
    if n == 0 {
    } else {
      assert Bit(x, 0) == Bit(y, 0);
      forall i: nat | i < n - 1
        ensures Bit(x / 2, i) == Bit(y / 2, i)
      {
        assert Bit(x, i + 1) == Bit(y, i + 1);
      }
      SameBitsSameWord(x / 2, y / 2, n - 1);
    }
  }

  // ---------------------------------------------------------------- bitwise operators

  function And(x: nat, y: nat): nat
  {
    if x == 0 then 0 else 2 * And(x / 2, y / 2) + (if x % 2 == 1 && y % 2 == 1 then 1 else 0)
  }

  function Or(x: nat, y: nat): nat
  {
    if x == 0 then y else 2 * Or(x / 2, y / 2) + (if x % 2 == 1 || y % 2 == 1 then 1 else 0)
  }

  /** The operator ~ on 32-bit words. */
  function Not32(x: U32): U32 { 0xFFFF_FFFF - x }

  /** The conjunction of 2a + b and 2c + d, where b and d are the lowest bits. */
  lemma AndStep(a: nat, b: nat, c: nat, d: nat)
    requires b <= 1 && d <= 1
    ensures And(2 * a + b, 2 * c + d) == 2 * And(a, c) + (if b == 1 && d == 1 then 1 else 0)
  {
    var x, y := 2 * a + b, 2 * c + d;
    assert x / 2 == a && x % 2 == b && y / 2 == c && y % 2 == d;
  }

  lemma {:induction false} AndZero(x: nat)
    ensures And(x, 0) == 0
  {
    if x == 0 {
    } else {
      AndZero(x / 2);
    }
  }

  lemma {:induction false} BitOfAnd(x: nat, y: nat, i: nat)
    ensures Bit(And(x, y), i) == if Bit(x, i) == 1 && Bit(y, i) == 1 then 1 else 0
    decreases i
  {
    AndStep(x / 2, x % 2, y / 2, y % 2);
    if i == 0 {
    } else {
      BitOfAnd(x / 2, y / 2, i - 1);
    }
  }

  lemma {:induction false} BitOfOr(x: nat, y: nat, i: nat)
    ensures Bit(Or(x, y), i) == if Bit(x, i) == 1 || Bit(y, i) == 1 then 1 else 0
    decreases i
  {
    OrZero(y);
    BitOfZero(i);
    if i == 0 {
    } else {
      BitOfOr(x / 2, y / 2, i - 1);
    }
  }

  /** Setting bit k of a word in which it is clear. */
  lemma {:induction false} SetClearBit(hi: nat, lo: nat, k: nat)
    requires lo < Pow2(k)
    ensures Or((2 * hi) * Pow2(k) + lo, Pow2(k)) == (2 * hi + 1) * Pow2(k) + lo
  {
    if k == 0 {
      OrZero(hi);
      assert Or(2 * hi, 1) == 2 * Or(hi, 0) + 1;
    } else {
      var p := Pow2(k - 1);
      Doubled(2 * hi, p);
      Doubled(2 * hi + 1, p);
      SetClearBit(hi, lo / 2, k - 1);
      MulAtLeast(2 * hi, 0, p);
      OrStep((2 * hi) * p + lo / 2, lo % 2, p, 0);
    }
  }

  lemma OrStep(a: nat, b: nat, c: nat, d: nat)
    requires b <= 1 && d <= 1
    ensures Or(2 * a + b, 2 * c + d) == 2 * Or(a, c) + (if b == 1 || d == 1 then 1 else 0)
  {
    var x, y := 2 * a + b, 2 * c + d;
    assert x / 2 == a && x % 2 == b && y / 2 == c && y % 2 == d;
  }

  lemma {:induction false} BitOfZero(i: nat)
    ensures Bit(0, i) == 0
  {
    if i == 0 {
    } else {
      BitOfZero(i - 1);
    }
  }

  /** A disjunction of words of n bits has n bits. */
  lemma {:induction false} OrBound(x: nat, y: nat, n: nat)
    requires x < Pow2(n) && y < Pow2(n)
    ensures Or(x, y) < Pow2(n)
  {
    if n == 0 {
    } else {
      OrBound(x / 2, y / 2, n - 1);
    }
  }

  lemma {:induction false} AndBound(x: nat, y: nat)
    ensures And(x, y) <= x
  {
    if x == 0 {
    } else {
      AndBound(x / 2, y / 2);
    }
  }

  /** Complementing the low n bits complements each of them. */
  lemma {:induction false} BitOfComplement(x: nat, n: nat, i: nat)
    requires x < Pow2(n) && i < n
    ensures Bit(Pow2(n) - 1 - x, i) == 1 - Bit(x, i)
    decreases i
  {
    var y := Pow2(n) - 1 - x;
    assert y / 2 == Pow2(n - 1) - 1 - x / 2 && y % 2 == 1 - x % 2;
    if i == 0 {
    } else {
      BitOfComplement(x / 2, n - 1, i - 1);
    }
  }

  /** Masking with k ones keeps the low k bits. */
  lemma {:induction false} AndLowMask(x: nat, k: nat)
    ensures And(x, Pow2(k) - 1) == x % Pow2(k)
  {
    if k == 0 {
      AndZero(x);
    } else {
      HalveThenDivide(x, Pow2(k - 1));
      AndLowMask(x / 2, k - 1);
      AndStep(x / 2, x % 2, Pow2(k - 1) - 1, 1);
    }
  }

  /** Masking with one bit isolates it. */
  lemma {:induction false} AndSingleBit(x: nat, k: nat)
    ensures And(x, Pow2(k)) == if Bit(x, k) == 1 then Pow2(k) else 0
  {
    if k == 0 {
      AndLowMask(x, 1);
    } else {
      AndStep(x / 2, x % 2, Pow2(k - 1), 0);
      AndSingleBit(x / 2, k - 1);
    }
  }

  /** Masking a word of n bits with the ones from bit k up clears its low k bits. */
  lemma {:induction false} AndHighMask(x: nat, k: nat, n: nat)
    requires k <= n && x < Pow2(n)
    ensures Pow2(k) <= Pow2(n)
    ensures And(x, Pow2(n) - Pow2(k)) == x - x % Pow2(k)
  {
    if k == 0 {
      AndLowMask(x, n);
      DivUnique(x, Pow2(n), 0, x);
      assert x % 1 == 0;
    } else {
      HalveThenDivide(x, Pow2(k - 1));
      AndHighMask(x / 2, k - 1, n - 1);
      AndStep(x / 2, x % 2, Pow2(n - 1) - Pow2(k - 1), 0);
    }
  }

  lemma {:induction false} OrZero(x: nat)
    ensures Or(x, 0) == x
  {
    if x == 0 {
    } else {
      OrZero(x / 2);
    }
  }

  /** Joining two fields that do not overlap is addition. */
  lemma {:induction false} OrDisjoint(hi: nat, lo: nat, k: nat)
    requires lo < Pow2(k)
    ensures Or(hi * Pow2(k), lo) == hi * Pow2(k) + lo
  {
    if k == 0 {
      OrZero(hi);
    } else {
      Doubled(hi, Pow2(k - 1));
      OrDisjoint(hi, lo / 2, k - 1);
    }
  }
}
