/**
 The 32-bit operators of JavaScript on integers (ECMA-262, sections 7.1.6, 7.1.7 and 13.9
 to 13.12): operands are taken modulo 2^32, results are read back as signed, except `>>>`.
 Shifting is written as repeated doubling and halving, which keeps the proofs linear.
 */
module JsBits {

  /** x times 2^n */
  function Double(x: int, n: nat): (r: int)
    ensures x >= 0 ==> r >= x
  {
    if n == 0 then x else 2 * Double(x, n - 1)
  }

  /** x divided by 2^n, rounded down */
  function Halve(x: int, n: nat): (r: int)
    ensures x >= 0 ==> 0 <= r <= x
    decreases n
  {
    if n == 0 then x else Halve(x / 2, n - 1)
  }

  function Pow2(k: nat): (r: nat)
    ensures r > 0
  {
    Double(1, k)
  }

  /** Doubling, a few steps at a time. */
  lemma {:induction false} DoubleAdds(x: int, m: nat, n: nat)
    ensures Double(x, m + n) == Double(Double(x, m), n)
  {
    if n > 0 {
      DoubleAdds(x, m, n - 1);
    }
  }

  function ToUint32(x: int): (r: nat)
    ensures r < 0x1_0000_0000
  {
    x % 0x1_0000_0000
  }

  function ToInt32(x: int): int {
    var u := ToUint32(x);
    if u >= 0x8000_0000 then u - 0x1_0000_0000 else u
  }

  /** Bit-by-bit conjunction of two natural numbers. */
  function AndBits(a: nat, b: nat): nat {
    if a == 0 || b == 0 then 0
    else 2 * AndBits(a / 2, b / 2) + (if a % 2 == 1 && b % 2 == 1 then 1 else 0)
  }

  /** Bit-by-bit disjunction of two natural numbers. */
  function OrBits(a: nat, b: nat): nat {
    if a == 0 then b
    else if b == 0 then a
    else 2 * OrBits(a / 2, b / 2) + (if a % 2 == 1 || b % 2 == 1 then 1 else 0)
  }

  function And(a: int, b: int): int { ToInt32(AndBits(ToUint32(a), ToUint32(b))) }

  function Or(a: int, b: int): int { ToInt32(OrBits(ToUint32(a), ToUint32(b))) }

  /** `x << n` */
  function ShiftLeft(x: int, n: nat): int { ToInt32(Double(x, n % 32)) }

  /** `x >> n`, the sign-propagating shift */
  function ShiftRight(x: int, n: nat): int { Halve(ToInt32(x), n % 32) }

  /** `x >>> n`, the zero-filling shift */
  function ShiftRightUnsigned(x: int, n: nat): int { Halve(ToUint32(x), n % 32) }

  /** A disjunction with a number below 2^k adds it to a multiple of 2^k. */
  lemma {:induction false} OrDisjoint(a: nat, b: nat, k: nat)
    requires b < Pow2(k)
    ensures OrBits(Double(a, k), b) == Double(a, k) + b
  {
    if k > 0 {
      OrDisjoint(a, b / 2, k - 1);
    }
  }

  /** The k low bits are what is left of x above its k-fold halving. */
  lemma {:induction false} AndLowOnes(x: nat, k: nat)
    ensures AndBits(x, Pow2(k) - 1) == x - Double(Halve(x, k), k)
    ensures AndBits(x, Pow2(k) - 1) < Pow2(k)
  {
    if k > 0 {
      DoubleHalf(x, k);
      AndLowOnes(x / 2, k - 1);
    }
  }

  /** Below 2^31 the conversions change nothing. */
  lemma Small(x: nat)
    requires x < 0x8000_0000
    ensures ToUint32(x) == x && ToInt32(x) == x
  {
  }

  lemma SmallOr(a: nat, b: nat)
    requires a < 0x8000_0000 && b < 0x8000_0000 && OrBits(a, b) < 0x8000_0000
    ensures Or(a, b) == OrBits(a, b)
  {
    Small(a);
    Small(b);
    Small(OrBits(a, b));
  }

  lemma SmallAnd(a: nat, b: nat)
    requires a < 0x8000_0000 && b < 0x8000_0000 && AndBits(a, b) < 0x8000_0000
    ensures And(a, b) == AndBits(a, b)
  {
    Small(a);
    Small(b);
    Small(AndBits(a, b));
  }

  lemma SmallShiftLeft(x: nat, n: nat)
    requires n < 32 && Double(x, n) < 0x8000_0000
    ensures ShiftLeft(x, n) == Double(x, n)
  {
    var shifted := Double(x, n);
    assert n % 32 == n;
    Small(shifted);
  }

  lemma SmallShiftRight(x: nat, n: nat)
    requires n < 32 && x < 0x8000_0000
    ensures ShiftRight(x, n) == Halve(x, n)
  {
    assert n % 32 == n;
    Small(x);
  }

  /** Appending n low bits to a number, and taking the two parts out again. */
  lemma AppendBits(high: nat, low: nat, n: nat)
    requires n < 32 && low < Pow2(n) <= 0x8000_0000
    requires Double(high, n) + low < 0x8000_0000
    ensures Or(ShiftLeft(high, n), low) == Double(high, n) + low
    ensures ShiftRight(Double(high, n) + low, n) == high
    ensures And(Double(high, n) + low, Pow2(n) - 1) == low
  {
    var sum := Double(high, n) + low;
    SmallShiftLeft(high, n);
    OrDisjoint(high, low, n);
    SmallOr(Double(high, n), low);
    SmallShiftRight(sum, n);
    HalveOfSum(high, low, n);
    AndLowOnes(sum, n);
    SmallAnd(sum, Pow2(n) - 1);
  }

  /** The two parts of a number with room for m values above its n low bits. */
  lemma SplitBits(x: nat, m: nat, n: nat)
    requires n < 32 && x < Double(m, n) && x < 0x8000_0000 && Pow2(n) <= 0x8000_0000
    ensures 0 <= ShiftRight(x, n) < m
    ensures 0 <= And(x, Pow2(n) - 1) < Pow2(n)
  {
    SmallShiftRight(x, n);
    HalveBound(x, m, n);
    AndLowOnes(x, n);
    SmallAnd(x, Pow2(n) - 1);
  }

  lemma DoubleHalf(x: nat, k: nat)
    requires k > 0
    ensures Double(Halve(x, k), k) == 2 * Double(Halve(x / 2, k - 1), k - 1)
  {
  }

  lemma {:induction false} HalveOfSum(high: nat, low: nat, k: nat)
    requires low < Pow2(k)
    ensures Halve(Double(high, k) + low, k) == high
  {
    if k > 0 {
      HalveOfSum(high, low / 2, k - 1);
    }
  }

  lemma {:induction false} HalveBound(x: nat, m: nat, k: nat)
    requires x < Double(m, k)
    ensures Halve(x, k) < m
  {
    if k > 0 {
      HalveBound(x / 2, m, k - 1);
    }
  }

  /** j ones followed by k zeros */
  function HighMask(j: nat, k: nat): (m: nat)
    ensures m == Pow2(j + k) - Pow2(k)
  {
    if k == 0 then Pow2(j) - 1 else 2 * HighMask(j, k - 1)
  }

  /** Masking away the k low bits of a number that has no bit above the mask. */
  lemma {:induction false} AndHighOnes(x: nat, j: nat, k: nat)
    requires x < Pow2(j + k)
    ensures AndBits(x, HighMask(j, k)) == Double(Halve(x, k), k)
  {
    if k == 0 {
      AndLowOnes(x, j);
      HalveBound(x, 1, j);
      DoubleZero(j);
    } else {
      DoubleHalf(x, k);
      EvenMask(x, HighMask(j, k - 1));
      AndHighOnes(x / 2, j, k - 1);
    }
  }

  lemma {:induction false} DoubleZero(n: nat)
    ensures Double(0, n) == 0
  {
    if n > 0 {
      DoubleZero(n - 1);
    }
  }

  lemma EvenMask(x: nat, m: nat)
    ensures AndBits(x, 2 * m) == 2 * AndBits(x / 2, m)
  {
  }

  lemma {:induction false} DoubleInjective(a: int, b: int, n: nat)
    requires Double(a, n) == Double(b, n)
    ensures a == b
  {
    if n > 0 {
      DoubleInjective(a, b, n - 1);
    }
  }

  /** Halving k times is division by 2^k. */
  lemma {:induction false} HalveIsDivision(x: nat, k: nat)
    ensures Halve(x, k) == x / Pow2(k)
  {
    AndLowOnes(x, k);
    var q, p := Halve(x, k), Pow2(k);
    DoubleIsProduct(q, k);
    DivUnique(x, p, q, x - q * p);
  }

  lemma {:induction false} DoubleIsProduct(x: int, n: nat)
    ensures Double(x, n) == x * Pow2(n)
  {
    if n > 0 {
      DoubleIsProduct(x, n - 1);
    }
  }

  // ---- Integer division

  lemma DivUnique(x: int, m: int, q: int, r: int)
    requires 0 <= r < m
    requires x == q * m + r
    ensures x / m == q && x % m == r
  {
    var q', r' := x / m, x % m;
    assert x == q' * m + r';
    assert (q - q') * m == r' - r;
    if q > q' {
      Grows(m, q - q');
    } else if q < q' {
      Grows(m, q' - q);
    }
  }

  /** Which numbers have the quotient q. */
  lemma QuotientInterval(x: int, m: int, q: int)
    requires m > 0
    ensures x / m == q <==> q * m <= x < q * m + m
  {
    if q * m <= x < q * m + m {
      DivUnique(x, m, q, x - q * m);
    }
  }

  lemma Grows(m: int, d: int)
    requires m > 0 && d >= 1
    ensures d * m >= m
  {
  }

  lemma DivNat(a: nat, b: nat)
    requires b > 0
    ensures a / b >= 0
  {
    var q := a / b;
    assert a == q * b + a % b;
    if q < 0 {
      Grows(b, -q);
    }
  }
}
