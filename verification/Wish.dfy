/**
 `progress_percent` (backend/app/schemas/wish.py): the share of a wish that is funded,
 computed through a quotient that Python's decimal context first rounds to 28 digits.
 Amounts are in cents; Numeric(10,2) bounds them below MONEY_LIMIT.
 */
module Wish {
  import opened Decimals

  const MONEY_LIMIT := 10_000_000_000
  const DIGITS_28 := 1_000_000_000_000_000_000_000_000_000

  /** Decimal places the 28-digit context keeps for num/den: the first that yield 28 digits. */
  function Places(num: nat, den: nat): nat
    requires num > 0
    decreases DIGITS_28 * den - num
  {
    if num >= DIGITS_28 * den then 0 else 1 + Places(10 * num, den)
  }

  /** num / den in the default context: the 28-digit value nearest to the quotient, ties to even. */
  function Quotient(num: int, den: nat): Decimal
    requires den > 0
  {
    if num == 0 then Decimal(0, 0)
    else
      var places := Places(if num < 0 then -num else num, den);
      Decimal(HalfEven(num * Pow10(places), den), places)
  }

  /** Scaling by 100 appends two zeros to the coefficient, so the context does not round again. */
  function TimesHundred(x: Decimal): Decimal {
    x.(coefficient := 100 * x.coefficient)
  }

  function Clamp(percent: int): int {
    if percent < 0 then 0 else if percent > 100 then 100 else percent
  }

  function ProgressPercent(raised: int, target: int): int {
    if target <= 0 then 0
    else
      var percent := TimesHundred(Quotient(raised, target));
      Clamp(HalfUp(percent.coefficient, Pow10(percent.scale)))
  }

  // ── The quotient keeps at least 17 decimal places ────────────────────

  lemma {:induction false} PlacesEnough(num: nat, den: nat)
    requires num > 0
    ensures num * Pow10(Places(num, den)) >= DIGITS_28 * den
    decreases DIGITS_28 * den - num
  {
    if num < DIGITS_28 * den {
      PlacesEnough(10 * num, den);
      Shift(num, Pow10(Places(10 * num, den)));
    }
  }

  /** The quotient keeps 28 significant digits, or is a whole number of at least that many. */
  lemma {:induction false} QuotientDigits(num: nat, den: nat)
    requires num > 0 && den > 0
    ensures num * Pow10(Places(num, den)) >= 1_000_000_000_000_000_000_000_000_000 * den
    ensures Places(num, den) > 0 ==>
              num * Pow10(Places(num, den)) < 10_000_000_000_000_000_000_000_000_000 * den
    decreases DIGITS_28 * den - num
  {
    PlacesEnough(num, den);
    if num < DIGITS_28 * den {
      QuotientDigits(10 * num, den);
      Shift(num, Pow10(Places(10 * num, den)));
    }
  }

  lemma {:induction false} Shift(a: int, b: int)
    ensures 10 * a * b == a * (10 * b)
  {
  }

  const HUNDRED_QUADRILLION := 100_000_000_000_000_000

  lemma {:induction false} UnitSmall(num: nat, den: nat)
    requires 0 < num < MONEY_LIMIT && den > 0
    ensures Pow10(Places(num, den)) > HUNDRED_QUADRILLION
    ensures Pow10(Places(num, den)) % 1000 == 0
  {
    var unit := Pow10(Places(num, den));
    PlacesEnough(num, den);
    if unit <= HUNDRED_QUADRILLION {
      Product(num, MONEY_LIMIT - 1, unit, HUNDRED_QUADRILLION);
    }
    EndsInZeros(Places(num, den));
  }

  lemma {:induction false} Product(a: nat, a': nat, b: nat, b': nat)
    requires a <= a' && b <= b'
    ensures a * b <= a' * b'
  {
  }

  lemma {:induction false} EndsInZeros(n: nat)
    ensures Pow10(n) > 100 ==> Pow10(n) % 1000 == 0
  {
    if n >= 3 {
      assert Pow10(n) == 10 * Pow10(n - 1);
      assert Pow10(n - 1) == 10 * Pow10(n - 2);
      assert Pow10(n - 2) == 10 * Pow10(n - 3);
    } else {
      assert n == 0 || n == 1 || n == 2;
      assert Pow10(0) == 1 && Pow10(1) == 10 && Pow10(2) == 100;
    }
  }

  // ── Two roundings equal one ──────────────────────────────────────────

  lemma {:induction false} TieProduct(a: int, b: int, k: int, odd: int)
    requires 200 * a == odd * b
    ensures a * (200 * k) == b * (odd * k)
  {
    Reassociate(a, k);
    Swap(odd, b, k);
  }

  lemma {:induction false} ExactQuotient(n: int, b: int, q: int)
    requires b > 0 && n == b * q
    ensures HalfEven(n, b) == q
  {
    assert 2 * b * q == 2 * (b * q);
    HalfEvenNearest(n, b, q);
  }

  /** A value half way between two percentages is an exact multiple of the rounding unit. */
  lemma {:induction false} TieIsExact(a: int, b: int, unit: int, m: int)
    requires b > 0 && unit % 1000 == 0
    requires 200 * a == (2 * m - 1) * b
    ensures 200 * HalfEven(a * unit, b) == (2 * m - 1) * unit
  {
    var k, odd := unit / 200, 2 * m - 1;
    assert unit == 200 * k;
    TieProduct(a, b, k, odd);
    ExactQuotient(a * unit, b, odd * k);
    Reassociate(odd, k);
  }

  lemma {:induction false} Reassociate(a: int, k: int)
    ensures a * (200 * k) == (200 * a) * k == 200 * (a * k)
  {
  }

  lemma {:induction false} Swap(x: int, b: int, k: int)
    ensures (x * b) * k == b * (x * k)
  {
  }

  /** Rounding the rounded quotient gives the percentage of the exact one. */
  lemma {:induction false} DoubleRounding(a: int, b: int, unit: int)
    requires a >= 0 && 0 < b < MONEY_LIMIT && unit > HUNDRED_QUADRILLION && unit % 1000 == 0
    ensures HalfUp(100 * HalfEven(a * unit, b), unit) == HalfUp(100 * a, b)
  {
    var q, m := HalfEven(a * unit, b), HalfUp(100 * a, b);
    HalfUpNearest(100 * a, b, m);
    HalfEvenNearest(a * unit, b, q);
    StillNearest(a, b, unit, q, m);
    assert q >= 0 by {
      NonNegative(a, unit, b);
    }
    HalfUpNearest(100 * q, unit, m);
  }

  lemma {:induction false} NonNegative(a: int, unit: int, b: int)
    requires a >= 0 && unit >= 0 && b > 0
    ensures HalfEven(a * unit, b) >= 0
  {
    Product(0, a, 0, unit);
  }

  lemma {:induction false} StillNearest(a: int, b: int, unit: int, q: int, m: int)
    requires 0 < b < MONEY_LIMIT && unit > HUNDRED_QUADRILLION && unit % 1000 == 0
    requires q == HalfEven(a * unit, b)
    requires -b < 2 * b * m - 200 * a <= b
    ensures -unit < 2 * unit * m - 200 * q <= unit
  {
    HalfEvenNearest(a * unit, b, q);
    if 2 * b * m - 200 * a == b {
      Unfold(m, b);
      TieIsExact(a, b, unit, m);
      Unfold(m, unit);
    } else {
      ErrorStaysInside(a, b, unit, q, m);
    }
  }

  lemma {:induction false} Unfold(m: int, b: int)
    ensures (2 * m - 1) * b == 2 * b * m - b
  {
  }

  /** Off a tie, the quotient's error is too small to reach the next half percent. */
  lemma {:induction false} ErrorStaysInside(a: int, b: int, unit: int, q: int, m: int)
    requires 0 < b < MONEY_LIMIT && unit > HUNDRED_QUADRILLION
    requires -b <= 2 * (a * unit) - 2 * b * q <= b
    requires -b < 2 * b * m - 200 * a < b
    ensures -unit < 2 * unit * m - 200 * q < unit
  {
    var d, e, x := 2 * b * m - 200 * a, 2 * (a * unit) - 2 * b * q, 2 * unit * m - 200 * q;
    Combine(a, b, unit, q, m);
    Within(unit, d, b);
    Bounded(b, unit, unit * d + 100 * e, x);
  }

  lemma {:induction false} Bounded(b: int, unit: int, total: int, x: int)
    requires b > 0 && b * x == total && -(unit * b) < total < unit * b
    ensures -unit < x < unit
  {
    assert b * -unit == -(unit * b);
    if x >= unit {
      Ordered(b, unit, x);
    } else if x <= -unit {
      Ordered(b, x, -unit);
    }
  }

  lemma {:induction false} Ordered(c: int, x: int, y: int)
    requires c >= 0 && x <= y
    ensures c * x <= c * y
  {
  }

  lemma {:induction false} Within(unit: int, d: int, b: int)
    requires unit >= 0 && -b < d < b
    ensures unit - unit * b <= unit * d <= unit * b - unit
  {
    Ordered(unit, d, b - 1);
    Ordered(unit, 1 - b, d);
    Distribute(unit, b, -1);
    Distribute(unit, -b, 1);
    assert unit * -b == -(unit * b);
  }

  lemma {:induction false} Combine(a: int, b: int, unit: int, q: int, m: int)
    ensures b * (2 * unit * m - 200 * q)
            == unit * (2 * b * m - 200 * a) + 100 * (2 * (a * unit) - 2 * b * q)
  {
    assert b * (2 * unit * m) == unit * (2 * b * m);
    assert b * (200 * q) == 100 * (2 * b * q);
    assert unit * (200 * a) == 100 * (2 * (a * unit));
    assert b * (2 * unit * m - 200 * q) == b * (2 * unit * m) - b * (200 * q);
    assert unit * (2 * b * m - 200 * a) == unit * (2 * b * m) - unit * (200 * a);
  }

  // ── Main results ─────────────────────────────────────────────────────

  /** For all Numeric(10,2) amounts the percentage is the exact fraction, rounded half up and clamped. */
  lemma {:induction false} ProgressIsExact(raised: int, target: int)
    requires -MONEY_LIMIT < raised < MONEY_LIMIT && 0 < target < MONEY_LIMIT
    ensures ProgressPercent(raised, target) == Clamp(HalfUp(100 * raised, target))
  {
    if raised > 0 {
      UnitSmall(raised, target);
      DoubleRounding(raised, target, Pow10(Places(raised, target)));
    } else if raised < 0 {
      var unit := Pow10(Places(-raised, target));
      var q := HalfEven(raised * unit, target);
      assert raised * unit <= 0;
      NonPositive(raised * unit, target);
      HalfUpNonPositive(100 * q, unit);
      HalfUpNonPositive(100 * raised, target);
    }
  }

  lemma {:induction false} NonPositive(n: int, d: int)
    requires n <= 0 && d > 0
    ensures HalfEven(n, d) <= 0
  {
    var q, r := n / d, n % d;
    assert d * q == n - r;
    Spread(d, q);
  }

  lemma {:induction false} HalfUpNonPositive(n: int, d: int)
    requires n <= 0 && d > 0
    ensures HalfUp(n, d) <= 0
  {
  }

  lemma {:induction false} HalfUpMonotone(n: int, n': int, d: int)
    requires d > 0 && n <= n'
    ensures HalfUp(n, d) <= HalfUp(n', d)
  {
    var k, k' := HalfUp(n, d), HalfUp(n', d);
    HalfUpNearest(n, d, k);
    HalfUpNearest(n', d, k');
    if k > k' {
      Ordered(2 * d, k' + 1, k);
      Distribute(2 * d, k', 1);
    }
  }

  /** More money never shows as less progress. */
  lemma {:induction false} ProgressMonotone(raised: int, more: int, target: int)
    requires -MONEY_LIMIT < raised <= more < MONEY_LIMIT && target < MONEY_LIMIT
    ensures ProgressPercent(raised, target) <= ProgressPercent(more, target)
  {
    if target > 0 {
      ProgressIsExact(raised, target);
      ProgressIsExact(more, target);
      HalfUpMonotone(100 * raised, 100 * more, target);
    }
  }

  /** The card shows p (strictly between 0 and 100) exactly for p - 0.5 <= 100 raised/target < p + 0.5. */
  lemma {:induction false} ProgressBand(raised: int, target: int, p: int)
    requires 0 <= raised < MONEY_LIMIT && 0 < target < MONEY_LIMIT && 0 < p < 100
    ensures ProgressPercent(raised, target) == p <==> (2 * p - 1) * target <= 200 * raised < (2 * p + 1) * target
  {
    ProgressIsExact(raised, target);
    HalfUpNearest(100 * raised, target, p);
    Unfold(p, target);
    assert (2 * p + 1) * target == 2 * target * p + target;
    HalfUpNearest(100 * raised, target, HalfUp(100 * raised, target));
  }

  /** The ends of the scale, over- and underfunded included: a wish without a target shows 0. */
  lemma {:induction false} ProgressEnds(raised: int, target: int)
    requires -MONEY_LIMIT < raised < MONEY_LIMIT && target < MONEY_LIMIT
    ensures target <= 0 ==> ProgressPercent(raised, target) == 0
    ensures target > 0 ==>
              (ProgressPercent(raised, target) == 100 <==> 200 * raised >= 199 * target)
              && (ProgressPercent(raised, target) == 0 <==> 200 * raised < target)
              && 0 <= ProgressPercent(raised, target) <= 100
  {
    if target > 0 {
      ProgressIsExact(raised, target);
      HalfUpAtLeast(100 * raised, target, 100);
      HalfUpAtLeast(100 * raised, target, 1);
    }
  }

  /** Half up rounding reaches m exactly from half a unit below it. */
  lemma {:induction false} HalfUpAtLeast(n: int, d: int, m: int)
    requires d > 0 && m > 0
    ensures HalfUp(n, d) >= m <==> 2 * n >= (2 * m - 1) * d
  {
    var k := HalfUp(n, d);
    HalfUpNearest(n, d, k);
    Unfold(m, d);
    if k >= m {
      Ordered(2 * d, m, k);
    } else {
      Ordered(2 * d, k, m - 1);
      Distribute(2 * d, m, -1);
    }
  }
}
