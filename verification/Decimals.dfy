/**
 The two roundings of Python's `decimal` the source relies on, on exact fractions n/d:
 ROUND_HALF_EVEN (the context default) and ROUND_HALF_UP (ties away from zero).
 */
module Decimals {
  /** A finite Decimal: coefficient / 10^scale. */
  datatype Decimal = Decimal(coefficient: int, scale: nat)

  function Pow10(n: nat): (p: nat)
    ensures p >= 1
  {
    if n == 0 then 1 else 10 * Pow10(n - 1)
  }

  function HalfEven(n: int, d: int): int
    requires d > 0
  {
    var q, r := n / d, n % d;
    if 2 * r < d || (2 * r == d && q % 2 == 0) then q else q + 1
  }

  function HalfUp(n: int, d: int): int
    requires d > 0
  {
    if n >= 0 then (if 2 * (n % d) < d then n / d else n / d + 1)
    else (if 2 * (-n % d) < d then -(-n / d) else -(-n / d) - 1)
  }

  /** HalfEven is the unique integer within half a unit that is even when n/d is a tie. */
  lemma {:induction false} HalfEvenNearest(n: int, d: int, k: int)
    requires d > 0
    ensures k == HalfEven(n, d) <==>
            -d <= 2 * n - 2 * d * k <= d && (2 * n - 2 * d * k == d || 2 * n - 2 * d * k == -d ==> k % 2 == 0)
  {
    var q, r := n / d, n % d;
    var e := k - q;
    assert n == d * q + r;
    assert d * k == d * q + d * e by { Distribute(d, q, e); }
    assert 2 * n - 2 * d * k == 2 * r - 2 * (d * e);
    Spread(d, e);
  }

  /** HalfUp is the unique integer within half a unit that lies farther from zero when n/d is a tie. */
  lemma {:induction false} HalfUpNearest(n: int, d: int, k: int)
    requires d > 0
    ensures k == HalfUp(n, d) <==>
            if n >= 0 then -d < 2 * d * k - 2 * n <= d else -d <= 2 * d * k - 2 * n < d
  {
    if n >= 0 {
      HalfUpNearestAbove(n, d, k);
    } else {
      HalfUpNearestAbove(-n, d, -k);
      assert 2 * d * -k == -(2 * d * k);
    }
  }

  lemma {:induction false} HalfUpNearestAbove(n: int, d: int, k: int)
    requires d > 0 && n >= 0
    ensures k == HalfUp(n, d) <==> -d < 2 * d * k - 2 * n <= d
  {
    var q, r := n / d, n % d;
    var e := k - q;
    assert n == d * q + r;
    assert d * k == d * q + d * e by { Distribute(d, q, e); }
    assert 2 * d * k - 2 * n == 2 * (d * e) - 2 * r;
    Spread(d, e);
  }

  lemma {:induction false} Distribute(d: int, q: int, e: int)
    ensures d * (q + e) == d * q + d * e
  {
  }

  lemma {:induction false} Spread(d: int, e: int)
    requires d > 0
    ensures e >= 2 ==> d * e >= 2 * d
    ensures e == 1 ==> d * e == d
    ensures e == 0 ==> d * e == 0
    ensures e <= -1 ==> d * e <= -d
  {
  }

  /** Decimal.quantize(Decimal("0.01")), as a number of cents. */
  function QuantizeCents(x: Decimal): int {
    if x.scale <= 2 then x.coefficient * Pow10(2 - x.scale)
    else HalfEven(x.coefficient, Pow10(x.scale - 2))
  }
}
