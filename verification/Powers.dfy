/** Powers of two and the few facts about multiplication and division used elsewhere. */
module Powers {

  function Pow2(e: nat): (r: nat)
    ensures r > 0
  {
    if e == 0 then 1 else 2 * Pow2(e - 1)
  }

  lemma Pow2Add(a: nat, b: nat)
    ensures Pow2(a + b) == Pow2(a) * Pow2(b)
  {
    if a == 0 {
    } else {
      Pow2Add(a - 1, b);
    }
  }

  lemma Pow2Monotone(a: nat, b: nat)
    requires a <= b
    ensures Pow2(a) <= Pow2(b)
    ensures a < b ==> 2 * Pow2(a) <= Pow2(b)
    decreases b
  {
    if a < b {
      Pow2Monotone(a, b - 1);
    }
  }

  lemma MulMonotone(a: nat, x: int, y: int)
    requires x <= y
    ensures a * x <= a * y && x * a <= y * a
  {
  }

  lemma MulStrict(a: int, x: int, y: int)
    requires x < y && 0 < a
    ensures a * x < a * y && x * a < y * a
  {
  }

  lemma MulBounded(x: nat, y: nat, m: nat)
    requires x <= m && y <= m
    ensures 0 <= x * y <= m * m
  {
    MulMonotone(x, y, m);
    MulMonotone(m, x, m);
  }

  /** A quotient is at least one exactly when the divisor fits. */
  lemma DivPositive(n: nat, d: nat)
    requires d > 0
    ensures n / d >= 1 <==> n >= d
  {
    assert n == (n / d) * d + n % d;
    if n / d >= 1 {
      MulMonotone(d, 1, n / d);
    }
  }

  /** The quotient and remainder are the only pair with these bounds. */
  lemma DivModUnique(n: int, d: int, q: int, r: int)
    requires 0 < d && 0 <= r < d && n == q * d + r
    ensures n / d == q && n % d == r
  {
    var q', r' := n / d, n % d;
    assert n == q' * d + r';
    assert (q - q') * d == r' - r;
    if q > q' {
      MulMonotone(d, 1, q - q');
    } else if q < q' {
      MulMonotone(d, q - q', -1);
    }
  }

  lemma DivTwice(n: int, a: int, b: int)
    requires 0 < a && 0 < b
    ensures 0 < a * b
    ensures n / (a * b) == n / a / b
  {
    var q, r := n / a / b, n / a % b;
    assert n == (n / a) * a + n % a;
    assert n / a == q * b + r;
    assert n == (q * b + r) * a + n % a == q * (a * b) + (r * a + n % a);
    MulMonotone(a, r, b - 1);
    assert r * a + n % a < a * b;
    MulMonotone(a, 0, r);
    MulStrict(a, 0, b);
    DivModUnique(n, a * b, q, r * a + n % a);
  }

  lemma MulCancel(d: int, x: int, y: int)
    requires 0 < d && d * x < d * y
    ensures x < y
  {
    if y <= x {
      MulMonotone(d, y, x);
    }
  }

  lemma DivMonotone(a: int, b: int, d: int)
    requires 0 < d && a <= b
    ensures a / d <= b / d
  {
    assert d * (a / d) <= a && b < d * (b / d + 1);
    MulCancel(d, a / d, b / d + 1);
  }
}
