/** Integer powers of positive reals. */
module RealPowers {
  import opened Powers

  function RPow(b: real, n: nat): real {
    if n == 0 then 1.0 else b * RPow(b, n - 1)
  }

  /** `b` to an integer power of either sign. */
  function ZPow(b: real, e: int): real
    requires b > 0.0
  {
    RPowPositive(b, if e >= 0 then e else -e);
    if e >= 0 then RPow(b, e) else 1.0 / RPow(b, -e)
  }

  lemma RPowPositive(b: real, n: nat)
    requires b > 0.0
    ensures RPow(b, n) > 0.0
  {
  }

  lemma {:induction false} RPowAdd(b: real, m: nat, n: nat)
    ensures RPow(b, m + n) == RPow(b, m) * RPow(b, n)
  {
    if m > 0 {
      RPowAdd(b, m - 1, n);
      var x, y := RPow(b, m - 1), RPow(b, n);
      assert b * (x * y) == (b * x) * y;
    }
  }

  lemma {:induction false} RPowProduct(b: real, c: real, n: nat)
    ensures RPow(b * c, n) == RPow(b, n) * RPow(c, n)
  {
    if n > 0 {
      RPowProduct(b, c, n - 1);
      Regroup(b, c, RPow(b, n - 1), RPow(c, n - 1));
    }
  }

  lemma Regroup(a: real, b: real, c: real, d: real)
    ensures (a * b) * (c * d) == (a * c) * (b * d)
  {
    assert (a * b) * (c * d) == a * (b * c) * d;
  }

  lemma ZPowPositive(b: real, e: int)
    requires b > 0.0
    ensures ZPow(b, e) > 0.0
  {
    RPowPositive(b, if e >= 0 then e else -e);
  }

  lemma ZPowStep(b: real, e: int)
    requires b > 0.0
    ensures ZPow(b, e + 1) == b * ZPow(b, e)
  {
    if e < 0 {
      RPowPositive(b, -e - 1);
      var x := RPow(b, -e - 1);
      assert RPow(b, -e) == b * x;
      DivideOut(b, x);
      assert e + 1 == 0 ==> x == 1.0;
    }
  }

  lemma DivideOut(b: real, x: real)
    requires b > 0.0 && x > 0.0
    ensures b * x > 0.0 && b * (1.0 / (b * x)) == 1.0 / x
  {
    var y := 1.0 / (b * x);
    assert (b * y) * x == y * (b * x) == 1.0;
    var z := 1.0 / x;
    assert z * x == 1.0;
    assert (b * y - z) * x == 0.0;
  }

  lemma {:induction false} ZPowAdd(b: real, m: int, n: int)
    requires b > 0.0
    ensures ZPow(b, m + n) == ZPow(b, m) * ZPow(b, n)
    decreases if n >= 0 then n else -n
  {
    if n == 0 {
      assert ZPow(b, n) == 1.0;
    } else {
      var k := if n > 0 then n - 1 else n + 1;
      ZPowAdd(b, m, k);
      ZPowAddStep(b, m, n, k);
    }
  }

  lemma ZPowAddStep(b: real, m: int, n: int, k: int)
    requires b > 0.0 && (k == n - 1 || k == n + 1)
    requires ZPow(b, m + k) == ZPow(b, m) * ZPow(b, k)
    ensures ZPow(b, m + n) == ZPow(b, m) * ZPow(b, n)
  {
    hide *;
    if k < n {
      ZPowStep(b, m + k);
      ZPowStep(b, k);
      assert m + n == m + k + 1 && n == k + 1;
      StepArithmetic(b, ZPow(b, m), ZPow(b, k), ZPow(b, n), ZPow(b, m + k), ZPow(b, m + n));
    } else {
      ZPowStep(b, m + n);
      ZPowStep(b, n);
      assert m + k == m + n + 1 && k == n + 1;
      StepArithmetic(b, ZPow(b, m), ZPow(b, n), ZPow(b, k), ZPow(b, m + n), ZPow(b, m + k));
    }
  }

  /** Both directions of one step: x * y is the product at one exponent, x * y1 at the next. */
  lemma StepArithmetic(b: real, x: real, y: real, y1: real, w: real, w1: real)
    requires b > 0.0 && y1 == b * y && w1 == b * w
    ensures w == x * y <==> w1 == x * y1
  {
    Swap(b, x, y);
    if w1 == x * y1 {
      Cancel(b, w, x * y);
    }
  }

  lemma Swap(b: real, x: real, y: real)
    ensures b * (x * y) == x * (b * y)
  {
  }

  lemma Cancel(b: real, x: real, y: real)
    requires b > 0.0 && b * x == b * y
    ensures x == y
  {
    assert b * (x - y) == 0.0;
  }

  lemma {:induction false} ZPowProduct(b: real, c: real, e: int)
    requires b > 0.0 && c > 0.0
    ensures b * c > 0.0 && ZPow(b * c, e) == ZPow(b, e) * ZPow(c, e)
  {
    var n := if e >= 0 then e else -e;
    RPowProduct(b, c, n);
    RPowPositive(b, n);
    RPowPositive(c, n);
    if e < 0 {
      var x, y := RPow(b, n), RPow(c, n);
      InverseProduct(x, y);
    }
  }

  lemma InverseProduct(x: real, y: real)
    requires x > 0.0 && y > 0.0
    ensures x * y > 0.0 && 1.0 / (x * y) == (1.0 / x) * (1.0 / y)
  {
    var u, v := 1.0 / x, 1.0 / y;
    assert u * x == 1.0 && v * y == 1.0;
    Regroup(u, v, x, y);
    var w := 1.0 / (x * y);
    assert w * (x * y) == 1.0;
    assert (w - u * v) * (x * y) == 0.0;
  }

  /** A natural power of a natural number, as a real. */
  lemma {:induction false} ZPow2IsPow2(n: nat)
    ensures ZPow(2.0, n) == Pow2(n) as real
  {
    if n > 0 {
      ZPow2IsPow2(n - 1);
    }
  }

  lemma ScaleLess(s: real, x: real, y: real)
    requires s >= 0.0 && x <= y
    ensures x * s <= y * s && s * x <= s * y
  {
  }

  lemma ProductLess(a: real, b: real, c: real, d: real)
    requires 0.0 <= a <= b && 0.0 <= c <= d
    ensures 0.0 <= a * c <= b * d
  {
    ScaleLess(a, c, d);
    ScaleLess(d, a, b);
    ScaleLess(a, 0.0, c);
  }
}
