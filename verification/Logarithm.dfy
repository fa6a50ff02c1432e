/** ilog2.c and eval_ifunc of eval.c: integer logarithms. */
module Logarithm {
  import opened Powers
  import opened ExprVector

  /** ilog2e, ilog2w, ilog2f and ilog2c. */
  datatype LogKind = Exact | Warning | Floor | Ceiling

  /** The place of the highest bit; zero for zero. */
  function FloorLog(u: nat): nat {
    if u < 2 then 0 else 1 + FloorLog(u / 2)
  }

  function CeilingLog(u: nat): nat {
    if u < 2 then 0 else FloorLog(u - 1) + 1
  }

  /** is_power2 */
  predicate IsPower2(u: nat) {
    u > 0 && u == Pow2(FloorLog(u))
  }

  function LogOf(kind: LogKind, u: nat): nat {
    if kind == Ceiling then CeilingLog(u) else FloorLog(u)
  }

  // ----- what these numbers are -----

  lemma {:induction false} FloorLogIs(u: nat)
    requires u > 0
    ensures Pow2(FloorLog(u)) <= u < Pow2(FloorLog(u) + 1)
  {
    if u >= 2 {
      FloorLogIs(u / 2);
    } else {
      assert Pow2(1) == 2 * Pow2(0);
    }
  }

  /** The exponent between whose powers `u` lies is unique. */
  lemma {:induction false} FloorLogUnique(u: nat, n: nat)
    requires Pow2(n) <= u < Pow2(n + 1)
    ensures FloorLog(u) == n
  {
    FloorLogIs(u);
    if n < FloorLog(u) {
      Pow2Monotone(n + 1, FloorLog(u));
    } else if n > FloorLog(u) {
      Pow2Monotone(FloorLog(u) + 1, n);
    }
  }

  /** The least exponent whose power is not below `u`. */
  lemma CeilingLogIs(u: nat)
    ensures u <= Pow2(CeilingLog(u)) && forall n: nat :: n < CeilingLog(u) ==> Pow2(n) < u
  {
    hide Pow2;
    ZeroPower();
    if u >= 2 {
      FloorLogIs(u - 1);
      forall n: nat | n < CeilingLog(u)
        ensures Pow2(n) < u
      {
        Pow2Monotone(n, FloorLog(u - 1));
      }
    }
  }

  lemma ZeroPower()
    ensures Pow2(0) == 1
  {
  }

  /** A power of two has an exact logarithm, and nothing else has. */
  lemma ExactIff(u: nat)
    ensures IsPower2(u) <==> exists n: nat :: u == Pow2(n)
    ensures IsPower2(u) ==> CeilingLog(u) == FloorLog(u)
  {
    hide Pow2, FloorLog;
    ZeroOnlyBelowTwo(u);
    if n: nat :| u == Pow2(n) {
      Doubles(n);
      Pow2Monotone(n, n + 1);
      FloorLogUnique(u, n);
    }
    if IsPower2(u) && u >= 2 {
      ZeroPower();
      var n := FloorLog(u);
      Doubles(n - 1);
      Pow2Monotone(n - 1, n);
      FloorLogUnique(u - 1, n - 1);
    }
  }

  lemma ZeroOnlyBelowTwo(u: nat)
    ensures FloorLog(u) == 0 <==> u < 2
  {
  }

  lemma Doubles(n: nat)
    ensures Pow2(n + 1) == 2 * Pow2(n) > 0
  {
  }

  lemma {:induction false} LogSmall(u: nat, n: nat)
    requires u < Pow2(n) && u < TWO64
    ensures FloorLog(u) <= n && (n > 0 && u > 0 ==> FloorLog(u) < n)
  {
    if u > 0 {
      FloorLogIs(u);
      if FloorLog(u) >= n {
        Pow2Monotone(n, FloorLog(u));
      }
    }
  }

  // ----- the portable algorithm -----

  /** Shifting down by `w` takes `w` off the logarithm. */
  lemma {:induction false} LogShift(u: nat, w: nat)
    requires u >= Pow2(w)
    ensures u / Pow2(w) > 0 && FloorLog(u) == w + FloorLog(u / Pow2(w))
  {
    if w == 0 {
    } else {
      var h := Pow2(w - 1);
      assert Pow2(w) == 2 * h;
      DivTwice(u, 2, h);
      assert u / 2 >= h;
      LogShift(u / 2, w - 1);
    }
  }

  /** The ROUND macro: when a bit of the upper half is set, move it down. */
  method Round(v: nat, p: nat, w: nat, ghost u: nat) returns (v': nat, p': nat)
    requires v < Pow2(2 * w) && (v > 0 || p == 0) && FloorLog(u) == p + FloorLog(v)
    ensures v' < Pow2(w) && (v' > 0 || p' == 0) && FloorLog(u) == p' + FloorLog(v')
  {
    hide Pow2, FloorLog;
    v', p' := v, p;
    Pow2Add(w, w);
    assert w + w == 2 * w;
    UpperHalf(v, Pow2(w));
    if v / Pow2(w) % Pow2(w) != 0 {
      LogShift(v, w);
      v', p' := v / Pow2(w), p + w;
    }
  }

  lemma UpperHalf(v: nat, d: nat)
    requires d > 0 && v < d * d
    ensures v / d < d && (v / d % d != 0 <==> v >= d)
  {
    var q := v / d;
    assert v == q * d + v % d;
    MulCancel(d, q, d);
    DivPositive(v, d);
    DivModUnique(q, d, 0, q);
  }

  /** ilog2_64 without processor support. */
  method Ilog2(u: nat) returns (p: nat)
    requires u < TWO64
    ensures p == FloorLog(u)
  {
    hide FloorLog, Pow2;
    var v := u / 0x1_0000_0000;
    Powers32();
    p := 0;
    if v != 0 {
      p := 32;
      LogShift(u, 32);
    } else {
      v := u;
    }
    v, p := Round(v, p, 16, u);
    v, p := Round(v, p, 8, u);
    v, p := Round(v, p, 4, u);
    v, p := Round(v, p, 2, u);
    v, p := Round(v, p, 1, u);
    LastBit(v);
  }

  lemma Powers32()
    ensures Pow2(32) == 0x1_0000_0000 && Pow2(1) == 2
  {
    assert Pow2(8) == 256 by { assert Pow2(4) == 16; Pow2Add(4, 4); }
    Pow2Add(8, 8);
    Pow2Add(16, 16);
  }

  lemma LastBit(v: nat)
    requires v < Pow2(1)
    ensures FloorLog(v) == 0
  {
    assert Pow2(0) == 1;
  }

  /** eval_ifunc: the exact logarithm of anything but a power of two is an error. */
  method EvalIfunc(kind: LogKind, u: nat) returns (ok: bool, r: nat)
    requires u < TWO64
    ensures ok <==> !(kind == Exact && !IsPower2(u))
    ensures r == LogOf(kind, u)
  {
    ok := !(kind == Exact && !IsPower2(u));
    if kind != Ceiling {
      r := Ilog2(u);
    } else if u < 2 {
      r := 0;
    } else {
      r := Ilog2(u - 1);
      r := r + 1;
    }
  }

  /** A logarithm is small. */
  lemma LogFits(kind: LogKind, u: nat)
    requires u < TWO64
    ensures LogOf(kind, u) <= 64
  {
    Powers32();
    Pow2Add(32, 32);
    hide Pow2, FloorLog;
    LogSmall(u, 64);
    if u >= 2 {
      LogSmall(u - 1, 64);
    }
  }
}
