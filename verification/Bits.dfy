/** Bitwise operators on natural numbers. */
module Bits {
  import opened Powers

  function Or(a: nat, b: nat): nat {
    if a == 0 && b == 0 then 0
    else 2 * Or(a / 2, b / 2) + (if a % 2 == 1 || b % 2 == 1 then 1 else 0)
  }

  lemma {:induction false} OrZero(a: nat)
    ensures Or(a, 0) == a
  {
    if a > 0 {
      OrZero(a / 2);
    }
  }

  /** Bits below position `k` and bits from position `k` up do not meet: or is addition. */
  lemma {:induction false} OrDisjoint(a: nat, b: nat, k: nat)
    requires a % Pow2(k) == 0 && b < Pow2(k)
    ensures Or(a, b) == a + b
  {
    if k == 0 || a + b == 0 {
      OrZero(a);
    } else {
      HalvesDisjoint(a, b, k);
      OrDisjoint(a / 2, b / 2, k - 1);
    }
  }

  lemma {:induction false} XorDisjoint(a: nat, b: nat, k: nat)
    requires a % Pow2(k) == 0 && b < Pow2(k)
    ensures Xor(a, b) == a + b
  {
    if a == 0 && b == 0 {
    } else if k == 0 {
      XorZero(a);
    } else {
      HalvesDisjoint(a, b, k);
      XorDisjoint(a / 2, b / 2, k - 1);
    }
  }

  lemma {:induction false} XorZero(a: nat)
    ensures Xor(a, 0) == a
  {
    if a > 0 {
      XorZero(a / 2);
    }
  }

  lemma HalvesDisjoint(a: nat, b: nat, k: nat)
    requires 0 < k && a % Pow2(k) == 0 && b < Pow2(k)
    ensures a % 2 == 0 && a / 2 % Pow2(k - 1) == 0 && b / 2 < Pow2(k - 1)
  {
    var h := Pow2(k - 1);
    var q := a / (2 * h);
    assert a == 2 * (q * h);
    DivModUnique(a / 2, h, q, 0);
  }

  lemma {:induction false} OrCommutes(a: nat, b: nat)
    ensures Or(a, b) == Or(b, a)
  {
    if a + b != 0 {
      OrCommutes(a / 2, b / 2);
    }
  }

  /** Setting a bit that is clear adds its weight. */
  lemma {:induction false} OrSetsBit(a: nat, k: nat)
    requires a / Pow2(k) % 2 == 0
    ensures Or(a, Pow2(k)) == a + Pow2(k)
  {
    if k == 0 {
      OrZero(a / 2);
    } else {
      var h := Pow2(k - 1);
      DivTwice(a, 2, h);
      OrSetsBit(a / 2, k - 1);
    }
  }

  function And(a: nat, b: nat): nat {
    if a == 0 || b == 0 then 0
    else 2 * And(a / 2, b / 2) + (if a % 2 == 1 && b % 2 == 1 then 1 else 0)
  }

  function Xor(a: nat, b: nat): nat {
    if a == 0 && b == 0 then 0
    else 2 * Xor(a / 2, b / 2) + (if a % 2 != b % 2 then 1 else 0)
  }

  // ----- bit by bit -----

  predicate Bit(a: nat, k: nat) {
    a / Pow2(k) % 2 == 1
  }

  lemma BitStep(a: nat, k: nat)
    ensures Bit(a, 0) <==> a % 2 == 1
    ensures Bit(a, k + 1) <==> Bit(a / 2, k)
  {
    DivTwice(a, 2, Pow2(k));
  }

  lemma Doubled(h: nat, r: nat)
    requires r < 2
    ensures (2 * h + r) / 2 == h && (2 * h + r) % 2 == r
  {
  }

  lemma NoBits(k: nat)
    ensures !Bit(0, k)
  {
    DivModUnique(0, Pow2(k), 0, 0);
  }

  lemma {:induction false} OrBits(a: nat, b: nat, k: nat)
    ensures Bit(Or(a, b), k) <==> Bit(a, k) || Bit(b, k)
  {
    hide Bit;
    var r := Or(a, b);
    if a == 0 && b == 0 {
      NoBits(k);
    } else {
      Doubled(Or(a / 2, b / 2), if a % 2 == 1 || b % 2 == 1 then 1 else 0);
      if k == 0 {
        BitStep(a, 0);
        BitStep(b, 0);
        BitStep(r, 0);
      } else {
        BitStep(a, k - 1);
        BitStep(b, k - 1);
        BitStep(r, k - 1);
        OrBits(a / 2, b / 2, k - 1);
      }
    }
  }

  lemma {:induction false} AndBits(a: nat, b: nat, k: nat)
    ensures Bit(And(a, b), k) <==> Bit(a, k) && Bit(b, k)
  {
    hide Bit;
    var r := And(a, b);
    if a == 0 || b == 0 {
      NoBits(k);
    } else {
      Doubled(And(a / 2, b / 2), if a % 2 == 1 && b % 2 == 1 then 1 else 0);
      if k == 0 {
        BitStep(a, 0);
        BitStep(b, 0);
        BitStep(r, 0);
      } else {
        BitStep(a, k - 1);
        BitStep(b, k - 1);
        BitStep(r, k - 1);
        AndBits(a / 2, b / 2, k - 1);
      }
    }
  }

  lemma {:induction false} XorBits(a: nat, b: nat, k: nat)
    ensures Bit(Xor(a, b), k) <==> Bit(a, k) != Bit(b, k)
  {
    hide Bit;
    var r := Xor(a, b);
    if a == 0 && b == 0 {
      NoBits(k);
    } else {
      Doubled(Xor(a / 2, b / 2), if a % 2 != b % 2 then 1 else 0);
      if k == 0 {
        BitStep(a, 0);
        BitStep(b, 0);
        BitStep(r, 0);
      } else {
        BitStep(a, k - 1);
        BitStep(b, k - 1);
        BitStep(r, k - 1);
        XorBits(a / 2, b / 2, k - 1);
      }
    }
  }

  /** No operator needs more bits than its operands. */
  lemma {:induction false} SameWidth(a: nat, b: nat, n: nat)
    requires a < Pow2(n) && b < Pow2(n)
    ensures Or(a, b) < Pow2(n) && And(a, b) < Pow2(n) && Xor(a, b) < Pow2(n)
    decreases n
  {
    if n > 0 {
      SameWidth(a / 2, b / 2, n - 1);
    }
  }
}
