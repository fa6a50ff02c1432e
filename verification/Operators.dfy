/** What the operators of expressions compute: bit by bit, by ordinary division, by truth value. */
module Operators {
  import opened Powers
  import opened ExprVector
  import opened EvalSyntax
  import opened EvalMeaning
  import Bits
  import Logarithm

  /** The pattern of a 64-bit number in two's complement. */
  function Pattern(x: int64): (u: nat)
    ensures u < 0x1_0000_0000_0000_0000
  {
    if x < 0 then x + 0x1_0000_0000_0000_0000 else x
  }

  predicate BitOf(x: int64, k: nat) {
    Bits.Bit(Pattern(x), k)
  }

  // ----- bits -----

  lemma WrapPattern(v: nat)
    requires v < 0x1_0000_0000_0000_0000
    ensures Pattern(Wrap(v)) == v
  {
  }

  lemma PowerOf64()
    ensures Pow2(64) == 0x1_0000_0000_0000_0000
  {
    Pow2Add(32, 32);
    Pow2Add(16, 16);
    Pow2Add(8, 8);
    assert Pow2(8) == 256 by {
      Pow2Add(4, 4);
      assert Pow2(4) == 2 * Pow2(3) && Pow2(3) == 2 * Pow2(2) && Pow2(2) == 2 * Pow2(1) && Pow2(1) == 2 * Pow2(0);
    }
  }

  /** `|`, `^` and `&` work on each bit. */
  lemma BitwiseOperators(x: int64, y: int64, k: nat)
    ensures BitOf(Operate(BitOr, x, y), k) <==> BitOf(x, k) || BitOf(y, k)
    ensures BitOf(Operate(BitXor, x, y), k) <==> BitOf(x, k) != BitOf(y, k)
    ensures BitOf(Operate(BitAnd, x, y), k) <==> BitOf(x, k) && BitOf(y, k)
  {
    hide Pow2, Bits.Or, Bits.And, Bits.Xor, Bits.Bit, Wrap;
    var a, b := Pattern(x), Pattern(y);
    assert Unsigned(x) == a && Unsigned(y) == b;
    PowerOf64();
    Bits.SameWidth(a, b, 64);
    WrapPattern(Bits.Or(a, b));
    WrapPattern(Bits.Xor(a, b));
    WrapPattern(Bits.And(a, b));
    Bits.OrBits(a, b, k);
    Bits.XorBits(a, b, k);
    Bits.AndBits(a, b, k);
  }

  lemma {:induction false} ComplementBits(a: nat, n: nat, k: nat)
    requires a < Pow2(n) && k < n
    ensures Bits.Bit(Pow2(n) - 1 - a, k) <==> !Bits.Bit(a, k)
  {
    hide Bits.Bit;
    var c := Pow2(n) - 1 - a;
    assert Pow2(n) == 2 * Pow2(n - 1);
    if k == 0 {
      Bits.BitStep(a, 0);
      Bits.BitStep(c, 0);
    } else {
      Bits.BitStep(a, k - 1);
      Bits.BitStep(c, k - 1);
      assert c / 2 == Pow2(n - 1) - 1 - a / 2;
      ComplementBits(a / 2, n - 1, k - 1);
    }
  }

  lemma UnaryMeanings(env: Env, rho: Assignment, e: Ast)
    ensures var x := Meaning(env, rho, e);
            && Meaning(env, rho, Unary(Complement, e)) == -1 - x
            && Meaning(env, rho, Unary(Negate, e)) == Wrap(0 - x)
            && Meaning(env, rho, Unary(Identity, e)) == x
            && Meaning(env, rho, Unary(Not, e)) == Flag(x == 0)
  {
    hide Wrap;
  }

  lemma NegationCancels(x: int64)
    ensures Same(Wrap(0 - x) + x, 0)
  {
  }

  /** `~` flips every bit, and `-` is its successor. */
  lemma ComplementAndNegation(env: Env, rho: Assignment, e: Ast, k: nat)
    requires k < 64
    ensures BitOf(Meaning(env, rho, Unary(Complement, e)), k) <==> !BitOf(Meaning(env, rho, e), k)
    ensures Same(Meaning(env, rho, Unary(Negate, e)) + Meaning(env, rho, e), 0)
    ensures Meaning(env, rho, Unary(Identity, e)) == Meaning(env, rho, e)
    ensures Meaning(env, rho, Unary(Not, e)) == if Meaning(env, rho, e) == 0 then 1 else 0
  {
    hide Bits.Bit, Pow2;
    var x := Meaning(env, rho, e);
    hide Meaning;
    UnaryMeanings(env, rho, e);
    PowerOf64();
    ComplementBits(Pattern(x), 64, k);
    assert Pattern(-1 - x) == Pow2(64) - 1 - Pattern(x);
    NegationCancels(x);
  }

  lemma PatternOfWrap(v: int)
    ensures Pattern(Wrap(v)) == v % 0x1_0000_0000_0000_0000
  {
  }

  lemma BitIs(a: nat, k: nat, d: nat)
    requires d == Pow2(k)
    ensures Bits.Bit(a, k) <==> a / d % 2 == 1
  {
  }

  /** Cutting to `n` bits leaves the bits below `n`. */
  lemma LowBits(v: nat, r: nat, n: nat, k: nat)
    requires k < n && r == v % Pow2(n)
    ensures Bits.Bit(r, k) <==> Bits.Bit(v, k)
  {
    hide Pow2, Bits.Bit;
    var b := Pow2(n - k - 1);
    Pow2Add(k, n - k);
    Pow2Add(1, n - k - 1);
    OneIsTwo();
    BitIs(v, k, Pow2(k));
    BitIs(r, k, Pow2(k));
    LowBitsArithmetic(v, v / Pow2(n), r, Pow2(k), b, Pow2(n));
  }

  lemma LowBitsArithmetic(v: nat, q: nat, r: nat, a: nat, b: nat, m: nat)
    requires a > 0 && m == a * (2 * b) && m > 0 && q == v / m && r == v % m
    ensures v / a % 2 == r / a % 2
  {
    var h, d := q * b, r / a;
    assert q * m == (2 * h) * a;
    assert r == d * a + r % a;
    assert (2 * h + d) * a == (2 * h) * a + d * a;
    DivModUnique(v, a, 2 * h + d, r % a);
    TwiceIsEven(h, d);
  }

  lemma TwiceIsEven(h: int, d: int)
    ensures (2 * h + d) % 2 == d % 2
  {
  }

  lemma ShiftedLeft(u: nat, w: nat, m: nat, y: nat, k: nat)
    requires w == Pow2(y) && m == u * w
    ensures Bits.Bit(m, k) <==> k >= y && Bits.Bit(u, k - y)
  {
    hide Pow2, Bits.Bit;
    BitIs(m, k, Pow2(k));
    if k >= y {
      Pow2Add(y, k - y);
      BitIs(u, k - y, Pow2(k - y));
      DivTwice(m, w, Pow2(k - y));
      DivModUnique(m, w, u, 0);
    } else {
      Pow2Add(k, y - k);
      Pow2Add(1, y - k - 1);
      OneIsTwo();
      EvenQuotient(u, Pow2(y - k - 1), Pow2(k), m);
    }
  }

  lemma EvenQuotient(u: nat, h: nat, a: nat, m: nat)
    requires a > 0 && m == u * (a * (2 * h))
    ensures m / a % 2 == 0
  {
    var x := u * h;
    assert u * (a * (2 * h)) == (2 * x) * a;
    DivModUnique(m, a, 2 * x, 0);
  }

  lemma OneIsTwo()
    ensures Pow2(1) == 2
  {
    assert Pow2(0) == 1;
  }

  lemma ShiftedRight(u: nat, q: nat, y: nat, k: nat)
    requires q == u / Pow2(y)
    ensures Bits.Bit(q, k) <==> Bits.Bit(u, k + y)
  {
    hide Pow2, Bits.Bit;
    Pow2Add(y, k);
    DivTwice(u, Pow2(y), Pow2(k));
    BitIs(q, k, Pow2(k));
    BitIs(u, k + y, Pow2(k + y));
  }

  lemma PatternCongruent(x: int64, w: nat, m: nat)
    requires m == Pattern(x) * w
    ensures (x * w) % 0x1_0000_0000_0000_0000 == m % 0x1_0000_0000_0000_0000
  {
    var c := 0x1_0000_0000_0000_0000;
    if x < 0 {
      assert m == x * w + w * c;
      var q := (x * w) / c;
      DivModUnique(m, c, q + w, (x * w) % c);
    }
  }

  /** `<<` and `>>` move the bits; zeros come in, on the left too. */
  lemma Shifts(x: int64, y: int64, k: nat)
    requires 0 <= y < 64 && k < 64
    ensures BitOf(Operate(ShiftLeft, x, y), k) <==> k >= y && BitOf(x, k - y)
    ensures BitOf(Operate(ShiftRight, x, y), k) <==> k + y < 64 && BitOf(x, k + y)
  {
    hide Pow2, Bits.Bit, Wrap;
    var u, w := Pattern(x), Pow2(y);
    var m, q := Product(u, w), u / w;
    PowerOf64();
    PatternOfWrap(x * w);
    PatternCongruent(x, w, m);
    LowBits(m, Pattern(Wrap(x * w)), 64, k);
    ShiftedLeft(u, w, m, y, k);
    assert Unsigned(x) == u;
    SmallerQuotient(u, w);
    WrapPattern(q);
    ShiftedRight(u, q, y, k);
    if k + y >= 64 {
      HighBits(u, k + y);
    }
  }

  function Product(u: nat, w: nat): (m: nat)
    ensures m == u * w
  {
    u * w
  }

  lemma SmallerQuotient(u: nat, d: nat)
    requires d > 0
    ensures 0 <= u / d <= u
  {
    assert u == (u / d) * d + u % d;
    MulMonotone(u / d, 1, d);
  }

  lemma HighBits(u: nat, k: nat)
    requires u < Pow2(64) && k >= 64
    ensures !Bits.Bit(u, k)
  {
    Pow2Monotone(64, k);
    DivModUnique(u, Pow2(k), 0, u);
  }

  // ----- division -----

  /** `/` and `%`: unsigned division with remainder. */
  lemma UnsignedDivision(x: int64, y: int64)
    requires y != 0
    ensures var q, r := Pattern(Operate(Divide, x, y)), Pattern(Operate(Modulo, x, y));
            Pattern(x) == Pattern(y) * q + r && 0 <= r < Pattern(y)
  {
    var u, v := Pattern(x), Pattern(y);
    SmallerQuotient(u, v);
    WrapPattern(u / v);
    WrapPattern(u % v);
    assert u == v * (u / v) + u % v;
  }

  /** `//` and `%%`: the quotient truncates toward zero, the remainder has the dividend's sign. */
  lemma SignedDivision(x: int64, y: int64)
    requires y != 0 && !(x == -TWO63 && y == -1)
    ensures var q: int, r: int := Operate(SignedDivide, x, y), Operate(SignedModulo, x, y);
            && x == y * q + r
            && Abs(r) < Abs(y)
            && (r == 0 || (r < 0 <==> x < 0))
  {
    hide Wrap, Truncated;
    var a: int, b: int := x, y;
    TruncatedDivides(a, b);
    WrapSmallValue(Truncated(a, b));
    WrapSmallValue(a - b * Truncated(a, b));
  }

  lemma TruncatedDivides(x: int, y: int)
    requires -TWO63 <= x < TWO63 && -TWO63 <= y < TWO63 && y != 0 && !(x == -TWO63 && y == -1)
    ensures var t := Truncated(x, y);
            var r := x - y * t;
            && -TWO63 <= t < TWO63 && -TWO63 <= r < TWO63
            && Abs(r) < Abs(y)
            && (r == 0 || (r < 0 <==> x < 0))
  {
    var a, b := Abs(x), Abs(y);
    QuotientBelow(a, b);
    var q, r, t := a / b, a % b, Truncated(x, y);
    assert a == b * q + r;
    SignedRemainder(x, y, q, r);
    TruncatedRange(x, y, q);
    RemainderRange(x - y * t, x, r, b);
  }

  lemma TruncatedRange(x: int, y: int, q: nat)
    requires -TWO63 <= x < TWO63 && y != 0 && !(x == -TWO63 && y == -1) && q == Abs(x) / Abs(y)
    requires q <= Abs(x) && (Abs(y) > 1 && Abs(x) > 0 ==> q < Abs(x))
    ensures -TWO63 <= Truncated(x, y) < TWO63
  {
  }

  lemma RemainderRange(r: int, x: int, m: nat, b: nat)
    requires m < b <= TWO63 && r == if x < 0 then 0 - m else m
    ensures -TWO63 <= r < TWO63 && (if r < 0 then -r else r) < b && (r == 0 || (r < 0 <==> x < 0))
  {
  }

  lemma QuotientBelow(a: nat, b: nat)
    requires b > 0
    ensures 0 <= a / b <= a && (b > 1 && a > 0 ==> a / b < a)
  {
    SmallerQuotient(a, b);
    if b > 1 && a > 0 && a / b == a {
      assert a == a * b + a % b;
      MulMonotone(a, 2, b);
    }
  }

  lemma SignedRemainder(x: int, y: int, q: int, r: int)
    requires y != 0 && Abs(x) == Abs(y) * q + r && q == Abs(x) / Abs(y)
    ensures x - y * Truncated(x, y) == if x < 0 then 0 - r else r
  {
    assert y * (0 - q) == -(y * q);
    assert y < 0 ==> (0 - y) * q == -(y * q);
  }

  lemma WrapSmallValue(v: int)
    requires -TWO63 <= v < TWO63
    ensures Wrap(v) == v
  {
  }

  // ----- truth -----

  /** Comparisons and logical operators deliver one for true and zero for false. */
  lemma TruthValues(x: int64, y: int64)
    ensures Operate(LogicalOr, x, y) == if x == 0 && y == 0 then 0 else 1
    ensures Operate(LogicalAnd, x, y) == if x == 0 || y == 0 then 0 else 1
    ensures Operate(LogicalXor, x, y) == if x == 0 then (if y == 0 then 0 else 1) else if y == 0 then 1 else 0
    ensures x < y ==> (Operate(Less, x, y), Operate(LessEqual, x, y), Operate(Equal, x, y)) == (1, 1, 0)
    ensures x == y ==> (Operate(Less, x, y), Operate(LessEqual, x, y), Operate(Equal, x, y)) == (0, 1, 1)
    ensures x > y ==> (Operate(Less, x, y), Operate(LessEqual, x, y), Operate(Equal, x, y)) == (0, 0, 0)
    ensures Operate(Greater, x, y) == Operate(Less, y, x) && Operate(GreaterEqual, x, y) == Operate(LessEqual, y, x)
    ensures Operate(NotEqual, x, y) + Operate(Equal, x, y) == 1
  {
  }

  // ----- errors -----

  /** Which operands an operator takes: scalars, except for sums, products with one scalar,
      and comparisons; divisors other than zero; and what C defines. */
  lemma OperatorErrorsIff(op: BinaryOp, e: Vector, f: Vector)
    requires Clean(e) && Clean(f)
    ensures op in {Add, Subtract, Equal, NotEqual} ==> Combine(op, e, f).Some?
    ensures op == Multiply ==> (Combine(op, e, f).None? <==> !IsReallySimple(e) && !IsReallySimple(f))
    ensures op in {Less, Greater, LessEqual, GreaterEqual} ==>
              (Combine(op, e, f).None? <==> !IsReallySimple(Difference(e, f)))
    ensures op in {LogicalOr, LogicalXor, LogicalAnd, BitOr, BitXor, BitAnd, ShiftLeft, ShiftRight,
                   Divide, Modulo, SignedDivide, SignedModulo} ==>
              (Combine(op, e, f).None? <==>
                 || !IsReallySimple(e) || !IsReallySimple(f)
                 || (op in {ShiftLeft, ShiftRight} && !(0 <= RelocValue(f) < 64))
                 || (op in {Divide, Modulo, SignedDivide, SignedModulo} && RelocValue(f) == 0)
                 || (op in {SignedDivide, SignedModulo} && RelocValue(e) == -0x8000_0000_0000_0000
                      && RelocValue(f) == -1))
  {
    hide IsSimple, IsReallySimple, IsUnknown, IsJustUnknown, RelocValue, Difference, AddVectors, ScalarMult, Operate,
      Clean, Verdict;
    assert Clean(Difference(e, f)) by { DifferenceIsClean(e, f); }
    CleanIsKnown(e);
    CleanIsKnown(f);
    CleanIsKnown(Difference(e, f));
    KnownMeansNotUnknown(e);
    KnownMeansNotUnknown(f);
    KnownMeansNotUnknown(Difference(e, f));
  }

  lemma DifferenceIsClean(e: Vector, f: Vector)
    requires Clean(e) && Clean(f)
    ensures Clean(Difference(e, f))
  {
    hide Clean, AddVectors, ScalarMult;
    DifferenceIs(e, f);
    ScalarMultClean(f, -1);
    AddClean(e, ScalarMult(f, -1));
  }

  /** Which unary operators report an error: none for the signs; the others for what is neither
      a number nor unknown, and the exact logarithm for what is no power of two. */
  lemma UnaryErrorsIff(op: UnaryOp, e: Vector)
    ensures op in {Negate, Identity} ==> Apply(op, e).Some?
    ensures op in {Complement, Not} ==> (Apply(op, e).None? <==> !IsJustUnknown(e) && !IsSimple(e))
    ensures op.Log? ==>
              (Apply(op, e).None? <==>
                 && !IsJustUnknown(e)
                 && (!IsSimple(e)
                     || (op.kind == Logarithm.Exact && !exists k: nat :: Pattern(RelocValue(e)) == Pow2(k))))
  {
    if op.Log? {
      Logarithm.ExactIff(Pattern(RelocValue(e)));
    }
  }
}
