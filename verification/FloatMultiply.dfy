/** float_multiply of float.c: the truncated product of two 192-bit mantissas, in place. */
module FloatMultiply {
  import opened Powers
  import opened Limbs

  /** Every step adds less than a limb to any one entry, so no 64-bit entry overflows. */
  predicate Bounded(t: seq<int>, steps: nat) {
    |t| == 12 && forall k :: 0 <= k < 12 ==> 0 <= t[k] <= steps * (BASE - 1)
  }

  /** The value accumulated when rows below `i` and columns below `j` of row `i` are done. */
  ghost function Partial(a: seq<int>, b: seq<int>, i: nat, j: nat): int
    requires |a| == |b| == MANT_LIMBS && i <= MANT_LIMBS && j <= MANT_LIMBS
    requires i == MANT_LIMBS ==> j == 0
  {
    BigVal(a[..i]) * Weight(6 - i) * BigVal(b)
    + if i == MANT_LIMBS then 0 else a[i] * Weight(5 - i) * (BigVal(b[..j]) * Weight(6 - j))
  }

  /** The two additions of one inner step add the whole product at its weight. */
  lemma StepValue(t: seq<int>, m: nat, n: int, lo: int, hi: int)
    requires |t| == 12 && m < 11 && n == hi * BASE + lo
    ensures BigVal(t[m := t[m] + hi][m + 1 := t[m + 1] + lo]) == BigVal(t) + n * Weight(10 - m)
  {
    var u := t[m := t[m] + hi];
    BigValUpdate(t, m, hi);
    BigValUpdate(u, m + 1, lo);
    assert Weight(11 - m) == BASE * Weight(10 - m);
    var w := Weight(10 - m);
    assert hi * (BASE * w) + lo * w == (hi * BASE + lo) * w;
  }

  lemma WeightAdd(a: nat, b: nat)
    ensures Weight(a + b) == Weight(a) * Weight(b)
  {
    if a > 0 {
      WeightAdd(a - 1, b);
      assert BASE * (Weight(a - 1) * Weight(b)) == (BASE * Weight(a - 1)) * Weight(b);
    }
  }

  lemma StepArithmetic(ai: int, bj: int, v: int, w: int, p: int)
    ensures ai * p * ((v * BASE + bj) * w) == ai * p * (v * (BASE * w)) + ai * bj * (p * w)
  {
    assert (v * BASE + bj) * w == v * (BASE * w) + bj * w;
    assert ai * p * (bj * w) == ai * bj * (p * w);
  }

  lemma PartialStep(a: seq<int>, b: seq<int>, i: nat, j: nat)
    requires |a| == |b| == MANT_LIMBS && i < MANT_LIMBS && j < MANT_LIMBS
    ensures Partial(a, b, i, j + 1) == Partial(a, b, i, j) + a[i] * b[j] * Weight(10 - (i + j))
  {
    BigValPrefixStep(b, j);
    var w, p := Weight(5 - j), Weight(5 - i);
    assert Weight(6 - j) == BASE * w;
    WeightAdd(5 - i, 5 - j);
    StepArithmetic(a[i], b[j], BigVal(b[..j]), w, p);
  }

  lemma RowArithmetic(v: int, ai: int, w: int, q: int)
    ensures v * (BASE * w) * q + ai * w * q == (v * BASE + ai) * w * q
  {
    assert v * (BASE * w) == v * BASE * w;
  }

  lemma PartialRow(a: seq<int>, b: seq<int>, i: nat)
    requires |a| == |b| == MANT_LIMBS && i < MANT_LIMBS
    ensures Partial(a, b, i, MANT_LIMBS) == Partial(a, b, i + 1, 0)
  {
    BigValPrefixStep(a, i);
    assert b[..6] == b;
    assert Weight(6 - i) == BASE * Weight(5 - i);
    RowArithmetic(BigVal(a[..i]), a[i], Weight(5 - i), BigVal(b));
  }

  /** One step of carry propagation moves the overflow of entry `k` into entry `k - 1`. */
  lemma CarryStep(t: seq<int>, k: nat)
    requires |t| == 12 && 1 <= k < 12 && 0 <= t[k]
    ensures BigVal(t[k - 1 := t[k - 1] + t[k] / BASE][k := t[k] % BASE]) == BigVal(t)
  {
    var c := t[k] / BASE;
    var u := t[k - 1 := t[k - 1] + c];
    BigValUpdate(t, k - 1, c);
    BigValUpdate(u, k, -(c * BASE));
    assert Weight(12 - k) == BASE * Weight(11 - k);
    var w := Weight(11 - k);
    assert c * (BASE * w) + -(c * BASE) * w == 0;
    assert u[k] + -(c * BASE) == t[k] % BASE;
  }

  /** `temp[i] << 1` plus the top bit of the next limb, stored into a 32-bit limb. */
  function ShiftedLimb(x: int, next: int): Limb {
    (2 * x + next / (BASE / 2)) % BASE
  }

  predicate IsShifted(r: seq<int>, t: seq<int>, n: nat)
    requires n < |t|
  {
    n <= |r| && forall k :: 0 <= k < n ==> r[k] == ShiftedLimb(t[k], t[k + 1])
  }

  lemma ShiftedLimbValue(x: Limb, next: Limb)
    ensures ShiftedLimb(x, next) == 2 * x - BASE * (x / (BASE / 2)) + next / (BASE / 2)
  {
    var top := if x < BASE / 2 then 0 else 1;
    var c := if next < BASE / 2 then 0 else 1;
    DivModUnique(x, BASE / 2, top, x - top * (BASE / 2));
    DivModUnique(next, BASE / 2, c, next - c * (BASE / 2));
    DivModUnique(2 * x + c, BASE, top, 2 * x - BASE * top + c);
  }

  lemma {:induction false} ShiftedValue(r: seq<int>, t: seq<int>, n: nat)
    requires n < |t| && (forall k :: 0 <= k < |t| ==> 0 <= t[k] < BASE)
    requires t[0] < BASE / 2
    requires IsShifted(r, t, n)
    ensures BigVal(r[..n]) == 2 * BigVal(t[..n]) + t[n] / (BASE / 2)
  {
    if n > 0 {
      ShiftedValue(r, t, n - 1);
      BigValPrefixStep(t, n - 1);
      BigValPrefixStep(r, n - 1);
      ShiftedLimbValue(t[n - 1], t[n]);
      ShiftedValueStep(BigVal(t[..n - 1]), t[n - 1], t[n], BigVal(r[..n - 1]), r[n - 1]);
    }
  }

  lemma ShiftedValueStep(v: int, x: int, next: int, rv: int, rx: int)
    requires rv == 2 * v + x / (BASE / 2)
    requires rx == 2 * x - BASE * (x / (BASE / 2)) + next / (BASE / 2)
    ensures rv * BASE + rx == 2 * (v * BASE + x) + next / (BASE / 2)
  {
  }

  lemma BigValHead(s: seq<int>)
    requires |s| >= 1
    ensures BigVal(s) == s[0] * Weight(|s| - 1) + BigVal(s[1..])
  {
    BigValSplit(s, 1);
    assert s[..1] == [s[0]];
    assert [s[0]][..0] == [];
  }

  /** The top six limbs of a twelve-limb value are its quotient by 2^192. */
  lemma TopLimbs(t: seq<int>)
    requires |t| == 12 && forall k :: 0 <= k < 12 ==> 0 <= t[k] < BASE
    ensures BigVal(t) / Pow2(192) == BigVal(t[..6]) && BigVal(t) % Pow2(192) == BigVal(t[6..])
  {
    BigValSplit(t, 6);
    BigValBounds(t[6..]);
    WeightIsPow2(6);
    DivModUnique(BigVal(t), Pow2(192), BigVal(t[..6]), BigVal(t[6..]));
  }

  /** The top bit of `s` is the quotient of its value by half its range. */
  lemma TopBit(s: seq<int>)
    requires |s| >= 1 && forall k :: 0 <= k < |s| ==> 0 <= s[k] < BASE
    ensures BigVal(s) / Pow2(32 * |s| - 1) == s[0] / (BASE / 2)
  {
    BigValHead(s);
    BigValBounds(s[1..]);
    var w := Weight(|s| - 1);
    WeightIsPow2(|s|);
    TopBitArithmetic(s[0], w, BigVal(s[1..]), Pow2(32 * |s| - 1));
  }

  lemma TopBitArithmetic(x: int, w: nat, low: int, h: nat)
    requires 0 <= x < BASE && 0 <= low < w && BASE * w == 2 * h
    ensures h > 0 && (x * w + low) / h == x / (BASE / 2)
  {
    var q, r := x / (BASE / 2), x % (BASE / 2);
    assert h == (BASE / 2) * w;
    assert (q * (BASE / 2) + r) * w + low == q * h + (r * w + low);
    MulMonotone(w, r, BASE / 2 - 1);
    MulMonotone(w, 0, r);
    DivModUnique(x * w + low, h, q, r * w + low);
  }

  /** Halving the divisor shifts one more bit into the quotient. */
  lemma HalfDivisor(n: int, h: nat)
    requires h > 0
    ensures n / h == 2 * (n / (2 * h)) + (n % (2 * h)) / h
  {
    var q, r := n / (2 * h), n % (2 * h);
    assert n == q * (2 * h) + r == (2 * q + r / h) * h + r % h;
    DivModUnique(n, h, 2 * q + r / h, r % h);
  }

  /** A mantissa is normalised when its top bit is set. */
  predicate Normalised(v: int) {
    v >= Pow2(191)
  }

  /** The accumulator after the product of limbs `x` and `y` is added at entry `m`. */
  function AddProduct(t: seq<int>, m: nat, x: int, y: int): seq<int>
    requires m + 1 < |t|
  {
    t[m := t[m] + x * y / BASE][m + 1 := t[m + 1] + x * y % BASE]
  }

  lemma AddProductBounded(t: seq<int>, m: nat, x: Limb, y: Limb, steps: nat)
    requires m < 11 && Bounded(t, steps)
    ensures 0 <= x * y / BASE < BASE && 0 <= x * y % BASE < BASE
    ensures Bounded(AddProduct(t, m, x, y), steps + 1)
  {
    ProductFits(x, y);
    DivMonotone(x * y, (BASE - 1) * (BASE - 1), BASE);
  }

  lemma AddProductValue(a: seq<int>, b: seq<int>, t: seq<int>, i: nat, j: nat)
    requires |a| == |b| == MANT_LIMBS && |t| == 12 && i < MANT_LIMBS && j < MANT_LIMBS
    requires BigVal(t) == Partial(a, b, i, j)
    ensures BigVal(AddProduct(t, i + j, a[i], b[j])) == Partial(a, b, i, j + 1)
  {
    var n := a[i] * b[j];
    StepValue(t, i + j, n, n % BASE, n / BASE);
    PartialStep(a, b, i, j);
  }

  method AddAt(temp: array<uint64>, m: nat, x: int, y: int)
    requires temp.Length == 12 && m < 11
    requires 0 <= temp[m] + x * y / BASE < 0x1_0000_0000_0000_0000
    requires 0 <= temp[m + 1] + x * y % BASE < 0x1_0000_0000_0000_0000
    modifies temp
    ensures temp[..] == old(AddProduct(temp[..], m, x, y))
  {
    var n := x * y;
    temp[m] := temp[m] + n / BASE;
    temp[m + 1] := temp[m + 1] + n % BASE;
  }

  /** The schoolbook products, accumulated column by column in 64-bit entries. */
  method Accumulate(to: array<Limb>, from: array<Limb>) returns (temp: array<uint64>)
    requires to.Length == MANT_LIMBS && from.Length == MANT_LIMBS
    ensures fresh(temp) && temp.Length == 12
    ensures BigVal(temp[..]) == BigVal(to[..]) * BigVal(from[..])
    ensures forall k :: 0 <= k < 12 ==> temp[k] <= 36 * BASE
  {
    ghost var a, b := to[..], from[..];
    temp := new uint64[12](_ => 0);
    AllZero(temp[..]);
    var i := 0;
    while i < MANT_LIMBS
      invariant 0 <= i <= MANT_LIMBS
      invariant Bounded(temp[..], 6 * i)
      invariant BigVal(temp[..]) == Partial(a, b, i, 0)
    {
      var j := 0;
      while j < MANT_LIMBS
        invariant 0 <= j <= MANT_LIMBS
        invariant Bounded(temp[..], 6 * i + j)
        invariant BigVal(temp[..]) == Partial(a, b, i, j)
      {
        AddProductBounded(temp[..], i + j, to[i], from[j], 6 * i + j);
        AddProductValue(a, b, temp[..], i, j);
        AddAt(temp, i + j, to[i], from[j]);
        j := j + 1;
      }
      PartialRow(a, b, i);
      i := i + 1;
    }
    assert a[..6] == a;
  }

  lemma ProductFits(x: Limb, y: Limb)
    ensures 0 <= x * y <= (BASE - 1) * (BASE - 1)
  {
    MulBounded(x, y, BASE - 1);
  }

  /** Moves every overflow into the entry above, so that all entries become limbs. */
  method Carry(temp: array<uint64>)
    requires temp.Length == 12
    requires forall k :: 0 <= k < 12 ==> temp[k] <= 36 * BASE
    modifies temp
    ensures BigVal(temp[..]) == old(BigVal(temp[..]))
    ensures forall k :: 1 <= k < 12 ==> temp[k] < BASE
  {
    var i := 11;
    while i > 0
      invariant 0 <= i <= 11
      invariant BigVal(temp[..]) == old(BigVal(temp[..]))
      invariant temp[i] <= 37 * BASE
      invariant forall k :: i < k < 12 ==> temp[k] < BASE
      invariant forall k :: 0 <= k < i ==> temp[k] <= 36 * BASE
    {
      ghost var t := temp[..];
      CarryStep(t, i);
      temp[i - 1] := temp[i - 1] + temp[i] / BASE;
      temp[i] := temp[i] % BASE;
      assert temp[..] == t[i - 1 := t[i - 1] + t[i] / BASE][i := t[i] % BASE];
      i := i - 1;
    }
  }

  /**
    `r` is the exact product of `a` and `b` truncated to 192 bits, after the binary point
    was moved by `e`; it is moved exactly when the product's own top bit is clear.
   */
  ghost predicate IsTruncatedProduct(a: int, b: int, r: int, e: int) {
    && (e == 0 || e == -1)
    && (e == 0 <==> a * b >= Pow2(383))
    && r == a * b / Pow2(192 + e)
  }

  /** The arithmetic behind the two ways of storing the product. */
  lemma Stored(a: seq<int>, b: seq<int>, t: seq<int>)
    requires |a| == |b| == MANT_LIMBS && |t| == 12
    requires forall k :: 0 <= k < 6 ==> 0 <= a[k] < BASE && 0 <= b[k] < BASE
    requires 0 <= t[0] && forall k :: 1 <= k < 12 ==> 0 <= t[k] < BASE
    requires BigVal(t) == BigVal(a) * BigVal(b)
    ensures t[0] < BASE
    ensures t[0] / (BASE / 2) % 2 == 1 ==> (
              IsTruncatedProduct(BigVal(a), BigVal(b), BigVal(t[..6]), 0))
    ensures t[0] / (BASE / 2) % 2 != 1 ==> (t[0] < BASE / 2 &&
              IsTruncatedProduct(BigVal(a), BigVal(b), 2 * BigVal(t[..6]) + t[6] / (BASE / 2), -1))
  {
    TopEntryFits(a, b, t);
    TopLimbs(t);
    TopBit(t);
    TopBit(t[6..]);
    HalfDivisor(BigVal(t), Pow2(191));
    TopBitIsOverflow(BigVal(t), Pow2(383), t[0]);
  }

  /**
    Multiplies `to` by `from` in place and returns the exponent correction.  The stored
    result is the exact product truncated.  `to` and `from` may be the same array.
   */
  method Multiply(to: array<Limb>, from: array<Limb>) returns (e: int)
    requires to.Length == MANT_LIMBS && from.Length == MANT_LIMBS
    modifies to
    ensures IsTruncatedProduct(old(BigVal(to[..])), old(BigVal(from[..])), BigVal(to[..]), e)
  {
    ghost var a, b := to[..], from[..];
    var temp := Accumulate(to, from);
    Carry(temp);
    Stored(a, b, temp[..]);
    if temp[0] / (BASE / 2) % 2 == 1 {
      StoreTop(to, temp);
      e := 0;
    } else {
      StoreShifted(to, temp);
      e := -1;
    }
  }

  method StoreTop(to: array<Limb>, temp: array<uint64>)
    requires to.Length == MANT_LIMBS && temp.Length == 12
    requires forall k :: 0 <= k < 12 ==> temp[k] < BASE
    modifies to
    ensures to[..] == temp[..6]
  {
    var i := 0;
    while i < MANT_LIMBS
      invariant 0 <= i <= MANT_LIMBS
      invariant temp[..] == old(temp[..])
      invariant forall k :: 0 <= k < i ==> to[k] == temp[k]
    {
      to[i] := temp[i] % BASE;
      i := i + 1;
    }
  }

  method StoreShifted(to: array<Limb>, temp: array<uint64>)
    requires to.Length == MANT_LIMBS && temp.Length == 12
    requires temp[0] < BASE / 2 && forall k :: 0 <= k < 12 ==> temp[k] < BASE
    modifies to
    ensures BigVal(to[..]) == 2 * BigVal(temp[..6]) + temp[6] / (BASE / 2)
  {
    var i := 0;
    while i < MANT_LIMBS
      invariant 0 <= i <= MANT_LIMBS
      invariant IsShifted(to[..], temp[..], i)
    {
      to[i] := ShiftedLimb(temp[i], temp[i + 1]);
      i := i + 1;
    }
    ShiftedValue(to[..], temp[..], 6);
    assert to[..][..6] == to[..] && temp[..][..6] == temp[..6];
  }

  lemma TopBitIsOverflow(v: nat, d: nat, x: Limb)
    requires d > 0 && x / (BASE / 2) == v / d
    ensures x / (BASE / 2) % 2 == 1 <==> v >= d
    ensures x / (BASE / 2) % 2 == 1 <==> x >= BASE / 2
  {
    DivPositive(v, d);
    var top := if x < BASE / 2 then 0 else 1;
    DivModUnique(x, BASE / 2, top, x - top * (BASE / 2));
  }

  /** After carrying, the top entry is a limb too, because the product is below 2^384. */
  lemma TopEntryFits(a: seq<int>, b: seq<int>, t: seq<int>)
    requires |a| == |b| == MANT_LIMBS && |t| == 12
    requires forall k :: 0 <= k < 6 ==> 0 <= a[k] < BASE && 0 <= b[k] < BASE
    requires 0 <= t[0] && forall k :: 1 <= k < 12 ==> 0 <= t[k] < BASE
    requires BigVal(t) == BigVal(a) * BigVal(b)
    ensures 0 <= BigVal(t) && t[0] < BASE
  {
    BigValBounds(a);
    BigValBounds(b);
    ProductBelow(BigVal(a), BigVal(b), Weight(6));
    WeightAdd(6, 6);
    BigValHead(t);
    BigValBounds(t[1..]);
    TopFits(t[0], Weight(11), BigVal(t[1..]), BASE);
  }

  lemma ProductBelow(x: nat, y: nat, w: nat)
    requires x < w && y < w
    ensures 0 <= x * y < w * w
  {
    MulMonotone(x, y, w);
    MulStrict(w, x, w);
  }

  lemma TopFits(x: int, w: nat, low: nat, base: nat)
    requires 0 < w && x * w + low < base * w
    ensures x < base
  {
    MulCancel(w, x, base);
  }

  /** The product of two normalised mantissas is normalised, and stays below 2^192. */
  lemma ProductNormalised(a: nat, b: nat, r: int, e: int)
    requires Normalised(a) && Normalised(b)
    requires IsTruncatedProduct(a, b, r, e)
    ensures Normalised(r)
  {
    var h, n := Pow2(191), 191;
    ProductAtLeast(a, b, h);
    Pow2Add(n, n);
    Pow2Add(n, 192 + e);
    QuotientAtLeast(a * b, Pow2(192 + e), h);
  }

  lemma ProductAtLeast(a: nat, b: nat, h: nat)
    requires a >= h && b >= h
    ensures a * b >= h * h
  {
    MulMonotone(a, h, b);
    MulMonotone(h, h, a);
  }

  lemma QuotientAtLeast(n: nat, d: nat, q: nat)
    requires 0 < d && n >= q * d
    ensures n / d >= q
  {
    DivMonotone(q * d, n, d);
    DivModUnique(q * d, d, q, 0);
  }
}
