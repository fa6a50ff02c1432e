/** The second half of ieee_flconvert: scaling by a power of five, and the error bound. */
module FloatScale {
  import opened DecimalDigits
  import opened Powers
  import opened RealPowers
  import opened Limbs
  import opened FloatMultiply
  import opened FloatDecimal
  import opened FloatDigits

  /** The relative error of one truncation to 192 bits, and the excess of the stored 1/5. */
  const EPSILON: real := 1.0 / (Pow2(191) as real)
  const DELTA: real := 1.0 / (Pow2(194) as real)

  /** A mantissa with its binary exponent, as a number: mant * 2^(exponent - 192). */
  ghost function Float(mant: int, exponent: int): real {
    mant as real * ZPow(2.0, exponent - 192)
  }

  /** The multiplier whose powers are taken: five, or what 0xcc..cd stands for instead of 1/5. */
  ghost function Factor(up: bool): real {
    if up then 5.0 else 0.2 * (1.0 + DELTA)
  }

  /** The exact factor, less one rounding. */
  ghost function LowFactor(up: bool): real {
    (if up then 5.0 else 0.2) * (1.0 - EPSILON)
  }

  lemma Constants()
    ensures 0.0 < EPSILON < 1.0 && 0.0 < DELTA
    ensures EPSILON * (Pow2(191) as real) == 1.0 && DELTA * (Pow2(194) as real) == 1.0
  {
    var n := 191;
    assert Pow2(n) == 2 * Pow2(n - 1);
  }

  lemma RealProduct(a: int, b: int)
    ensures (a * b) as real == a as real * b as real
  {
  }

  lemma FloorBounds(n: nat, d: nat, r: int)
    requires d > 0 && r == n / d
    ensures 0 <= r && r as real * d as real <= n as real < (r as real + 1.0) * d as real
  {
    assert r * d <= n < (r + 1) * d;
    RealProduct(r, d);
    RealProduct(r + 1, d);
  }

  lemma ErrorArithmetic(p: real, r: real, d: real, s: real, h: real, eps: real)
    requires d > 0.0 && s > 0.0 && r >= 0.0 && 0.0 < eps < 1.0 && eps * h == 1.0
    requires r * d <= p < (r + 1.0) * d
    requires r >= h || p == 0.0
    ensures p * s * (1.0 - eps) <= r * (d * s) <= p * s
  {
    assert r * (d * s) == r * d * s;
    ScaleLess(s, r * d, p);
    assert p * (1.0 - eps) <= r * d by {
      if p != 0.0 {
        ScaleLess(1.0 - eps, p, (r + 1.0) * d);
        ScaleLess(eps, h, r);
        assert (r + 1.0) * (1.0 - eps) <= r;
        ScaleLess(d, (r + 1.0) * (1.0 - eps), r);
      } else {
        ScaleLess(d, 0.0, r);
      }
    }
    ScaleLess(s, p * (1.0 - eps), r * d);
  }

  /** `m` is the integer part of v * q / t. */
  ghost predicate IsRealFloor(v: real, m: real, q: real, t: real) {
    m * t <= v * q < (m + 1.0) * t
  }

  /** One product step loses at most a relative EPSILON and never gains. */
  lemma ProductError(a: nat, b: nat, r: int, e: int, x: int, y: int)
    requires IsTruncatedProduct(a, b, r, e)
    requires Normalised(r) || a == 0
    ensures Rounded(Float(r, x + y + e), Float(a, x), Float(b, y), 1.0 - EPSILON)
  {
    hide ZPow, Pow2, EPSILON, Rounded, IsRealFloor, IsTruncatedProduct, Normalised;
    Constants();
    ProductFloor(a, b, r, e);
    ExponentSplit(x, y, e);
    RoundedArithmetic(a as real, b as real, r as real, Pow2(192 + e) as real,
                      ZPow(2.0, x - 192), ZPow(2.0, y - 192), ZPow(2.0, x + y - 384),
                      ZPow(2.0, x + y + e - 192), Pow2(191) as real, EPSILON,
                      Float(r, x + y + e), Float(a, x), Float(b, y));
  }

  lemma ExponentSplit(x: int, y: int, e: int)
    requires e >= -1
    ensures ZPow(2.0, x - 192) * ZPow(2.0, y - 192) == ZPow(2.0, x + y - 384) > 0.0
    ensures Pow2(192 + e) as real * ZPow(2.0, x + y - 384) == ZPow(2.0, x + y + e - 192)
    ensures Pow2(192 + e) as real > 0.0
  {
    hide ZPow;
    ZPow2IsPow2(192 + e);
    ZPowAdd(2.0, 192 + e, x + y - 384);
    assert 192 + e + (x + y - 384) == x + y + e - 192;
    ZPowAdd(2.0, x - 192, y - 192);
    assert x - 192 + (y - 192) == x + y - 384;
    ZPowPositive(2.0, x + y - 384);
  }

  lemma ProductFloor(a: nat, b: nat, r: int, e: int)
    requires IsTruncatedProduct(a, b, r, e)
    requires Normalised(r) || a == 0
    ensures r >= 0 && e >= -1
    ensures IsRealFloor(a as real, r as real, b as real, Pow2(192 + e) as real)
    ensures r as real >= Pow2(191) as real || a as real == 0.0
  {
    hide Pow2;
    FloorBounds(a * b, Pow2(192 + e), r);
    RealProduct(a, b);
  }

  lemma RoundedArithmetic(a: real, b: real, r: real, d: real, za: real, zb: real, s: real,
                          zr: real, h: real, eps: real,
                          fr: real, fa: real, fb: real)
    requires fr == r * zr && fa == a * za && fb == b * zb
    requires d > 0.0 && s > 0.0 && r >= 0.0 && 0.0 < eps < 1.0 && eps * h == 1.0
    requires IsRealFloor(a, r, b, d) && za * zb == s && d * s == zr
    requires r >= h || a == 0.0
    ensures Rounded(fr, fa, fb, 1.0 - eps)
  {
    ErrorArithmetic(a * b, r, d, s, h, eps);
    Regroup(a, za, b, zb);
  }

  // ----- the square-and-multiply loop -----

  /** `u` approximates the `w`-th power of the factor, having lost fewer than `w` roundings. */
  ghost predicate PowerBounds(up: bool, u: real, w: nat) {
    Within(RPow(LowFactor(up), w), RPow(Factor(up), w), u, 1.0 - EPSILON)
  }

  ghost predicate Within(low: real, high: real, u: real, c: real) {
    low <= u * c && u <= high
  }

  /** `m` approximates `x` times the `n`-th power, having lost at most `n + 1` roundings. */
  ghost predicate ProductBounds(up: bool, x: real, m: real, n: nat) {
    Around(x, RPow(LowFactor(up), n), RPow(Factor(up), n), m, 1.0 - EPSILON)
  }

  ghost predicate Around(x: real, low: real, high: real, m: real, c: real) {
    x * low * c <= m <= x * high
  }

  /** `r` is `m` times `u`, less at most one rounding. */
  ghost predicate Rounded(r: real, m: real, u: real, c: real) {
    m * u * c <= r <= m * u
  }

  lemma FactorsPositive(up: bool, n: nat)
    ensures 0.0 < LowFactor(up) && 0.0 < Factor(up)
    ensures 0.0 < RPow(LowFactor(up), n) && 0.0 < RPow(Factor(up), n)
  {
    hide EPSILON, DELTA, RPow;
    Constants();
    RPowPositive(LowFactor(up), n);
    RPowPositive(Factor(up), n);
  }

  lemma MultiplyBounds(up: bool, x: real, m: real, n: nat, u: real, w: nat, r: real)
    requires x >= 0.0 && ProductBounds(up, x, m, n) && PowerBounds(up, u, w)
    requires Rounded(r, m, u, 1.0 - EPSILON)
    ensures ProductBounds(up, x, r, n + w)
  {
    hide EPSILON, DELTA, RPow, LowFactor, Factor, Within, Around, Rounded;
    Constants();
    FactorsPositive(up, n);
    FactorsPositive(up, w);
    RPowAdd(LowFactor(up), n, w);
    RPowAdd(Factor(up), n, w);
    BoundsArithmetic(x, RPow(LowFactor(up), n), RPow(Factor(up), n), m,
                     RPow(LowFactor(up), w), RPow(Factor(up), w), u,
                     RPow(LowFactor(up), n + w), RPow(Factor(up), n + w), r, 1.0 - EPSILON);
  }

  lemma BoundsArithmetic(x: real, l: real, h: real, m: real, lw: real, hw: real, u: real,
                        l': real, h': real, r: real, c: real)
    requires l' == l * lw && h' == h * hw && x >= 0.0 && l > 0.0 && h > 0.0 && lw > 0.0 && hw > 0.0 && 0.0 < c < 1.0
    requires Around(x, l, h, m, c) && Within(lw, hw, u, c) && Rounded(r, m, u, c)
    ensures Around(x, l', h', r, c)
  {
    ScaleLess(x, 0.0, l);
    ScaleLess(c, 0.0, x * l);
    ScaleLess(c, u, hw);
    NonNegative(u, c);
    ProductLess(x * l * c, m, lw, u * c);
    assert x * l * c * lw == x * (l * lw) * c;
    assert m * (u * c) == m * u * c;
    ProductLess(m, x * h, u, hw);
    assert x * h * hw == x * (h * hw);
  }

  lemma NonNegative(u: real, c: real)
    requires c > 0.0 && u * c > 0.0
    ensures u > 0.0
  {
  }

  lemma SquareBounds(up: bool, u: real, w: nat, r: real)
    requires PowerBounds(up, u, w)
    requires Rounded(r, u, u, 1.0 - EPSILON)
    ensures PowerBounds(up, r, 2 * w)
  {
    hide EPSILON, DELTA, RPow, LowFactor, Factor, Within, Rounded;
    Constants();
    FactorsPositive(up, w);
    RPowAdd(LowFactor(up), w, w);
    RPowAdd(Factor(up), w, w);
    assert w + w == 2 * w;
    SquareArithmetic(RPow(LowFactor(up), w), RPow(Factor(up), w), u,
                     RPow(LowFactor(up), 2 * w), RPow(Factor(up), 2 * w), r, 1.0 - EPSILON);
  }

  lemma SquareArithmetic(l: real, h: real, u: real, l': real, h': real, r: real, c: real)
    requires l' == l * l && h' == h * h && 0.0 < l && 0.0 < c < 1.0 && Within(l, h, u, c) && Rounded(r, u, u, c)
    ensures Within(l', h', r, c)
  {
    NonNegative(u, c);
    ProductLess(l, u * c, l, u * c);
    assert (u * c) * (u * c) == u * u * c * c;
    ScaleLess(c, u * u * c, r);
    ProductLess(u, h, u, h);
  }

  // ----- the initial multiplier -----

  lemma {:induction false} RepeatedLimb(s: seq<int>)
    requires forall k :: 0 <= k < |s| ==> s[k] == 0xcccc_cccc
    ensures 5 * BigVal(s) == 4 * (Weight(|s|) - 1)
  {
    if |s| > 0 {
      RepeatedLimb(s[..|s| - 1]);
    }
  }

  /** 0xcccc...cd is one fifth of 2^194 rounded up. */
  lemma FifthValue(s: seq<int>)
    requires |s| == MANT_LIMBS && s[5] == 0xcccc_cccd
    requires forall k :: 0 <= k < 5 ==> s[k] == 0xcccc_cccc
    ensures 5 * BigVal(s) == Pow2(194) + 1
  {
    RepeatedLimb(s[..5]);
    WeightIsPow2(6);
    assert Weight(6) == BASE * Weight(5);
    var n := 192;
    Pow2Add(2, n);
  }

  lemma FiveValue(s: seq<int>)
    requires |s| == MANT_LIMBS && s[0] == 0xa000_0000
    requires forall k :: 1 <= k < 6 ==> s[k] == 0
    ensures BigVal(s) == 5 * Pow2(189)
  {
    hide BigVal, Weight, Pow2;
    BigValHead(s);
    ZeroValue(s[1..]);
    WeightIsPow2(5);
    Pow2Add(29, 160);
    TwoTo29();
  }

  lemma TwoTo29()
    ensures Pow2(29) == 0x2000_0000
  {
    WeightIsPow2(1);
    Pow2Add(29, 3);
    assert Pow2(3) == 8;
  }

  lemma FactorStart(up: bool, v: int)
    requires if up then v == 5 * Pow2(189) else 5 * v == Pow2(194) + 1
    ensures Normalised(v) && v >= 0
    ensures PowerBounds(up, Float(v, if up then 3 else -2), 1)
  {
    var e := if up then 3 else -2;
    StartNormalised(up, v);
    StartValue(up, v);
    hide Float, Factor, LowFactor, EPSILON, DELTA;
    assert RPow(LowFactor(up), 1) == LowFactor(up) * 1.0;
    assert RPow(Factor(up), 1) == Factor(up) * 1.0;
    hide RPow;
    StartLow(up);
  }

  lemma StartNormalised(up: bool, v: int)
    requires if up then v == 5 * Pow2(189) else 5 * v == Pow2(194) + 1
    ensures Normalised(v) && v >= 0
  {
    var n := 189;
    Pow2Add(2, n);
    Pow2Add(5, n);
    assert Pow2(2) == 4 && Pow2(5) == 32;
  }

  lemma StartLow(up: bool)
    ensures LowFactor(up) <= Factor(up) * (1.0 - EPSILON)
  {
    hide EPSILON, DELTA;
    Constants();
    if !up {
      ScaleLess(0.2, 1.0, 1.0 + DELTA);
      ScaleLess(1.0 - EPSILON, 0.2, 0.2 * (1.0 + DELTA));
    }
  }

  lemma StartValue(up: bool, v: int)
    requires if up then v == 5 * Pow2(189) else 5 * v == Pow2(194) + 1
    ensures Float(v, if up then 3 else -2) == Factor(up)
  {
    hide ZPow, RPow, EPSILON, DELTA, Pow2;
    Constants();
    if up {
      RealProduct(5, Pow2(189));
      ZPow2IsPow2(189);
      ZPowAdd(2.0, 189, -189);
      ZPowZero();
      var p, q := ZPow(2.0, 189), ZPow(2.0, -189);
      assert 5.0 * p * q == 5.0 * (p * q);
    } else {
      ZPow2IsPow2(194);
      ZPowAdd(2.0, 194, -194);
      ZPowZero();
      RealProduct(5, v);
      FifthArithmetic(v as real, Pow2(194) as real, ZPow(2.0, -194), DELTA);
    }
  }

  lemma ZPowZero()
    ensures ZPow(2.0, 0) == 1.0
  {
  }

  lemma FifthArithmetic(v: real, p: real, q: real, d: real)
    requires 5.0 * v == p + 1.0 && p * q == 1.0 && d * p == 1.0
    ensures v * q == 0.2 * (1.0 + d)
  {
    assert d == d * (p * q) == (d * p) * q == q;
    assert 5.0 * (v * q) == (5.0 * v) * q == (p + 1.0) * q == 1.0 + q;
  }

  // ----- the loop -----

  /** Fills `mult` with five or with the stored one fifth. */
  method InitialMultiplier(mult: array<Limb>, up: bool) returns (extratwos: int)
    requires mult.Length == MANT_LIMBS
    modifies mult
    ensures extratwos == if up then 3 else -2
    ensures Normalised(BigVal(mult[..]))
    ensures PowerBounds(up, Float(BigVal(mult[..]), extratwos), 1)
  {
    hide PowerBounds, Float, BigVal, Normalised;
    var m := 0;
    while m < MANT_LIMBS
      invariant 0 <= m <= MANT_LIMBS
      invariant forall k :: 0 <= k < m ==> mult[k] == if up then 0 else 0xcccc_cccc
    {
      mult[m] := if up then 0 else 0xcccc_cccc;
      m := m + 1;
    }
    if up {
      mult[0] := 0xa000_0000;
      FiveValue(mult[..]);
      extratwos := 3;
    } else {
      mult[5] := 0xcccc_cccd;
      FifthValue(mult[..]);
      extratwos := -2;
    }
    FactorStart(up, BigVal(mult[..]));
  }

  /** The exponent of the multiplier stays within three bits per power of five. */
  predicate ExponentRange(up: bool, extratwos: int, w: nat) {
    if up then 2 * w + 1 <= extratwos <= 3 * w else -3 * w + 1 <= extratwos <= -2 * w
  }

  ghost predicate ZeroOrNormalised(v: int) {
    v == 0 || Normalised(v)
  }

  lemma ProductZeroOrNormalised(a: nat, b: nat, r: int, e: int)
    requires ZeroOrNormalised(a) && Normalised(b)
    requires IsTruncatedProduct(a, b, r, e)
    ensures ZeroOrNormalised(r) && (Normalised(r) || a == 0)
    ensures Normalised(a) ==> Normalised(r)
  {
    if Normalised(a) {
      ProductNormalised(a, b, r, e);
    } else {
      DivModUnique(0, Pow2(192 + e), 0, 0);
    }
  }

  /** mant * mult, with everything the loop needs to know about the result. */
  method MultiplyMantissa(mant: array<Limb>, mult: array<Limb>, ghost up: bool, ghost x: real,
                          ghost n: nat, ghost w: nat, ghost twopwr: int, ghost extratwos: int)
    returns (e: int)
    requires mant.Length == MANT_LIMBS && mult.Length == MANT_LIMBS && mant != mult && x >= 0.0
    requires ZeroOrNormalised(BigVal(mant[..])) && Normalised(BigVal(mult[..]))
    requires ProductBounds(up, x, Float(BigVal(mant[..]), twopwr), n)
    requires PowerBounds(up, Float(BigVal(mult[..]), extratwos), w)
    modifies mant
    ensures e == 0 || e == -1
    ensures ZeroOrNormalised(BigVal(mant[..]))
    ensures ProductBounds(up, x, Float(BigVal(mant[..]), twopwr + extratwos + e), n + w)
  {
    hide ZeroOrNormalised, Normalised, PowerBounds, ProductBounds, Float, BigVal, Rounded, EPSILON, Weight;
    ghost var a, b := BigVal(mant[..]), BigVal(mult[..]);
    BigValBounds(mant[..]);
    BigValBounds(mult[..]);
    e := Multiply(mant, mult);
    ghost var r := BigVal(mant[..]);
    ProductZeroOrNormalised(a, b, r, e);
    hide IsTruncatedProduct;
    ProductError(a, b, r, e, twopwr, extratwos);
    MultiplyBounds(up, x, Float(a, twopwr), n, Float(b, extratwos), w, Float(r, twopwr + extratwos + e));
    CorrectionRange(a, b, r, e);
  }

  lemma CorrectionRange(a: int, b: int, r: int, e: int)
    requires IsTruncatedProduct(a, b, r, e)
    ensures e == 0 || e == -1
  {
  }

  /** mult * mult: the same array on both sides. */
  method SquareMultiplier(mult: array<Limb>, ghost up: bool, ghost w: nat, ghost extratwos: int)
    returns (e: int)
    requires mult.Length == MANT_LIMBS && Normalised(BigVal(mult[..]))
    requires PowerBounds(up, Float(BigVal(mult[..]), extratwos), w)
    modifies mult
    ensures e == 0 || e == -1
    ensures Normalised(BigVal(mult[..]))
    ensures PowerBounds(up, Float(BigVal(mult[..]), extratwos * 2 + e), 2 * w)
  {
    hide Normalised, PowerBounds, Float, BigVal, Rounded, EPSILON, Weight;
    ghost var b := BigVal(mult[..]);
    BigValBounds(mult[..]);
    e := Multiply(mult, mult);
    ghost var r := BigVal(mult[..]);
    ProductNormalised(b, b, r, e);
    hide IsTruncatedProduct;
    ProductError(b, b, r, e, extratwos, extratwos);
    assert extratwos + extratwos + e == extratwos * 2 + e;
    SquareBounds(up, Float(b, extratwos), w, Float(r, extratwos * 2 + e));
    CorrectionRange(b, b, r, e);
  }

  lemma HalveStep(t: nat, w: nat, total: nat, n: nat)
    requires total == n + t * w
    ensures t % 2 == 1 ==> total == (n + w) + (t / 2) * (2 * w)
    ensures t % 2 == 0 ==> total == n + (t / 2) * (2 * w)
  {
    assert t == 2 * (t / 2) + t % 2;
    assert (2 * (t / 2) + t % 2) * w == (t / 2) * (2 * w) + (t % 2) * w;
  }

  /** Multiplies `mant` by 5^tenpwr, by repeated squaring; `x` is what `mant` stood for. */
  method ScaleByFive(mant: array<Limb>, twopwr0: int, tenpwr0: int, ghost x: real)
    returns (twopwr: int)
    requires mant.Length == MANT_LIMBS && x >= 0.0
    requires ZeroOrNormalised(BigVal(mant[..]))
    requires ProductBounds(tenpwr0 >= 0, x, Float(BigVal(mant[..]), twopwr0), 0)
    modifies mant
    ensures ZeroOrNormalised(BigVal(mant[..]))
    ensures ProductBounds(tenpwr0 >= 0, x, Float(BigVal(mant[..]), twopwr), Magnitude(tenpwr0))
    ensures -3 * Magnitude(tenpwr0) <= twopwr - twopwr0 <= 3 * Magnitude(tenpwr0)
  {
    hide ZeroOrNormalised, Normalised, PowerBounds, ProductBounds, Float, BigVal;
    twopwr := twopwr0;
    if tenpwr0 == 0 {
      return;
    }
    ghost var up := tenpwr0 >= 0;
    var mult := new Limb[MANT_LIMBS];
    var extratwos := InitialMultiplier(mult, tenpwr0 > 0);
    var tenpwr := if tenpwr0 < 0 then -tenpwr0 else tenpwr0;
    ghost var n: nat, w: nat := 0, 1;
    while tenpwr != 0
      invariant tenpwr >= 0 && Magnitude(tenpwr0) == n + tenpwr * w
      invariant mult != mant && fresh(mult)
      invariant Normalised(BigVal(mult[..])) && ZeroOrNormalised(BigVal(mant[..]))
      invariant PowerBounds(up, Float(BigVal(mult[..]), extratwos), w)
      invariant ProductBounds(up, x, Float(BigVal(mant[..]), twopwr), n)
      invariant ExponentRange(up, extratwos, w)
      invariant -3 * n <= twopwr - twopwr0 <= 3 * n
      decreases tenpwr
    {
      HalveStep(tenpwr, w, Magnitude(tenpwr0), n);
      if tenpwr % 2 == 1 {
        var e := MultiplyMantissa(mant, mult, up, x, n, w, twopwr, extratwos);
        twopwr := twopwr + (extratwos + e);
        n := n + w;
      }
      var e := SquareMultiplier(mult, up, w, extratwos);
      extratwos := extratwos * 2 + e;
      w := 2 * w;
      tenpwr := tenpwr / 2;
    }
  }

  function Magnitude(t: int): nat {
    if t >= 0 then t else -t
  }

  // ----- ieee_flconvert -----

  /** The number a decimal constant denotes: its kept digits, with the point where it was written. */
  ghost function DecimalValue(kept: seq<int>, tenpwr: int): real
    requires |kept| <= MANT_DIGITS
  {
    (Scaled(kept) as real) / (Pow10(MANT_DIGITS) as real) * ZPow(10.0, tenpwr)
  }

  /** The whole string is a decimal floating-point constant. */
  predicate WellFormed(s: string) {
    var end := SignificandEnd(s);
    && SignificandOk(s[..end])
    && (end < |s| ==> ExponentOf(s[end + 1..], 5000).Some?)
  }

  function TenPower(s: string): int
    requires WellFormed(s)
  {
    var end := SignificandEnd(s);
    PointPosition(s[..end]) + if end < |s| then ExponentOf(s[end + 1..], 5000).value else 0
  }

  /** The power of ten is no further from zero than the length of the string and the cap allow. */
  lemma TenPowerRange(s: string)
    requires WellFormed(s)
    ensures Magnitude(TenPower(s)) <= |s| + 5000
  {
    var end := SignificandEnd(s);
    IntegerDigitsRange(s[..end]);
    DigitsRange(s[..end]);
    hide Digits, IntegerDigits, LeadingZeros, SignificandOk;
    if end < |s| {
      ExponentRangeCapped(s[end + 1..], 5000);
    }
  }

  lemma ExponentRangeCapped(s: string, max: nat)
    requires ExponentOf(s, max).Some?
    ensures 0 - max <= ExponentOf(s, max).value <= max
  {
    DecValBounds(Digits(s[SkipSign(s)..]));
  }

  lemma {:induction false} IntegerDigitsRange(t: string)
    ensures IntegerDigits(t) <= |t|
  {
    if |t| > 0 { IntegerDigitsRange(t[..|t| - 1]); }
  }

  lemma {:induction false} DigitsRange(t: string)
    ensures |Digits(t)| <= |t|
  {
    if |t| > 0 { DigitsRange(t[..|t| - 1]); }
  }

  ghost function ValueOf(s: string): real
    requires WellFormed(s)
  {
    DecimalValue(Kept(Digits(s[..SignificandEnd(s)])), TenPower(s))
  }

  /**
    How close the conversion gets: rounding only ever loses, at most once per power of
    five and once for the digits; a negative power can also gain the excess of the stored
    one fifth.
   */
  ghost predicate CloseTo(x: real, v: real, t: int) {
    && x * RPow(1.0 - EPSILON, Magnitude(t) + 1) <= v
    && v <= if t >= 0 then x else x * RPow(1.0 + DELTA, Magnitude(t))
  }

  /** What the digit conversion delivers, as the start of the scaling loop. */
  lemma DigitsBounds(v0: nat, mant: int, twopwr: int, tenpwr: int, x: real)
    requires twopwr <= 0 && Truncates(v0, mant, twopwr)
    requires x == v0 as real / (Pow10(MANT_DIGITS) as real) * ZPow(2.0, tenpwr)
    ensures x >= 0.0 && ZeroOrNormalised(mant)
    ensures ProductBounds(tenpwr >= 0, x, Float(mant, twopwr + tenpwr), 0)
  {
    hide Truncates, Pow10, Pow2, ZPow, RPow, EPSILON, Around, ProductBounds, ZeroOrNormalised, IsRealFloor, Float;
    var k := 192 - twopwr;
    TruncatesReal(v0, mant, twopwr);
    Constants();
    ZPow2IsPow2(k);
    ZPowAdd(2.0, k, twopwr + tenpwr - 192);
    assert k + (twopwr + tenpwr - 192) == tenpwr;
    ZPowPositive(2.0, twopwr + tenpwr - 192);
    StartArithmetic(v0 as real, mant as real, Pow2(k) as real, Pow10(MANT_DIGITS) as real,
                    ZPow(2.0, twopwr + tenpwr - 192), ZPow(2.0, tenpwr), Pow2(191) as real, EPSILON, x);
    ProductBoundsStart(tenpwr >= 0, x, mant, twopwr + tenpwr);
  }

  lemma ProductBoundsStart(up: bool, x: real, mant: int, e: int)
    requires Around(x, 1.0, 1.0, mant as real * ZPow(2.0, e - 192), 1.0 - EPSILON)
    ensures ProductBounds(up, x, Float(mant, e), 0)
  {
  }

  lemma TruncatesReal(v0: nat, mant: int, twopwr: int)
    requires twopwr <= 0 && Truncates(v0, mant, twopwr)
    ensures ZeroOrNormalised(mant)
    ensures IsRealFloor(v0 as real, mant as real, Pow2(192 - twopwr) as real, Pow10(MANT_DIGITS) as real)
    ensures mant as real >= Pow2(191) as real || (mant as real == 0.0 && v0 as real == 0.0)
  {
    hide Pow2, Pow10;
    var q, t := Pow2(192 - twopwr), Pow10(MANT_DIGITS);
    RealProduct(mant, t);
    RealProduct(mant + 1, t);
    RealProduct(v0, q);
  }

  lemma StartArithmetic(v0: real, mant: real, q: real, t: real, s: real, z: real, h: real, eps: real,
                        x: real)
    requires v0 >= 0.0 && t > 0.0 && q > 0.0 && s > 0.0 && 0.0 < eps < 1.0 && eps * h == 1.0
    requires IsRealFloor(v0, mant, q, t)
    requires mant >= h || (mant == 0.0 && v0 == 0.0)
    requires z == q * s && x == v0 / t * z
    ensures x >= 0.0 && Around(x, 1.0, 1.0, mant * s, 1.0 - eps)
  {
    var s' := s / t;
    assert s' * t == s;
    PositiveQuotient(s, t);
    var y := v0 / t;
    assert y * t == v0;
    assert v0 * q * s' == (y * t) * q * s' == y * q * (s' * t) == x;
    if mant != 0.0 { assert h > 0.0; }
    ErrorArithmetic(v0 * q, mant, t, s', h, eps);
    assert mant * (t * s') == mant * s;
    ScaleLess(q, 0.0, v0);
    ScaleLess(s', 0.0, v0 * q);
  }

  lemma PositiveQuotient(a: real, b: real)
    requires a > 0.0 && b > 0.0
    ensures a / b > 0.0
  {
  }

  /** 5^-1 and 10^t, as the loop uses them: x times a power of two is the digits at 2^t. */
  lemma DecimalSplits(v0: nat, tenpwr: int)
    ensures v0 as real / (Pow10(MANT_DIGITS) as real) * ZPow(10.0, tenpwr)
         == v0 as real / (Pow10(MANT_DIGITS) as real) * ZPow(2.0, tenpwr)
            * RPow(if tenpwr >= 0 then 5.0 else 0.2, Magnitude(tenpwr))
  {
    hide ZPow, RPow, Pow10;
    ZPowProduct(2.0, 5.0, tenpwr);
    FivePower(tenpwr);
    var y := v0 as real / (Pow10(MANT_DIGITS) as real);
    var p, q := ZPow(2.0, tenpwr), ZPow(5.0, tenpwr);
    assert y * (p * q) == y * p * q;
  }

  lemma FivePower(t: int)
    ensures ZPow(5.0, t) == RPow(if t >= 0 then 5.0 else 0.2, Magnitude(t))
  {
    if t < 0 {
      RPowPositive(5.0, -t);
      RPowProduct(5.0, 0.2, -t);
      OnePower(-t);
      hide RPow;
      InverseUnique(RPow(5.0, -t), RPow(0.2, -t));
    }
  }

  lemma {:induction false} OnePower(n: nat)
    ensures RPow(1.0, n) == 1.0
  {
    if n > 0 {
      OnePower(n - 1);
    }
  }

  lemma InverseUnique(x: real, y: real)
    requires x > 0.0 && x * y == 1.0
    ensures 1.0 / x == y
  {
    var z := 1.0 / x;
    assert x * z == 1.0;
    Cancel(x, z, y);
  }

  /** The loop's bounds, restated about the decimal value itself. */
  lemma BoundsMeanClose(x: real, v: real, tenpwr: int, g: real, d: real)
    requires ProductBounds(tenpwr >= 0, x, v, Magnitude(tenpwr)) && x >= 0.0
    requires g == if tenpwr >= 0 then 5.0 else 0.2
    requires d == x * RPow(g, Magnitude(tenpwr))
    ensures CloseTo(d, v, tenpwr)
  {
    var n, up := Magnitude(tenpwr), tenpwr >= 0;
    hide RPow, EPSILON, DELTA, Around;
    RPowProduct(g, 1.0 - EPSILON, n);
    RPowProduct(g, 1.0 + DELTA, n);
    RPowSucc(1.0 - EPSILON, n);
    CloseArithmetic(x, RPow(g, n), RPow(1.0 - EPSILON, n), RPow(1.0 + DELTA, n), 1.0 - EPSILON, up,
                    RPow(LowFactor(up), n), RPow(Factor(up), n), v, d);
  }

  lemma RPowSucc(b: real, n: nat)
    ensures RPow(b, n + 1) == b * RPow(b, n)
  {
  }

  lemma CloseArithmetic(x: real, p: real, q: real, q': real, c: real, up: bool, low: real, high: real,
                        v: real, d: real)
    requires low == p * q && high == (if up then p else p * q') && d == x * p
    requires Around(x, low, high, v, c)
    ensures d * (c * q) <= v <= if up then d else d * q'
  {
    assert d * (c * q) == x * (p * q) * c;
    assert d * q' == x * (p * q');
  }

  /**
    ieee_flconvert.  On success the mantissa and exponent approximate the value of the
    constant to within the stated relative error, the mantissa is normalised unless it is
    zero, and the exponent is within four times the power of ten of zero; so 32 bits hold it
    for every constant of less than 500 million characters.
   */
  method Flconvert(s: string, mant: array<Limb>) returns (ok: bool, exponent: int)
    requires mant.Length == MANT_LIMBS
    modifies mant
    ensures ok <==> WellFormed(s)
    ensures ok ==> CloseTo(ValueOf(s), Float(BigVal(mant[..]), exponent), TenPower(s))
    ensures ok ==> ZeroOrNormalised(BigVal(mant[..]))
    ensures ok ==> -173 <= exponent + 4 * Magnitude(TenPower(s)) && exponent <= 4 * Magnitude(TenPower(s))
    ensures ok ==> Magnitude(exponent) <= 4 * |s| + 20173
  {
    hide CloseTo, DecimalValue, Scaled, Float, BigVal, ZeroOrNormalised, ProductBounds, Truncates,
      Kept, Digits, SignificandOk, PointPosition, ExponentOf, Pow10, ZPow, RPow, EPSILON, DELTA, DecVal;
    var digits := new int[MANT_DIGITS];
    var p, tenpwr, pos;
    ok, p, tenpwr, pos := ScanSignificand(s, digits);
    exponent := 0;
    if !ok {
      return;
    }
    ghost var kept := digits[..p];
    if pos < |s| {
      var e := ReadExponent(s[pos + 1..], 5000);
      if e.None? {
        return false, 0;
      }
      tenpwr := tenpwr + e.value;
    }
    assert tenpwr == TenPower(s) && kept == Kept(Digits(s[..SignificandEnd(s)]));
    KeptDigits(s[..SignificandEnd(s)]);
    var twopwr := DigitsToMantissa(digits, p, mant);
    ghost var x := DigitsValue(kept, tenpwr);
    StartBounds(kept, BigVal(mant[..]), twopwr, tenpwr, x);
    exponent := ScaleByFive(mant, twopwr + tenpwr, tenpwr, x);
    Conclude(kept, Float(BigVal(mant[..]), exponent), tenpwr, x);
    TenPowerRange(s);
  }

  ghost function DigitsValue(kept: seq<int>, tenpwr: int): real
    requires |kept| <= MANT_DIGITS
  {
    (Scaled(kept) as real) / (Pow10(MANT_DIGITS) as real) * ZPow(2.0, tenpwr)
  }

  lemma KeptDigits(t: string)
    ensures AreDigits(Kept(Digits(t)))
  {
  }

  lemma StartBounds(kept: seq<int>, mant: int, twopwr: int, tenpwr: int, x: real)
    requires |kept| <= MANT_DIGITS && AreDigits(kept) && twopwr <= 0
    requires Truncates(Scaled(kept), mant, twopwr) && x == DigitsValue(kept, tenpwr)
    ensures x >= 0.0 && ZeroOrNormalised(mant)
    ensures ProductBounds(tenpwr >= 0, x, Float(mant, twopwr + tenpwr), 0)
  {
    hide Scaled, Truncates, ZeroOrNormalised, ProductBounds, Float, Pow10, ZPow;
    ScaledBounds(kept);
    DigitsBounds(Scaled(kept), mant, twopwr, tenpwr, x);
  }

  lemma Conclude(kept: seq<int>, v: real, tenpwr: int, x: real)
    requires |kept| <= MANT_DIGITS && AreDigits(kept) && x == DigitsValue(kept, tenpwr) && x >= 0.0
    requires ProductBounds(tenpwr >= 0, x, v, Magnitude(tenpwr))
    ensures CloseTo(DecimalValue(kept, tenpwr), v, tenpwr)
  {
    hide Scaled, ProductBounds, CloseTo, Pow10, ZPow, RPow;
    ScaledBounds(kept);
    DecimalSplits(Scaled(kept), tenpwr);
    BoundsMeanClose(x, v, tenpwr, if tenpwr >= 0 then 5.0 else 0.2, DecimalValue(kept, tenpwr));
  }
}
