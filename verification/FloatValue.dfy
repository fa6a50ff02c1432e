/** The packed formats as real numbers: their ranges, and how far rounding moves a number. */
module FloatValue {
  import opened Powers
  import opened RealPowers
  import opened FloatRound
  import opened FloatFormat
  import opened FloatPack
  import opened FloatDecode
  import Scale = FloatScale

  /** The least denormal: what finite magnitudes are counted in. */
  ghost function Unit(f: Format): real
    requires f.Valid()
  {
    ZPow(2.0, 2 - f.ExpMax() - f.mantissa)
  }

  ghost function RealOf(f: Format, units: int): real
    requires f.Valid()
  {
    units as real * Unit(f)
  }

  // ----- the six formats -----

  lemma PowersUpTo16()
    ensures Pow2(3) == 8 && Pow2(4) == 16 && Pow2(5) == 32 && Pow2(7) == 128 && Pow2(8) == 256
    ensures Pow2(10) == 1024 && Pow2(11) == 2048 && Pow2(14) == 16384 && Pow2(15) == 32768
  {
    assert Pow2(0) == 1 && Pow2(1) == 2 * Pow2(0) && Pow2(2) == 2 * Pow2(1) && Pow2(3) == 2 * Pow2(2);
    assert Pow2(4) == 2 * Pow2(3) && Pow2(5) == 2 * Pow2(4) && Pow2(6) == 2 * Pow2(5) && Pow2(7) == 2 * Pow2(6);
    Pow2Add(4, 4);
    Pow2Add(5, 5);
    Pow2Add(8, 3);
    Pow2Add(7, 7);
    Pow2Add(8, 7);
  }

  /** Digits of the significand, exponent of the least denormal, and exponent below which all
      finite numbers lie, by the number of bytes (table 3.5 of IEEE 754-2008 for the standard
      sizes). */
  function Parameters(bytes: int): (int, int, int)
    requires bytes in {1, 2, 4, 8, 10, 16}
  {
    if bytes == 1 then (4, -9, 8)
    else if bytes == 2 then (11, -24, 16)
    else if bytes == 4 then (24, -149, 128)
    else if bytes == 8 then (53, -1074, 1024)
    else if bytes == 10 then (64, -16445, 16384)
    else (113, -16494, 16384)
  }

  /** The least denormal is a power of two, and the largest number falls short of the next by
      one digit of the significand. */
  lemma FormatRange(f: Format)
    requires f in FORMATS
    ensures f.Valid() && f.bytes in {1, 2, 4, 8, 10, 16}
    ensures var (digits, low, high) := Parameters(f.bytes);
            && RealOf(f, 1) == ZPow(2.0, low)
            && RealOf(f, Largest(f, false).units) == ZPow(2.0, high) - ZPow(2.0, high - digits)
  {
    hide ZPow, Pow2;
    FormatsValid(f);
    PowersUpTo16();
    var (digits, low, high) := Parameters(f.bytes);
    assert f.mantissa == digits - 1 && f.ExpMax() == high && low == 2 - high - f.mantissa;
    assert Pow2(f.exponent) == 2 * high;
    RealPow2(2 * high - 3);
    RealPow2(digits);
    assert 2 * Pow2(f.mantissa) == Pow2(digits) by { TwicePow2(f.mantissa); }
    ZPowAdd(2.0, digits, 2 * high - 3);
    ZPowAdd(2.0, digits + (2 * high - 3), low);
    ZPowAdd(2.0, 2 * high - 3, low);
    LargestArithmetic(Pow2(digits), Pow2(2 * high - 3), ZPow(2.0, digits), ZPow(2.0, 2 * high - 3), ZPow(2.0, low),
                      ZPow(2.0, high), ZPow(2.0, high - digits), ZPow(2.0, digits + (2 * high - 3)));
    assert 1 as real * Unit(f) == Unit(f);
  }

  /** Both are there: the pattern 1, and all ones below the exponent of infinities and NaNs. */
  lemma ExtremesDecode(f: Format)
    requires f.Valid()
    ensures Assemble(f, 0, 1) == 1 && Decode(f, 1) == Finite(false, 1)
    ensures var u := Assemble(f, Pow2(f.exponent) - 2, Pow2(f.FieldBits()) - 1);
            u == Pow2(8 * f.bytes - 1) - Pow2(f.FieldBits()) - 1 >= 0 && Decode(f, u) == Largest(f, false)
  {
    hide Pow2, Decode, Assemble, Signed;
    var a, b := Pow2(f.exponent), Pow2(f.FieldBits());
    ExponentRoom(f);
    TwicePow2(f.mantissa);
    Pow2Monotone(f.mantissa, f.FieldBits());
    Pow2Add(f.exponent, f.FieldBits());
    assert f.exponent + f.FieldBits() == 8 * f.bytes - 1;
    PowOne();
    UnsignedIs(f, 0, 1);
    UnsignedIs(f, a - 2, b - 1);
    DecodeFinite(f, false, 0, 1);
    DecodeFields(f, false, a - 2, b - 1);
    DecodeFinite(f, false, a - 2, b - 1);
    AllOnes(a, b);
    assert b + (if f.explicitOne == 0 then Pow2(f.mantissa) else 0) == 2 * Pow2(f.mantissa);
  }

  lemma UnsignedIs(f: Format, e: nat, field: int)
    requires f.Valid()
    ensures Signed(f, false, Assemble(f, e, field)) == Assemble(f, e, field) == field + e * Pow2(f.FieldBits())
  {
    hide Pow2;
  }

  lemma AllOnes(a: int, b: int)
    ensures b - 1 + (a - 2) * b == a * b - b - 1
  {
  }

  lemma LargestArithmetic(p: int, q: int, rp: real, rq: real, u: real, h: real, l: real, pq: real)
    requires p as real == rp && q as real == rq && pq == rp * rq && h == pq * u && l == rq * u
    ensures ((p - 1) * q) as real * u == h - l
  {
    assert ((p - 1) * q) as real == (rp - 1.0) * rq;
    assert (rp - 1.0) * rq * u == rp * rq * u - rq * u;
  }

  lemma RealPow2(n: nat)
    ensures Pow2(n) as real == ZPow(2.0, n)
  {
    ZPow2IsPow2(n);
  }

  // ----- how far rounding moves a number -----

  /** The distance of neighbouring numbers of the format around 2^exponent. */
  ghost function Quantum(f: Format, exponent: int): real
    requires f.Valid()
  {
    ZPow(2.0, (if exponent < 2 - f.ExpMax() then 2 - f.ExpMax() else exponent) - f.mantissa)
  }

  lemma NearestMultiple(n: int, d: nat)
    requires d > 0
    ensures var q := RoundHalfEven(n, d); 0 - d <= 2 * (q * d - n) <= d
  {
    var q, r := n / d, n % d;
    assert n == q * d + r && (q + 1) * d == q * d + d;
  }

  /** The rounded quotient against the exact one: half a unit, and what the shift dropped. */
  lemma QuotientIsClose(v: nat, p: nat, d: nat, s: int, q: int, x: real)
    requires p > 0 && d > 0 && s == v / p && 0 - d <= 2 * (q * d - s) <= d
    requires x * (p as real * d as real) == v as real
    ensures x - (0.5 + 1.0 / (d as real)) <= q as real <= x + (0.5 + 1.0 / (d as real))
  {
    var rp, rd := p as real, d as real;
    DivModIs(v, p);
    DividedIsReal(v, s, p, v % p);
    RealMultiple(q, d);
    Reassociate(x, rp, rd);
    DividedBack(1.0, rd);
    CloseArithmetic(v as real, rp, rd, s as real, q as real, x, x * rd, 1.0 / rd);
  }

  lemma DivModIs(v: int, p: int)
    requires p > 0
    ensures v == (v / p) * p + v % p && 0 <= v % p < p
  {
  }

  lemma RealMultiple(q: int, d: int)
    ensures (q * d) as real == q as real * d as real
  {
  }

  lemma Reassociate(x: real, p: real, d: real)
    ensures x * (p * d) == (x * d) * p
  {
  }

  lemma DividedIsReal(v: int, s: int, p: int, r: int)
    requires v == s * p + r && 0 <= r < p
    ensures s as real * p as real <= v as real <= s as real * p as real + p as real
  {
    assert (s * p) as real == s as real * p as real;
  }

  lemma CloseArithmetic(v: real, p: real, d: real, s: real, q: real, x: real, y: real, e: real)
    requires p > 0.0 && d > 0.0 && s * p <= v <= s * p + p && -d <= 2.0 * (q * d - s) <= d
    requires y * p == v && x * d == y && e * d == 1.0
    ensures x - (0.5 + e) <= q <= x + (0.5 + e)
  {
    var h := 0.5 + e;
    Distributes(s, 1.0, p);
    Distributes(0.5, e, d);
    Distributes(x, h, d);
    NotBelow(p, s, y, s * p, y * p);
    NotBelow(p, y, s + 1.0, y * p, s * p + 1.0 * p);
    NotBelow(d, x - h, q, x * d - h * d, q * d);
    NotBelow(d, q, x + h, q * d, x * d + h * d);
  }

  lemma Distributes(a: real, b: real, d: real)
    ensures (a + b) * d == a * d + b * d && (a - b) * d == a * d - b * d
  {
  }

  lemma NotBelow(d: real, a: real, b: real, ad: real, bd: real)
    requires d > 0.0 && ad == a * d && bd == b * d && ad <= bd
    ensures a <= b
  {
    ScaleStrictly(d, b, a);
  }

  lemma ScaleStrictly(d: real, a: real, b: real)
    requires d > 0.0
    ensures a < b ==> a * d < b * d
  {
    if a < b {
      assert (b - a) * d > 0.0;
    }
  }

  /** The exact quotient times the quantum is the number itself. */
  lemma QuotientTimesQuantum(f: Format, v: nat, exponent: int)
    requires f.Valid() && ShiftCount(f, exponent) >= 0
    ensures var p, d := Pow2(ShiftCount(f, exponent)) as real, Ulp(f) as real;
            p * d > 0.0 && v as real / (p * d) * Quantum(f, exponent) == Scale.Float(v, exponent + 1)
  {
    hide ZPow, Pow2;
    var shift, top := ShiftCount(f, exponent), if exponent < 2 - f.ExpMax() then 2 - f.ExpMax() else exponent;
    RealPow2(shift);
    RealPow2(192 - 8 * f.bytes);
    UlpIs(f);
    ZPowAdd(2.0, shift, 192 - 8 * f.bytes);
    var n := shift + 192 - 8 * f.bytes;
    assert n == 191 - f.mantissa + (top - exponent);
    ZPowPositive(2.0, n);
    ZPowAdd(2.0, exponent - 191, n);
    assert exponent - 191 + n == top - f.mantissa;
    CancelPower(v as real, ZPow(2.0, n), ZPow(2.0, exponent - 191), ZPow(2.0, top - f.mantissa));
    assert exponent + 1 - 192 == exponent - 191;
  }

  lemma CancelPower(v: real, n: real, e: real, t: real)
    requires n > 0.0 && t == e * n
    ensures v / n * t == v * e
  {
    assert v / n * n == v;
    assert v / n * (e * n) == (v / n * n) * e;
  }

  lemma ScaledBounds(q: real, x: real, h: real, w: real)
    requires w >= 0.0 && x - h <= q <= x + h
    ensures x * w - h * w <= q * w <= x * w + h * w
  {
    assert (q - (x - h)) * w >= 0.0 && ((x + h) - q) * w >= 0.0;
    assert (q - (x - h)) * w == q * w - (x * w - h * w);
    assert ((x + h) - q) * w == x * w + h * w - q * w;
  }

  /** Half a quantum, and a little for the bits that were shifted out before rounding. */
  ghost function Slack(f: Format, exponent: int): real
    requires f.Valid()
  {
    (0.5 + 1.0 / (Ulp(f) as real)) * Quantum(f, exponent)
  }

  lemma QuantumPositive(f: Format, exponent: int)
    requires f.Valid()
    ensures Quantum(f, exponent) > 0.0
  {
    hide ZPow, Pow2;
    var top := if exponent < 2 - f.ExpMax() then 2 - f.ExpMax() else exponent;
    ZPowPositive(2.0, top - f.mantissa);
  }

  lemma SignificandIsClose(f: Format, v: nat, exponent: int)
    requires f.Valid() && ShiftCount(f, exponent) >= 0
    ensures var q := RoundHalfEven(v / Pow2(ShiftCount(f, exponent)), Ulp(f));
            var t, h := Scale.Float(v, exponent + 1), Slack(f, exponent);
            t - h <= q as real * Quantum(f, exponent) <= t + h
  {
    hide *;
    var p, d := Pow2(ShiftCount(f, exponent)), Ulp(f);
    QuotientTimesQuantum(f, v, exponent);
    QuantumPositive(f, exponent);
    SlackIs(f, exponent);
    SignificandBounds(v, p, d, v / p, RoundHalfEven(v / p, d), v as real / (p as real * d as real),
                      Quantum(f, exponent), Scale.Float(v, exponent + 1), Slack(f, exponent));
  }

  lemma SignificandBounds(v: nat, p: nat, d: nat, s: int, q: int, x: real, w: real, t: real, h: real)
    requires p > 0 && d > 0 && s == v / p && q == RoundHalfEven(s, d) && p as real * d as real > 0.0
    requires x == v as real / (p as real * d as real) && t == x * w && h == (0.5 + 1.0 / (d as real)) * w && w > 0.0
    ensures t - h <= q as real * w <= t + h
  {
    hide RoundHalfEven;
    NearestMultiple(s, d);
    DividedBack(v as real, p as real * d as real);
    QuotientIsClose(v, p, d, s, q, x);
    ScaledBounds(q as real, x, 0.5 + 1.0 / (d as real), w);
  }

  lemma DividedBack(v: real, d: real)
    requires d > 0.0
    ensures v / d * d == v
  {
  }

  lemma SlackIs(f: Format, exponent: int)
    requires f.Valid()
    ensures Ulp(f) > 0 && Slack(f, exponent) == (0.5 + 1.0 / (Ulp(f) as real)) * Quantum(f, exponent)
  {
    hide Quantum, Ulp;
  }

  lemma UnitsAreQuanta(f: Format, q: int, exponent: int)
    requires f.Valid()
    ensures var e := if exponent < 2 - f.ExpMax() then 1 else exponent + f.ExpMax() - 1;
            e >= 1 && RealOf(f, q * Pow2(e - 1)) == q as real * Quantum(f, exponent)
  {
    hide ZPow, Pow2;
    var e := if exponent < 2 - f.ExpMax() then 1 else exponent + f.ExpMax() - 1;
    RealPow2(e - 1);
    ZPowAdd(2.0, e - 1, 2 - f.ExpMax() - f.mantissa);
    var w, u := ZPow(2.0, e - 1), Unit(f);
    assert (q * Pow2(e - 1)) as real == q as real * w;
    assert q as real * w * u == q as real * (w * u);
  }

  /**
    The rounding that packing is held to, as a real number: within half a quantum of the
    converted mantissa, but for the bits that were shifted out first; and infinite only from
    half a quantum below the first power of two that has no number.
   */
  lemma RoundedIsClose(f: Format, minus: bool, v: nat, exponent: int)
    requires f.Valid() && Convertible(f, v, exponent)
    ensures var r, t, h := Correct(f, Near, minus, v, exponent), Scale.Float(v, exponent + 1), Slack(f, exponent);
            && (r.Finite? ==> r.negative == minus && t - h <= RealOf(f, r.units) <= t + h)
            && (r.Infinite? ==> r.negative == minus && t >= ZPow(2.0, f.ExpMax()) - h)
            && !r.NotANumber?
  {
    hide ZPow, Pow2, RoundHalfEven, Scale.Float, Slack, Quantum, Unit;
    var q := RoundHalfEven(v / Pow2(ShiftCount(f, exponent)), Ulp(f));
    ExponentRoom(f);
    SignificandIsClose(f, v, exponent);
    UnitsAreQuanta(f, q, exponent);
    SlackPositive(f, exponent);
    if exponent >= f.ExpMax() {
      LargeNumber(v, exponent, f.ExpMax());
    } else if exponent == f.ExpMax() - 1 && q >= 2 * Pow2(f.mantissa) {
      TopQuantum(f, q);
    }
  }

  lemma SlackPositive(f: Format, exponent: int)
    requires f.Valid()
    ensures Slack(f, exponent) >= 0.0
  {
    hide Quantum, Ulp;
    QuantumPositive(f, exponent);
    UlpPositive(f);
    assert 1.0 / (Ulp(f) as real) > 0.0;
    ScaleLess(Quantum(f, exponent), 0.0, 0.5 + 1.0 / (Ulp(f) as real));
  }

  lemma LargeNumber(v: nat, exponent: int, max: int)
    requires exponent >= max && Pow2(191) <= v
    ensures Scale.Float(v, exponent + 1) >= ZPow(2.0, max)
  {
    hide ZPow, Pow2;
    RealPow2(191);
    ZPowAdd(2.0, 191, exponent - 191);
    ZPowAdd(2.0, max, exponent - max);
    ZPowPositive(2.0, exponent - 191);
    ZPowPositive(2.0, max);
    AtLeastOne(exponent - max);
    assert Scale.Float(v, exponent + 1) == v as real * ZPow(2.0, exponent - 191);
    ScaleLess(ZPow(2.0, exponent - 191), Pow2(191) as real, v as real);
    ScaleLess(ZPow(2.0, max), 1.0, ZPow(2.0, exponent - max));
    assert 191 + (exponent - 191) == max + (exponent - max) == exponent;
  }

  lemma AtLeastOne(n: nat)
    ensures ZPow(2.0, n) >= 1.0
  {
    RealPow2(n);
  }

  lemma TopQuantum(f: Format, q: int)
    requires f.Valid() && q >= 2 * Pow2(f.mantissa)
    ensures q as real * Quantum(f, f.ExpMax() - 1) >= ZPow(2.0, f.ExpMax())
  {
    hide ZPow, Pow2;
    ExponentRoom(f);
    TwicePow2(f.mantissa);
    RealPow2(f.mantissa + 1);
    ZPowAdd(2.0, f.mantissa + 1, f.ExpMax() - 1 - f.mantissa);
    ZPowPositive(2.0, f.ExpMax() - 1 - f.mantissa);
    ScaleLess(ZPow(2.0, f.ExpMax() - 1 - f.mantissa), Pow2(f.mantissa + 1) as real, q as real);
  }
}
