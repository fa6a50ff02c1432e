/** The number formats of float.c: their fields, what the bits denote, and what is to be packed. */
module FloatFormat {
  import opened Powers
  import opened FloatShift
  import opened FloatRound

  // ----- formats -----

  datatype Format = Format(bytes: nat, mantissa: nat, explicitOne: nat, exponent: nat) {
    /** The exponent bias plus one. */
    function ExpMax(): nat
      requires exponent > 0
    {
      Pow2(exponent - 1)
    }

    /** Bits below the exponent field. */
    function FieldBits(): nat {
      mantissa + explicitOne
    }

    /** What packing relies on: the fields fill the bytes, sign and exponent and the
        integer bit sit in the first limb, and some bits are left to round. */
    predicate Valid() {
      && 8 * bytes == 1 + exponent + explicitOne + mantissa
      && 1 <= bytes <= 16
      && 2 <= exponent && exponent + explicitOne <= 16 && explicitOne <= 1
      && 0 < mantissa
    }
  }

  const IEEE_8 := Format(1, 3, 0, 4)
  const IEEE_16 := Format(2, 10, 0, 5)
  const IEEE_32 := Format(4, 23, 0, 8)
  const IEEE_64 := Format(8, 52, 0, 11)
  const IEEE_80 := Format(10, 63, 1, 15)
  const IEEE_128 := Format(16, 112, 0, 15)

  const FORMATS := {IEEE_8, IEEE_16, IEEE_32, IEEE_64, IEEE_80, IEEE_128}

  lemma FormatsValid(f: Format)
    requires f in FORMATS
    ensures f.Valid() && f.mantissa > 1
  {
  }

  // ----- what the bits mean (section 3.4 of IEEE 754-2008) -----

  /** A decoded number.  Finite magnitudes are counted in units of the least denormal. */
  datatype Value = Finite(negative: bool, units: int) | Infinite(negative: bool) | NotANumber(quiet: bool)

  /** The value of the low 8 * f.bytes bits `u`, field by field. */
  function Decode(f: Format, u: int): Value
    requires f.Valid()
  {
    var m := f.FieldBits();
    var negative := u / Pow2(8 * f.bytes - 1) % 2 == 1;
    var e := u / Pow2(m) % Pow2(f.exponent);
    var field := u % Pow2(m);
    var fraction := field % Pow2(f.mantissa);
    if e == Pow2(f.exponent) - 1 then
      if fraction == 0 then Infinite(negative)
      else NotANumber(fraction / Pow2(f.mantissa - 1) % 2 == 1)
    else
      // an implicit integer bit is one unless the exponent field is zero
      var significand := if f.explicitOne == 0 && e != 0 then field + Pow2(f.mantissa) else field;
      Finite(negative, significand * Pow2(if e == 0 then 0 else e - 1))
  }

  // ----- the reference rounding -----

  /** How far the mantissa is shifted so that the bits below f.bytes are to be rounded off. */
  function ShiftCount(f: Format, exponent: int): int
    requires f.Valid()
  {
    f.exponent + f.explicitOne + if exponent < 2 - f.ExpMax() then 2 - f.ExpMax() - exponent else 0
  }

  /** The weight, in bits of the shifted mantissa, of the last bit that is kept. */
  function Ulp(f: Format): (d: nat)
    requires f.Valid()
    ensures d > 0
  {
    Pow2(192 - 8 * f.bytes)
  }

  /** The largest finite number. */
  function Largest(f: Format, negative: bool): Value
    requires f.Valid()
  {
    assert Pow2(f.exponent - 1) == 2 * Pow2(f.exponent - 2);
    Finite(negative, (2 * Pow2(f.mantissa) - 1) * Pow2(Pow2(f.exponent) - 3))
  }

  /**
    The value v / 2^191 * 2^exponent rounded to the format in the given mode: the shifted-out
    bits are dropped, then the rest is rounded.  What is beyond the largest number becomes
    that number when rounding towards zero, and infinite otherwise (section 7.4 of IEEE
    754-2008).
   */
  function Correct(f: Format, rc: Rounding, negative: bool, v: nat, exponent: int): Value
    requires f.Valid() && ShiftCount(f, exponent) >= 0
  {
    var q := RoundTo(rc, negative, v / Pow2(ShiftCount(f, exponent)), Ulp(f));
    var e := if exponent < 2 - f.ExpMax() then 1 else exponent + f.ExpMax() - 1;
    if e >= Pow2(f.exponent) - 1 || (e == Pow2(f.exponent) - 2 && q >= 2 * Pow2(f.mantissa)) then
      if rc == Near || Away(rc, negative) then Infinite(negative)
      else Largest(f, negative)
    else Finite(negative, q * Pow2(e - 1))
  }

  /** The dropped bits can change the rounding only when what is left is exactly a half. */
  lemma TruncationMattersIff(v: nat, k: nat, d: nat)
    requires k > 0 && d > 0
    ensures k * (2 * d) > 0
    ensures RoundHalfEven(v, k * (2 * d)) == RoundHalfEven(v / k, 2 * d)
       <==> !(v / k % (2 * d) == d && v % k != 0 && v / k / (2 * d) % 2 == 0)
  {
    hide RoundHalfEven;
    ProductPositive(k, 2 * d);
    TruncationCases(v, k, d, k * (2 * d), v / k, v % k, v / k / (2 * d), v / k % (2 * d));
  }

  lemma TruncationCases(v: nat, k: nat, d: nat, big: nat, s: nat, r: nat, q: nat, t: nat)
    requires k > 0 && d > 0 && big == k * (2 * d) && big > 0
    requires s == v / k && r == v % k && q == s / (2 * d) && t == s % (2 * d)
    ensures RoundHalfEven(v, big) == RoundHalfEven(s, 2 * d) <==> !(t == d && r != 0 && q % 2 == 0)
  {
    hide RoundHalfEven;
    TailArithmetic(v, s, k, r, q, d, t, big);
    CompareTails(t, d, k, r, big);
    CompareRoundings(v, s, big, d, q, t * k + r, t, r);
  }

  lemma CompareRoundings(v: int, s: int, big: nat, d: nat, q: int, tail: int, t: int, r: int)
    requires big > 0 && d > 0 && r >= 0
    requires q == v / big && tail == v % big && q == s / (2 * d) && t == s % (2 * d)
    requires t < d ==> 2 * tail < big
    requires t > d ==> 2 * tail > big
    requires t == d ==> 2 * tail == big + 2 * r
    ensures RoundHalfEven(v, big) == RoundHalfEven(s, 2 * d) <==> !(t == d && r != 0 && q % 2 == 0)
  {
    hide RoundHalfEven;
    RoundIs(v, big, q, tail);
    RoundIs(s, 2 * d, q, t);
  }

  lemma RoundIs(n: int, d: nat, q: int, r: int)
    requires d > 0 && q == n / d && r == n % d
    ensures RoundHalfEven(n, d) == if 2 * r > d || (2 * r == d && q % 2 == 1) then q + 1 else q
  {
  }

  lemma ProductPositive(a: nat, b: nat)
    requires a > 0 && b > 0
    ensures a * b > 0
  {
  }

  lemma CompareTails(t: nat, d: nat, k: nat, r: nat, big: nat)
    requires r < k && big == k * (2 * d)
    ensures t < d ==> 2 * (t * k + r) < big
    ensures t > d ==> 2 * (t * k + r) > big
    ensures t == d ==> 2 * (t * k + r) == big + 2 * r
  {
    assert big == 2 * (d * k);
    if t < d {
      MulMonotone(k, t + 1, d);
      assert (t + 1) * k == t * k + k;
    } else if t > d {
      MulMonotone(k, d + 1, t);
      assert (d + 1) * k == d * k + k;
    }
  }

  lemma TailArithmetic(v: nat, s: nat, k: nat, r: nat, q: nat, d: nat, t: nat, big: nat)
    requires big == k * (2 * d) && k > 0 && d > 0 && big > 0 && r < k && t < 2 * d
    requires s == v / k && r == v % k && q == s / (2 * d) && t == s % (2 * d)
    ensures v / big == q && v % big == t * k + r
  {
    assert v == s * k + r && s == q * (2 * d) + t;
    assert (q * (2 * d) + t) * k == q * big + t * k;
    MulMonotone(k, t + 1, 2 * d);
    assert (t + 1) * k == t * k + k;
    DivModUnique(v, big, q, t * k + r);
  }

  // ----- the packed number -----

  datatype Kind = FlZero | FlDenormal | FlNormal | FlInfinity | FlQnan | FlSnan

  /** The classification by the decremented exponent. */
  function Classify(f: Format, exponent: int): Kind
    requires f.Valid()
  {
    if 2 - f.ExpMax() <= exponent <= f.ExpMax() then FlNormal
    else if exponent > 0 then FlInfinity
    else FlDenormal
  }

  /** Exponent field and the bits below, assembled. */
  function Assemble(f: Format, e: nat, field: int): int
    requires f.Valid()
  {
    field + e * Pow2(f.FieldBits())
  }

  /** The sign goes on top. */
  function Signed(f: Format, minus: bool, u: int): int
    requires f.Valid()
  {
    u + if minus then Pow2(8 * f.bytes - 1) else 0
  }

  /** The kept part, in units of the last place, after shifting and rounding. */
  function KeptBits(f: Format, rc: Rounding, minus: bool, v: int, shift: nat): int
    requires f.Valid()
  {
    RoundedMantissa(rc, minus, v / Pow2(shift), Half(8 * f.bytes)) / Ulp(f)
  }

  /** The integer bit, where the format leaves it implicit. */
  function ImplicitOne(f: Format): nat
    requires f.Valid()
  {
    if f.explicitOne == 0 then Pow2(f.mantissa) else 0
  }

  /** The infinity pattern. */
  function InfinityBits(f: Format): int
    requires f.Valid()
  {
    Assemble(f, Pow2(f.exponent) - 1, if f.explicitOne == 1 then Pow2(f.mantissa) else 0)
  }

  /** Infinity, or a NaN with its quiet bit or its lowest bit set. */
  function SpecialBits(f: Format, kind: Kind): int
    requires f.Valid()
  {
    InfinityBits(f) + if kind == FlQnan then Pow2(f.mantissa - 1) else if kind == FlSnan then 1 else 0
  }

  /** A denormal, or the smallest normal number if it was rounded up to that. */
  function DenormalBits(f: Format, q: int, daz: bool): int
    requires f.Valid()
  {
    if q / Pow2(f.mantissa) % 2 == 1 then Assemble(f, 1, q - ImplicitOne(f))
    else Assemble(f, 0, if daz then 0 else q)
  }

  /** A normal number with biased exponent `e`, or the next binade, or infinity. */
  function NormalBits(f: Format, q: int, e: nat): int
    requires f.Valid()
  {
    if q / (2 * Pow2(f.mantissa)) % 2 == 0 then Assemble(f, e, q - ImplicitOne(f))
    else if e + 1 >= 2 * f.ExpMax() - 1 then InfinityBits(f)
    else Assemble(f, e + 1, q / 2 - ImplicitOne(f))
  }

  /** What the code needs of its input: the decremented exponent belongs to the class, and a
      denormal is not shifted past the end of the mantissa. */
  predicate InDomain(f: Format, kind: Kind, v: int, exponent: int)
    requires f.Valid()
  {
    match kind
    case FlDenormal => exponent < 2 - f.ExpMax() && Shiftable(ShiftCount(f, exponent)) && Pow2(191) <= v < Pow2(192)
    case FlNormal => 2 - f.ExpMax() <= exponent <= f.ExpMax() && Pow2(191) <= v < Pow2(192)
    case _ => true
  }

  /** What the converted mantissa and exponent stand for. */
  function KindOf(f: Format, ok: bool, v: int, exponent: int): Kind
    requires f.Valid()
  {
    if !ok then FlQnan else if v / Pow2(191) % 2 == 1 then Classify(f, exponent - 1) else FlZero
  }

  /** The unsigned bit pattern, for every kind of number and every rounding mode. */
  function UnsignedBits(f: Format, kind: Kind, rc: Rounding, daz: bool, minus: bool, v: int, exponent: int): int
    requires f.Valid() && InDomain(f, kind, v, exponent)
  {
    match kind
    case FlZero => 0
    case FlDenormal => DenormalBits(f, KeptBits(f, rc, minus, v, ShiftCount(f, exponent)), daz)
    case FlNormal => NormalBits(f, KeptBits(f, rc, minus, v, ShiftCount(f, exponent)), exponent + f.ExpMax() - 1)
    case _ => SpecialBits(f, kind)
  }
}
