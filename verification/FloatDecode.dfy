/** What the packed bytes denote: the correctly rounded number, with the one exception. */
module FloatDecode {
  import opened Powers
  import opened Limbs
  import opened FloatShift
  import opened FloatRound
  import opened FloatFormat
  import opened FloatPack

  // ----- what the bytes denote -----

  lemma DecodeFields(f: Format, minus: bool, e: nat, field: nat)
    requires f.Valid() && e < Pow2(f.exponent) && field < Pow2(f.FieldBits())
    ensures var u := Signed(f, minus, Assemble(f, e, field));
            && u >= 0
            && u / Pow2(8 * f.bytes - 1) % 2 == (if minus then 1 else 0)
            && u / Pow2(f.FieldBits()) % Pow2(f.exponent) == e
            && u % Pow2(f.FieldBits()) == field
  {
    hide Pow2;
    UnsignedFits(f, e, field);
    Positive(f.FieldBits());
    Positive(f.exponent);
    Pow2Add(f.exponent, f.FieldBits());
    assert f.exponent + f.FieldBits() == 8 * f.bytes - 1;
    FieldArithmetic(if minus then 1 else 0, e, field, Pow2(f.exponent), Pow2(f.FieldBits()));
  }

  lemma FieldArithmetic(sign: nat, e: nat, field: nat, a: nat, b: nat)
    requires sign <= 1 && field < b && e < a
    ensures var u := field + e * b + sign * (a * b);
            && 0 <= u && u / b % a == e && u % b == field
            && (field + e * b < a * b ==> a * b > 0 && u / (a * b) % 2 == sign)
  {
    var u := field + e * b + sign * (a * b);
    assert u == (e + sign * a) * b + field;
    DivModUnique(u, b, e + sign * a, field);
    DivModUnique(e + sign * a, a, sign, e);
    MulMonotone(b, 0, e);
    if field + e * b < a * b {
      DivModUnique(u, a * b, sign, field + e * b);
    }
  }

  lemma DecodeByFields(f: Format, u: int, minus: bool, e: nat, field: nat)
    requires f.Valid()
    requires u / Pow2(8 * f.bytes - 1) % 2 == if minus then 1 else 0
    requires u / Pow2(f.FieldBits()) % Pow2(f.exponent) == e && u % Pow2(f.FieldBits()) == field
    ensures e < Pow2(f.exponent) - 1 ==>
              Decode(f, u)
              == Finite(minus, (field + if e != 0 then ImplicitOne(f) else 0) * Pow2(if e == 0 then 0 else e - 1))
    ensures e == Pow2(f.exponent) - 1 ==>
              Decode(f, u) == if field % Pow2(f.mantissa) == 0 then Infinite(minus)
                              else NotANumber(field % Pow2(f.mantissa) / Pow2(f.mantissa - 1) % 2 == 1)
  {
    hide Pow2;
  }

  /** A pattern with fields `e` and `field` decodes by cases on `e`. */
  lemma DecodeFinite(f: Format, minus: bool, e: nat, field: nat)
    requires f.Valid() && e < Pow2(f.exponent) - 1 && field < Pow2(f.FieldBits())
    ensures Decode(f, Signed(f, minus, Assemble(f, e, field)))
         == Finite(minus, (field + if e != 0 then ImplicitOne(f) else 0) * Pow2(if e == 0 then 0 else e - 1))
  {
    hide Pow2, Assemble, Signed, Decode;
    DecodeFields(f, minus, e, field);
    DecodeByFields(f, Signed(f, minus, Assemble(f, e, field)), minus, e, field);
  }

  lemma DecodeSpecial(f: Format, minus: bool, field: nat)
    requires f.Valid() && field < Pow2(f.FieldBits())
    ensures Decode(f, Signed(f, minus, Assemble(f, Pow2(f.exponent) - 1, field)))
         == if field % Pow2(f.mantissa) == 0 then Infinite(minus)
            else NotANumber(field % Pow2(f.mantissa) / Pow2(f.mantissa - 1) % 2 == 1)
  {
    hide Pow2, Assemble, Signed, Decode;
    DecodeFields(f, minus, Pow2(f.exponent) - 1, field);
    DecodeByFields(f, Signed(f, minus, Assemble(f, Pow2(f.exponent) - 1, field)), minus, Pow2(f.exponent) - 1, field);
  }

  lemma SpecialIs(f: Format, kind: Kind)
    requires f.Valid()
    ensures var field := (if f.explicitOne == 1 then Pow2(f.mantissa) else 0)
                       + if kind == FlQnan then Pow2(f.mantissa - 1) else if kind == FlSnan then 1 else 0;
            (SpecialBits(f, kind) == Assemble(f, Pow2(f.exponent) - 1, field) && 0 <= field < Pow2(f.FieldBits()))
  {
    hide Pow2;
    TwicePow2(f.mantissa);
    TwicePow2(f.mantissa - 1);
    Positive(f.mantissa - 1);
  }

  /** The infinity and NaN tokens decode to infinities and quiet and signalling NaNs. */
  lemma SpecialDecodes(f: Format, kind: Kind, minus: bool)
    requires f.Valid() && f.mantissa > 1 && kind in {FlInfinity, FlQnan, FlSnan}
    ensures Signed(f, minus, SpecialBits(f, kind)) >= 0
    ensures Decode(f, Signed(f, minus, SpecialBits(f, kind)))
         == if kind == FlInfinity then Infinite(minus) else NotANumber(kind == FlQnan)
  {
    hide Pow2, SpecialBits, Assemble, Signed, Decode;
    SpecialIs(f, kind);
    TwicePow2(f.mantissa - 1);
    Positive(f.mantissa - 1);
    var h := Pow2(f.mantissa - 1);
    TwicePow2(f.mantissa - 2);
    Positive(f.mantissa - 2);
    var lead := if f.explicitOne == 1 then 1 else 0;
    var low := if kind == FlQnan then h else if kind == FlSnan then 1 else 0;
    DivModUnique(lead * (2 * h) + low, 2 * h, lead, low);
    DivModUnique(low, h, if kind == FlQnan then 1 else 0, if kind == FlQnan then 0 else low);
    DecodeFields(f, minus, Pow2(f.exponent) - 1, lead * (2 * h) + low);
    DecodeSpecial(f, minus, lead * (2 * h) + low);
  }

  /** The kept bits are the multiple that rounding arrives at. */
  lemma KeptIsReached(f: Format, rc: Rounding, minus: bool, v: nat, shift: nat)
    requires f.Valid() && v < Pow2(192) && f.exponent + f.explicitOne <= shift
    ensures KeptBits(f, rc, minus, v, shift) == Reached(rc, minus, v / Pow2(shift), Half(8 * f.bytes))
    ensures Ulp(f) == 2 * Half(8 * f.bytes)
  {
    hide Pow2, Weight, Half, AddsHalf, Chop, RoundedMantissa, Ulp;
    KeptRange(f, rc, minus, v, shift);
    Positive(shift);
    HalfIs(8 * f.bytes);
    QuotientNonNegative(v, Pow2(shift));
    RoundedQuotient(rc, minus, v / Pow2(shift), Half(8 * f.bytes));
  }

  /** Flushing turns what is below the least normal number into zero. */
  function Flushed(f: Format, daz: bool, value: Value): Value {
    if daz && value.Finite? && value.units < Pow2(f.mantissa) then Finite(value.negative, 0) else value
  }

  lemma DenormalDecodes(f: Format, minus: bool, q: nat, daz: bool)
    requires f.Valid() && q <= Pow2(f.mantissa)
    ensures Signed(f, minus, DenormalBits(f, q, daz)) >= 0
    ensures Decode(f, Signed(f, minus, DenormalBits(f, q, daz))) == Flushed(f, daz, Finite(minus, q))
  {
    hide Pow2, Assemble, Signed, Decode;
    SmallestNormal(f, q);
    ExponentRoom(f);
    TwicePow2(f.mantissa);
    PowOne();
    if q == Pow2(f.mantissa) {
      DecodeFields(f, minus, 1, q - ImplicitOne(f));
      DecodeFinite(f, minus, 1, q - ImplicitOne(f));
    } else {
      var field := if daz then 0 else q;
      DecodeFields(f, minus, 0, field);
      DecodeFinite(f, minus, 0, field);
    }
  }

  /** The one family of numbers that is packed wrongly: the code's own top exponent. */
  predicate TopBinade(f: Format, q: int, exponent: int)
    requires f.Valid()
  {
    exponent == f.ExpMax() && Pow2(f.mantissa) < q < 2 * Pow2(f.mantissa)
  }

  /** What a normal number's pattern decodes to, for a rounded significand `q`. */
  function DecodedNormal(f: Format, minus: bool, q: int, exponent: int): Value
    requires f.Valid() && 2 - f.ExpMax() <= exponent
  {
    if TopBinade(f, q, exponent) then NotANumber((q - Pow2(f.mantissa)) / Pow2(f.mantissa - 1) % 2 == 1)
    else if exponent == f.ExpMax() || (exponent == f.ExpMax() - 1 && q == 2 * Pow2(f.mantissa)) then Infinite(minus)
    else Finite(minus, q * Pow2(exponent + f.ExpMax() - 2))
  }

  lemma NormalDecodes(f: Format, minus: bool, q: nat, exponent: int)
    requires f.Valid() && f.mantissa > 1 && Pow2(f.mantissa) <= q <= 2 * Pow2(f.mantissa)
    requires 2 - f.ExpMax() <= exponent <= f.ExpMax()
    ensures exponent + f.ExpMax() - 1 >= 1 && Signed(f, minus, NormalBits(f, q, exponent + f.ExpMax() - 1)) >= 0
    ensures Decode(f, Signed(f, minus, NormalBits(f, q, exponent + f.ExpMax() - 1)))
         == DecodedNormal(f, minus, q, exponent)
  {
    hide Pow2, Assemble, Signed, Decode, SpecialBits, InfinityBits;
    ExponentRoom(f);
    TwicePow2(f.mantissa);
    ScaledUp(q, Pow2(f.mantissa));
    if q < 2 * Pow2(f.mantissa) {
      SameBinadeDecodes(f, minus, q, exponent);
    } else {
      NextBinadeDecodes(f, minus, q, exponent);
    }
  }

  lemma SameBinadeDecodes(f: Format, minus: bool, q: nat, exponent: int)
    requires f.Valid() && f.mantissa > 1 && Pow2(f.mantissa) <= q < 2 * Pow2(f.mantissa)
    requires 2 - f.ExpMax() <= exponent <= f.ExpMax()
    ensures exponent + f.ExpMax() - 1 >= 1 && Signed(f, minus, NormalBits(f, q, exponent + f.ExpMax() - 1)) >= 0
    ensures Decode(f, Signed(f, minus, NormalBits(f, q, exponent + f.ExpMax() - 1)))
         == DecodedNormal(f, minus, q, exponent)
  {
    hide Pow2, Assemble, Signed, Decode, SpecialBits, InfinityBits;
    var e, m := exponent + f.ExpMax() - 1, Pow2(f.mantissa);
    ExponentRoom(f);
    TwicePow2(f.mantissa);
    ZeroQuotient(q, 2 * m);
    DecodeFields(f, minus, e, q - ImplicitOne(f));
    if exponent == f.ExpMax() {
      DivModUnique(q - ImplicitOne(f), m, if f.explicitOne == 1 then 1 else 0, q - m);
      Halved(q - m, Pow2(f.mantissa - 1));
      DecodeSpecial(f, minus, q - ImplicitOne(f));
    } else {
      DecodeFinite(f, minus, e, q - ImplicitOne(f));
    }
  }

  lemma Halved(r: nat, h: nat)
    requires h > 0
    ensures r == 0 ==> r / h % 2 == 0
  {
  }

  lemma NextBinadeDecodes(f: Format, minus: bool, q: nat, exponent: int)
    requires f.Valid() && f.mantissa > 1 && q == 2 * Pow2(f.mantissa)
    requires 2 - f.ExpMax() <= exponent <= f.ExpMax()
    ensures exponent + f.ExpMax() - 1 >= 1 && Signed(f, minus, NormalBits(f, q, exponent + f.ExpMax() - 1)) >= 0
    ensures Decode(f, Signed(f, minus, NormalBits(f, q, exponent + f.ExpMax() - 1)))
         == DecodedNormal(f, minus, q, exponent)
  {
    hide Pow2, Assemble, Signed, Decode, SpecialBits, InfinityBits;
    var e, m := exponent + f.ExpMax() - 1, Pow2(f.mantissa);
    ExponentRoom(f);
    TwicePow2(f.mantissa);
    ScaledUp(q, m);
    if e + 1 >= 2 * f.ExpMax() - 1 {
      SpecialFits(f, FlInfinity);
      SpecialDecodes(f, FlInfinity, minus);
    } else {
      DecodeFields(f, minus, e + 1, q / 2 - ImplicitOne(f));
      DecodeFinite(f, minus, e + 1, q / 2 - ImplicitOne(f));
      TwicePow2(e - 1);
      DoubleProduct(m, Pow2(e - 1));
    }
  }

  lemma DoubleProduct(m: int, w: int)
    ensures m * (2 * w) == 2 * m * w
  {
  }

  /** A number the conversion classifies, whose shift stays inside the mantissa. */
  predicate Convertible(f: Format, v: nat, exponent: int)
    requires f.Valid()
  {
    Pow2(191) <= v < Pow2(192) && Shiftable(ShiftCount(f, exponent))
  }

  /** The significand that the code arrives at. */
  function Significand(f: Format, rc: Rounding, minus: bool, v: nat, exponent: int): int
    requires f.Valid() && ShiftCount(f, exponent) >= 0
  {
    Reached(rc, minus, v / Pow2(ShiftCount(f, exponent)), Half(8 * f.bytes))
  }

  /** What the packed bits denote, denormals included. */
  function Represented(f: Format, rc: Rounding, minus: bool, v: nat, exponent: int): Value
    requires f.Valid() && ShiftCount(f, exponent) >= 0
  {
    var q := Significand(f, rc, minus, v, exponent);
    if exponent < 2 - f.ExpMax() then Finite(minus, q)
    else if exponent <= f.ExpMax() then DecodedNormal(f, minus, q, exponent)
    else Infinite(minus)
  }

  /** In every mode, with and without flushing: the number that the packed bits denote. */
  lemma PackedDecodes(f: Format, rc: Rounding, daz: bool, minus: bool, v: nat, exponent: int)
    requires f.Valid() && f.mantissa > 1 && Convertible(f, v, exponent)
    ensures InDomain(f, Classify(f, exponent), v, exponent)
    ensures var u := Signed(f, minus, UnsignedBits(f, Classify(f, exponent), rc, daz, minus, v, exponent));
            u >= 0 && Decode(f, u) == Flushed(f, daz, Represented(f, rc, minus, v, exponent))
  {
    hide Pow2, Decode, Signed, Reached, Ulp, KeptBits, DenormalBits, NormalBits, SpecialBits, Half, DecodedNormal;
    var q := Significand(f, rc, minus, v, exponent);
    ExponentRoom(f);
    match Classify(f, exponent)
    case FlDenormal =>
      KeptIsReached(f, rc, minus, v, ShiftCount(f, exponent));
      DenormalRange(f, rc, minus, v, exponent);
      DenormalDecodes(f, minus, q, daz);
    case FlNormal =>
      KeptIsReached(f, rc, minus, v, ShiftCount(f, exponent));
      NormalRange(f, rc, minus, v, exponent);
      NormalDecodes(f, minus, q, exponent);
      NormalIsNotFlushed(f, minus, q, exponent);
    case FlInfinity =>
      SpecialDecodes(f, FlInfinity, minus);
  }

  lemma NormalIsNotFlushed(f: Format, minus: bool, q: nat, exponent: int)
    requires f.Valid() && Pow2(f.mantissa) <= q && 2 - f.ExpMax() <= exponent <= f.ExpMax()
    ensures Flushed(f, true, DecodedNormal(f, minus, q, exponent)) == DecodedNormal(f, minus, q, exponent)
  {
    hide Pow2;
    var w := Pow2(exponent + f.ExpMax() - 2);
    MulMonotone(q, 1, w);
  }

  /** Where the code rounds rightly: a condition on the mode, the exponent and the mantissa. */
  predicate RoundsRightly(f: Format, rc: Rounding, minus: bool, v: nat, exponent: int)
    requires f.Valid() && ShiftCount(f, exponent) >= 0
  {
    if exponent >= f.ExpMax() then
      // too large for the format
      (rc == Near || Away(rc, minus)) && !TopBinade(f, Significand(f, rc, minus, v, exponent), exponent)
    else
      var s := v / Pow2(ShiftCount(f, exponent));
      Away(rc, minus) ==> s / Half(8 * f.bytes) % 2 == 1 || s % Ulp(f) == 0
  }

  /**
    The packed bits denote the rounding of the shifted mantissa in the mode asked for, for
    denormals, denormals that round up to normal, and overflow, exactly where `RoundsRightly`
    says so.  What fails: the binade above the largest finite number is packed as NaNs;
    overflow is infinite even when rounding towards zero; and rounding away from zero moves
    only when the half bit is set.
   */
  lemma DecodesIff(f: Format, rc: Rounding, minus: bool, v: nat, exponent: int)
    requires f.Valid() && f.mantissa > 1 && Convertible(f, v, exponent)
    ensures Represented(f, rc, minus, v, exponent) == Correct(f, rc, minus, v, exponent)
       <==> RoundsRightly(f, rc, minus, v, exponent)
  {
    hide Pow2, Reached, RoundTo, Ulp, Half, KeptBits;
    var shift := ShiftCount(f, exponent);
    var s := v / Pow2(shift);
    var q, right := Significand(f, rc, minus, v, exponent), RoundTo(rc, minus, s, Ulp(f));
    ExponentRoom(f);
    Positive(shift);
    QuotientNonNegative(v, Pow2(shift));
    KeptIsReached(f, rc, minus, v, shift);
    ReachedIsRightIff(rc, minus, s, Half(8 * f.bytes));
    if exponent < 2 - f.ExpMax() {
      PowOne();
    } else if exponent <= f.ExpMax() {
      NormalRange(f, rc, minus, v, exponent);
      if exponent < f.ExpMax() {
        SignificandRange(rc, minus, s, Half(8 * f.bytes), Pow2(f.mantissa));
        ScaledEqual(q, right, Pow2(exponent + f.ExpMax() - 2));
      }
    }
  }

  /** Both significands are the truncated one or the next. */
  lemma SignificandRange(rc: Rounding, minus: bool, s: nat, half: nat, m: nat)
    requires half > 0 && s / (2 * half) < 2 * m
    ensures Reached(rc, minus, s, half) <= RoundTo(rc, minus, s, 2 * half) <= 2 * m
    ensures rc != Near && !Away(rc, minus) ==> RoundTo(rc, minus, s, 2 * half) < 2 * m
  {
    ReachedIsRightIff(rc, minus, s, half);
  }

  lemma ScaledEqual(a: int, b: int, w: nat)
    requires w > 0
    ensures a * w == b * w <==> a == b
  {
    if a < b {
      MulStrict(w, a, b);
    } else if b < a {
      MulStrict(w, b, a);
    }
  }

  /**
    In nearest mode, without flushing denormals, the packed bits denote the half-to-even
    rounding (section 4.3.1 of IEEE 754-2008) of the shifted mantissa, except for numbers
    with the exponent just above the largest finite one, which are packed as NaNs.
   */
  lemma NearestDecodesIff(f: Format, minus: bool, v: nat, exponent: int)
    requires f.Valid() && f.mantissa > 1 && Convertible(f, v, exponent)
    ensures InDomain(f, Classify(f, exponent), v, exponent)
    ensures var u := Signed(f, minus, UnsignedBits(f, Classify(f, exponent), Near, false, minus, v, exponent));
            u >= 0 && (Decode(f, u) == Correct(f, Near, minus, v, exponent)
                       <==> !TopBinade(f, Significand(f, Near, minus, v, exponent), exponent))
  {
    hide Pow2, Decode, Signed, Reached, Represented, Correct, Significand, Ulp, Half, UnsignedBits, InDomain;
    PackedDecodes(f, Near, false, minus, v, exponent);
    DecodesIff(f, Near, minus, v, exponent);
  }

  /** Rounding towards zero truncates, as long as the number is not too large. */
  lemma TruncationDecodes(f: Format, minus: bool, v: nat, exponent: int)
    requires f.Valid() && f.mantissa > 1 && Convertible(f, v, exponent) && exponent < f.ExpMax()
    ensures InDomain(f, Classify(f, exponent), v, exponent)
    ensures var u := Signed(f, minus, UnsignedBits(f, Classify(f, exponent), Zero, false, minus, v, exponent));
            u >= 0 && Decode(f, u)
                   == Finite(minus, v / Pow2(ShiftCount(f, exponent)) / Ulp(f)
                                    * Pow2(if exponent < 2 - f.ExpMax() then 0 else exponent + f.ExpMax() - 2))
  {
    hide Pow2, Decode, Signed, UnsignedBits, Ulp, Half, KeptBits;
    var shift := ShiftCount(f, exponent);
    PackedDecodes(f, Zero, false, minus, v, exponent);
    KeptIsReached(f, Zero, minus, v, shift);
    PowOne();
    if exponent >= 2 - f.ExpMax() {
      NormalRange(f, Zero, minus, v, exponent);
    }
  }

  /** Single precision: what is shifted to q * 2^160 + r, for r of 0 or 1, keeps `q`. */
  lemma SingleSignificand(rc: Rounding, v: nat, exponent: int, q: nat, r: nat)
    requires -126 <= exponent <= 128 && r <= 1 && v == (q * Pow2(160) + r) * 256
    ensures ShiftCount(IEEE_32, exponent) == 8 && Significand(IEEE_32, rc, false, v, exponent) == q
    ensures v / Pow2(8) / Half(32) % 2 == 0 && v / Pow2(8) % Ulp(IEEE_32) == r
  {
    hide Pow2, Reached, Half;
    SmallPowers();
    DivModUnique(v, Pow2(8), q * Pow2(160) + r, 0);
    UlpIs(IEEE_32);
    UlpIsTwice(IEEE_32);
    HalfIs(32);
    Pow2Monotone(1, 159);
    PowOne();
    ReachedNear(rc, false, q, r, Half(32));
  }

  /** 1.5 * 2^128 does not fit a 32-bit number, but is packed as a NaN instead of infinity. */
  lemma OverflowBecomesNaN()
    ensures var v := 3 * Pow2(190);
            && Convertible(IEEE_32, v, 128)
            && Correct(IEEE_32, Near, false, v, 128) == Infinite(false)
            && Signed(IEEE_32, false, UnsignedBits(IEEE_32, FlNormal, Near, false, false, v, 128)) >= 0
            && Decode(IEEE_32, Signed(IEEE_32, false, UnsignedBits(IEEE_32, FlNormal, Near, false, false, v, 128)))
               == NotANumber(true)
  {
    hide Pow2, Decode, Signed, UnsignedBits, Significand, Half, Ulp, RoundTo;
    var v := 3 * Pow2(190);
    SmallPowers();
    Pow2Add(22, 160);
    Pow2Add(182, 8);
    Regroup(3, Pow2(22), Pow2(160));
    SingleSignificand(Near, v, 128, 3 * Pow2(22), 0);
    PackedDecodes(IEEE_32, Near, false, false, v, 128);
    DivModUnique(Pow2(22), Pow2(22), 1, 0);
  }

  /** 2^129 in single precision: beyond the largest number, also when rounding towards zero. */
  lemma TruncationOverflows()
    ensures var v := Pow2(191);
            && Convertible(IEEE_32, v, 129)
            && Correct(IEEE_32, Zero, false, v, 129) == Largest(IEEE_32, false)
            && Signed(IEEE_32, false, UnsignedBits(IEEE_32, FlInfinity, Zero, false, false, v, 129)) >= 0
            && Decode(IEEE_32, Signed(IEEE_32, false, UnsignedBits(IEEE_32, FlInfinity, Zero, false, false, v, 129)))
               == Infinite(false)
  {
    hide Pow2, Decode, Signed, UnsignedBits, Ulp, RoundTo, Largest, Significand;
    SmallPowers();
    PackedDecodes(IEEE_32, Zero, false, false, Pow2(191), 129);
  }

  /** 1 + 2^-183 in single precision, rounded up, is packed as 1 instead of 1 + 2^-23. */
  lemma SingleIsNotRoundedUp()
    ensures var v := Pow2(191) + Pow2(8);
            && Convertible(IEEE_32, v, 0)
            && Correct(IEEE_32, Up, false, v, 0) == Finite(false, (Pow2(23) + 1) * Pow2(126))
            && Signed(IEEE_32, false, UnsignedBits(IEEE_32, FlNormal, Up, false, false, v, 0)) >= 0
            && Decode(IEEE_32, Signed(IEEE_32, false, UnsignedBits(IEEE_32, FlNormal, Up, false, false, v, 0)))
               == Finite(false, Pow2(23) * Pow2(126))
  {
    hide Pow2, Decode, Signed, UnsignedBits, Significand, Half, Ulp;
    var v := Pow2(191) + Pow2(8);
    SmallPowers();
    Pow2Add(23, 160);
    Pow2Add(183, 8);
    SingleSignificand(Up, v, 0, Pow2(23), 1);
    PackedDecodes(IEEE_32, Up, false, false, v, 0);
    DivModUnique(v, Pow2(8), Pow2(183) + 1, 0);
    UlpIs(IEEE_32);
    Pow2Monotone(1, 160);
    PowOne();
    DivModUnique(Pow2(183) + 1, Pow2(160), Pow2(23), 1);
  }

  lemma SmallPowers()
    ensures Pow2(191) == 2 * Pow2(190) && Pow2(192) == 4 * Pow2(190) && Pow2(190) > 0
    ensures Pow2(7) == 128 && Pow2(8) == 256 && Pow2(23) == 2 * Pow2(22) && Pow2(22) > 0
  {
    TwicePow2(190);
    TwicePow2(191);
    TwicePow2(22);
    ByteWeight(1);
    TwicePow2(7);
  }
}
