/** The packing half of to_float in float.c: a mantissa and exponent to IEEE bytes, in place. */
module FloatPack {
  import opened Bytes
  import opened Powers
  import opened Limbs
  import opened FloatShift
  import opened FloatRound
  import opened FloatFormat
  import Bits

  // ----- setting and clearing bits in place -----

  lemma OneBitValue(s: seq<int>, pos: nat, d: int)
    requires |s| == MANT_LIMBS && pos < 192
    requires forall k :: 0 <= k < MANT_LIMBS ==> 0 <= s[k] < BASE
    ensures BigVal(s[pos / 32 := s[pos / 32] + d * Pow2(31 - pos % 32)]) == BigVal(s) + d * Half(pos)
  {
    hide BigVal, Pow2, Weight, Half;
    var i, p := pos / 32, pos % 32;
    assert 32 * i + p == pos;
    SplitAt(s, i, p);
    BigValUpdate(s, i, d * Pow2(31 - p));
    assert d * Pow2(31 - p) * Weight(5 - i) == d * (Pow2(31 - p) * Weight(5 - i));
  }

  lemma BitRoom(x: Limb, p: nat)
    requires p < 32
    ensures Pow2(31 - p) > 0
    ensures x / Pow2(31 - p) % 2 == 0 ==> x + Pow2(31 - p) < BASE
    ensures x / Pow2(31 - p) % 2 == 1 ==> x - Pow2(31 - p) >= 0
  {
    hide Pow2;
    var bit := Pow2(31 - p);
    Positive(31 - p);
    Positive(p);
    WeightIsPow2(1);
    Pow2Add(31 - p, p);
    Pow2Add(1, 31);
    PowOne();
    HalfSplit(x, bit);
    RoomArithmetic(x, bit, Pow2(p), BASE);
  }

  lemma PowOne()
    ensures Pow2(0) == 1 && Pow2(1) == 2
  {
    assert Pow2(0) == 1;
  }

  lemma RoomArithmetic(x: nat, bit: nat, top: nat, base: nat)
    requires bit > 0 && base == 2 * (bit * top) && x < base
    requires x % (2 * bit) == (x / bit % 2) * bit + x % bit
    ensures x / bit % 2 == 0 ==> x + bit < base
    ensures x / bit % 2 == 1 ==> x - bit >= 0
  {
    var q := x / (2 * bit);
    assert x == q * (2 * bit) + x % (2 * bit);
    assert base == (2 * bit) * top;
    MulCancelBelow(q, 2 * bit, x % (2 * bit), top);
    MulMonotone(2 * bit, q + 1, top);
    assert x / bit % 2 == 0 ==> (x / bit % 2) * bit == 0;
    assert x / bit % 2 == 1 ==> (x / bit % 2) * bit == bit;
    MulMonotone(2 * bit, 0, q);
  }

  /** set_bit, on a bit that is clear. */
  method SetBit(mant: array<Limb>, pos: nat)
    requires mant.Length == MANT_LIMBS && pos < 192
    requires BigVal(mant[..]) / Half(pos) % 2 == 0
    modifies mant
    ensures BigVal(mant[..]) == old(BigVal(mant[..])) + Half(pos)
  {
    hide BigVal, Pow2, Half, Bits.Or;
    ghost var s := mant[..];
    BitOfWhole(s, pos);
    BitRoom(mant[pos / 32], pos % 32);
    Bits.OrSetsBit(mant[pos / 32], 31 - pos % 32);
    OneBitValue(s, pos, 1);
    mant[pos / 32] := Bits.Or(mant[pos / 32], Pow2(31 - pos % 32));
    assert mant[..] == s[pos / 32 := s[pos / 32] + 1 * Pow2(31 - pos % 32)];
  }

  /** `mant[pos/32] &= ~bit`, on a bit that is set. */
  method ClearBit(mant: array<Limb>, pos: nat)
    requires mant.Length == MANT_LIMBS && pos < 192
    requires BigVal(mant[..]) / Half(pos) % 2 == 1
    modifies mant
    ensures BigVal(mant[..]) == old(BigVal(mant[..])) - Half(pos)
  {
    hide BigVal, Pow2, Half;
    ghost var s := mant[..];
    BitOfWhole(s, pos);
    BitRoom(mant[pos / 32], pos % 32);
    OneBitValue(s, pos, -1);
    mant[pos / 32] := mant[pos / 32] - Pow2(31 - pos % 32);
    assert mant[..] == s[pos / 32 := s[pos / 32] + -1 * Pow2(31 - pos % 32)];
  }

  /** `mant[0] |= e << (31 - fe)`, when nothing at or above that position is set. */
  method OrExponent(mant: array<Limb>, e: nat, fe: nat)
    requires mant.Length == MANT_LIMBS && 0 < fe < 31 && e < Pow2(fe)
    requires BigVal(mant[..]) < Half(fe)
    modifies mant
    ensures BigVal(mant[..]) == old(BigVal(mant[..])) + e * Half(fe)
  {
    hide BigVal, Pow2, Half, Bits.Or;
    ghost var s := mant[..];
    Positive(31 - fe);
    LowTopLimb(s, fe);
    ExponentFits(e, fe);
    var d := Pow2(31 - fe);
    Bits.OrDisjoint(e * d, mant[0], 31 - fe);
    Bits.OrCommutes(mant[0], e * d);
    assert fe / 32 == 0 && fe % 32 == fe;
    OneBitValue(s, fe, e);
    mant[0] := Bits.Or(mant[0], e * d);
    assert mant[..] == s[fe / 32 := s[fe / 32] + e * Pow2(31 - fe % 32)];
  }

  lemma LowTopLimb(s: seq<int>, fe: nat)
    requires |s| == MANT_LIMBS && fe < 32 && BigVal(s) < Half(fe)
    requires forall k :: 0 <= k < MANT_LIMBS ==> 0 <= s[k] < BASE
    ensures s[0] < Pow2(31 - fe)
  {
    hide BigVal, Pow2, Weight, Half;
    SplitAt(s, 0, fe);
    HeadOf(s);
    BigValBounds(s[1..]);
    TopLimbBelow(s[0], Weight(5), BigVal(s[1..]), Pow2(31 - fe));
  }

  lemma TopLimbBelow(x: int, w: nat, low: nat, d: nat)
    requires w > 0 && x * w + low < d * w
    ensures x < d
  {
    MulCancel(w, x, d);
  }

  lemma ExponentFits(e: nat, fe: nat)
    requires 0 < fe < 31 && e < Pow2(fe)
    ensures 0 <= e * Pow2(31 - fe) && (e * Pow2(31 - fe)) % Pow2(31 - fe) == 0
    ensures e * Pow2(31 - fe) + Pow2(31 - fe) <= 0x8000_0000
  {
    hide Pow2;
    var d := Pow2(31 - fe);
    Positive(31 - fe);
    Pow2Add(fe, 31 - fe);
    Pow2Add(1, 31);
    PowOne();
    WeightIsPow2(1);
    MulMonotone(d, e + 1, Pow2(fe));
    MulMonotone(d, 0, e);
    assert (e + 1) * d == e * d + d;
    DivModUnique(e * d, d, e, 0);
  }

  // ----- positions and field weights -----

  /** The bit at position `pos` is worth this many units of the last place. */
  lemma HalfIsField(f: Format, pos: nat)
    requires f.Valid() && pos < 8 * f.bytes
    ensures Half(pos) == Pow2(8 * f.bytes - 1 - pos) * Ulp(f)
  {
    hide Pow2;
    Pow2Add(8 * f.bytes - 1 - pos, 192 - 8 * f.bytes);
    assert 8 * f.bytes - 1 - pos + (192 - 8 * f.bytes) == 191 - pos;
  }

  lemma AddMultiple(v: int, k: int, d: nat)
    requires d > 0
    ensures (v + k * d) / d == v / d + k
  {
    assert v + k * d == (v / d + k) * d + v % d;
    DivModUnique(v + k * d, d, v / d + k, v % d);
  }

  lemma FieldBelow(v: nat, d: nat, m: nat)
    requires d > 0
    ensures v / d < m <==> v < m * d
  {
    assert v == (v / d) * d + v % d;
    if v / d < m { MulMonotone(d, v / d + 1, m); assert (v / d + 1) * d == (v / d) * d + d; }
    else { MulMonotone(d, m, v / d); }
  }

  /** Testing a bit of the mantissa is testing a bit of the kept part. */
  lemma BitOfKept(f: Format, v: nat, pos: nat)
    requires f.Valid() && pos < 8 * f.bytes
    ensures v / Half(pos) == v / Ulp(f) / Pow2(8 * f.bytes - 1 - pos)
  {
    hide Pow2, Half, Ulp;
    HalfIsField(f, pos);
    UlpPositive(f);
    Positive(8 * f.bytes - 1 - pos);
    DivThrough(v, Half(pos), Pow2(8 * f.bytes - 1 - pos), Ulp(f));
  }

  lemma DivThrough(v: int, h: int, p: nat, u: nat)
    requires h == p * u && p > 0 && u > 0
    ensures h > 0 && v / h == v / u / p
  {
    DivTwice(v, u, p);
    assert u * p == p * u;
  }

  lemma UlpPositive(f: Format)
    requires f.Valid()
    ensures Ulp(f) > 0
  {
  }

  /** Room for the sign: an assembled unsigned pattern stays below the top bit. */
  lemma UnsignedFits(f: Format, e: nat, field: nat)
    requires f.Valid() && e < Pow2(f.exponent) && field < Pow2(f.FieldBits())
    ensures field + e * Pow2(f.FieldBits()) < Pow2(8 * f.bytes - 1)
  {
    hide Pow2;
    Pow2Add(f.exponent, f.FieldBits());
    assert f.exponent + f.FieldBits() == 8 * f.bytes - 1;
    MulMonotone(Pow2(f.FieldBits()), e + 1, Pow2(f.exponent));
    assert (e + 1) * Pow2(f.FieldBits()) == e * Pow2(f.FieldBits()) + Pow2(f.FieldBits());
  }

  /** The exponent field goes in over a field that is in place. */
  method AddExponent(mant: array<Limb>, f: Format, e: nat, ghost field: nat)
    requires mant.Length == MANT_LIMBS && f.Valid()
    requires BigVal(mant[..]) / Ulp(f) == field < Pow2(f.FieldBits()) && e < Pow2(f.exponent)
    modifies mant
    ensures BigVal(mant[..]) / Ulp(f) == Assemble(f, e, field) < Pow2(8 * f.bytes - 1)
  {
    hide BigVal, Pow2, Half, Ulp, Weight;
    ghost var v, d := BigVal(mant[..]), Ulp(f);
    BigValBounds(mant[..]);
    UlpPositive(f);
    HalfIsField(f, f.exponent);
    FieldBelow(v, d, Pow2(f.FieldBits()));
    OrExponent(mant, e, f.exponent);
    assert e * (Pow2(f.FieldBits()) * d) == e * Pow2(f.FieldBits()) * d;
    AddMultiple(v, e * Pow2(f.FieldBits()), d);
    UnsignedFits(f, e, field);
  }

  method AddSign(mant: array<Limb>, f: Format, minus: bool)
    requires mant.Length == MANT_LIMBS && f.Valid()
    requires BigVal(mant[..]) / Ulp(f) < Pow2(8 * f.bytes - 1)
    modifies mant
    ensures BigVal(mant[..]) / Ulp(f) == Signed(f, minus, old(BigVal(mant[..]) / Ulp(f)))
  {
    hide BigVal, Pow2, Half, Ulp, Weight;
    ghost var v, d := BigVal(mant[..]), Ulp(f);
    BigValBounds(mant[..]);
    UlpPositive(f);
    HalfIsField(f, 0);
    if minus {
      FieldBelow(v, d, Pow2(8 * f.bytes - 1));
      ZeroQuotient(v, Half(0));
      SetBit(mant, 0);
      AddMultiple(v, Pow2(8 * f.bytes - 1), d);
    }
  }

  lemma ZeroQuotient(v: nat, d: nat)
    requires v < d
    ensures v / d == 0 && v / d % 2 == 0
  {
    DivModUnique(v, d, 0, v);
  }

  /** Removing the implicit one leaves the field bits. */
  method RemoveImplicitOne(mant: array<Limb>, f: Format, ghost q: nat)
    requires mant.Length == MANT_LIMBS && f.Valid()
    requires BigVal(mant[..]) / Ulp(f) == q && Pow2(f.mantissa) <= q < 2 * Pow2(f.mantissa)
    modifies mant
    ensures BigVal(mant[..]) / Ulp(f) == q - ImplicitOne(f) < Pow2(f.FieldBits())
    ensures q - ImplicitOne(f) >= 0
  {
    hide BigVal, Pow2, Half, Ulp, Weight;
    ghost var v, d := BigVal(mant[..]), Ulp(f);
    BigValBounds(mant[..]);
    UlpPositive(f);
    if f.explicitOne == 0 {
      BitOfKept(f, v, f.exponent);
      HalfIsField(f, f.exponent);
      OneQuotient(q, Pow2(f.mantissa));
      ClearBit(mant, f.exponent + f.explicitOne);
      AddMultiple(v, 0 - Pow2(f.mantissa), d);
      NegateProduct(Pow2(f.mantissa), d);
    } else {
      TwicePow2(f.mantissa);
    }
  }

  lemma NegateProduct(a: int, b: int)
    ensures (0 - a) * b == 0 - a * b
  {
  }

  lemma OneQuotient(q: nat, m: nat)
    requires m <= q < 2 * m
    ensures q / m == 1 && q / m % 2 == 1
  {
    DivModUnique(q, m, 1, q - m);
  }

  // ----- the bounds on the kept part -----

  lemma KeptRange(f: Format, rc: Rounding, minus: bool, v: nat, shift: nat)
    requires f.Valid() && v < Pow2(192) && f.exponent + f.explicitOne <= shift
    ensures var s, half := v / Pow2(shift), Half(8 * f.bytes);
            Chop(s, half) + half < Weight(MANT_LIMBS)
    ensures v / Pow2(shift) / Ulp(f) <= KeptBits(f, rc, minus, v, shift) <= v / Pow2(shift) / Ulp(f) + 1
    ensures Ulp(f) == 2 * Half(8 * f.bytes)
  {
    hide Pow2, Weight, Half, AddsHalf, Chop, RoundedMantissa, Ulp, KeptBits;
    var s, half := v / Pow2(shift), Half(8 * f.bytes);
    UlpIsTwice(f);
    Positive(shift);
    QuotientNonNegative(v, Pow2(shift));
    ShiftedBelow(v, shift);
    ChopFits(s, 191 - 8 * f.bytes);
    HalfIs(8 * f.bytes);
    RoundedQuotient(rc, minus, s, half);
    KeptIs(f, rc, minus, v, shift, RoundedMantissa(rc, minus, s, half));
  }

  lemma UlpIsTwice(f: Format)
    requires f.Valid()
    ensures Ulp(f) == 2 * Half(8 * f.bytes)
  {
    TwicePow2(191 - 8 * f.bytes);
  }

  lemma ShiftedBelow(v: nat, shift: nat)
    requires v < Pow2(192) && 1 < shift
    ensures v / Pow2(shift) < Pow2(190)
    ensures shift < 192 ==> v / Pow2(shift) < Pow2(192 - shift)
    ensures shift >= 192 ==> v / Pow2(shift) == 0
  {
    hide Pow2;
    Positive(shift);
    if shift < 192 {
      Pow2Add(192 - shift, shift);
      FieldBelow(v, Pow2(shift), Pow2(192 - shift));
      Pow2Monotone(192 - shift, 190);
    } else {
      Pow2Monotone(192, shift);
      ZeroQuotient(v, Pow2(shift));
      Positive(190);
    }
  }

  lemma HalfIs(bits: nat)
    requires bits < 192
    ensures Half(bits) == Pow2(191 - bits) && Half(bits) > 0
  {
  }

  lemma ChopFits(s: nat, k: nat)
    requires s < Pow2(190) && k <= 190
    ensures Pow2(k) > 0 && Chop(s, Pow2(k)) + Pow2(k) < Weight(MANT_LIMBS)
  {
    hide Pow2, Weight;
    Positive(k);
    WeightIsPow2(6);
    Pow2Monotone(k, 190);
    Pow2Monotone(190, 192);
    Pow2Monotone(190, 191);
    ModBounds(s, Pow2(k));
  }

  // ----- the floating-point unit: module state and the conversion itself -----

  class FloatUnit {
    var rc: Rounding
    var daz: bool

    constructor ()
      ensures rc == Near && !daz
    {
      rc, daz := Near, false;
    }

    /** The decision of ieee_round; in nearest mode the half bit is cleared for the check
        and put back. */
    method AddHalf(minus: bool, mant: array<Limb>, bits: nat) returns (up: bool)
      requires mant.Length == MANT_LIMBS && 0 < bits < 192
      modifies mant
      ensures mant[..] == old(mant[..])
      ensures up <==> AddsHalf(rc, minus, BigVal(mant[..]), Half(bits))
    {
      hide BigVal, Pow2, Weight, Half;
      ghost var s := mant[..];
      var i, p := bits / 32, bits % 32;
      var bit := Pow2(31 - p);
      CollectedTail(s, i, p);
      HalfTwice(bits);
      if rc == Near {
        if mant[i] / bit % 2 == 1 {
          ClearedBit(mant[i], bit);
          BitRoom(mant[i], p);
          mant[i] := mant[i] - bit;
          assert mant[i + 1..] == s[i + 1..];
          var m := CollectBits(mant, i, 2 * bit);
          mant[i] := mant[i] + bit;
          assert mant[..] == s;
          if m != 0 {
            up := true;
          } else {
            up := TestBit(mant, bits - 1);
          }
        } else {
          up := false;
        }
      } else if rc == Zero || rc == (if minus then Up else Down) {
        up := false;
      } else {
        var m := CollectBits(mant, i, 2 * bit);
        up := m != 0;
      }
    }

    /** ieee_round.  The result flag is only meaningful after an increment. */
    method Round(minus: bool, mant: array<Limb>, bits: nat) returns (carry: bool)
      requires mant.Length == MANT_LIMBS && 0 < bits < 192
      modifies mant
      ensures BigVal(mant[..]) == RoundedMantissa(rc, minus, old(BigVal(mant[..])), Half(bits))
      ensures old(AddsHalf(rc, minus, BigVal(mant[..]), Half(bits))) ==> (carry <==> mant[0] == 0)
    {
      hide BigVal, Pow2, Weight, Half, Chop, RoundedMantissa, AddsHalf;
      ghost var s := mant[..];
      var up := AddHalf(minus, mant, bits);
      BigValBounds(s);
      HalfIs(bits);
      RoundedCases(rc, minus, BigVal(s), Half(bits));
      carry := false;
      if up {
        carry := AbsUp(mant, bits / 32, bits % 32);
      } else {
        AbsDown(mant, bits / 32, bits % 32);
      }
    }

    /** The FL_DENORMAL case. */
    method PackDenormal(mant: array<Limb>, exponent: int, minus: bool, f: Format)
      requires mant.Length == MANT_LIMBS && f.Valid()
      requires InDomain(f, FlDenormal, BigVal(mant[..]), exponent)
      modifies mant
      ensures BigVal(mant[..]) / Ulp(f)
           == old(UnsignedBits(f, FlDenormal, rc, daz, minus, BigVal(mant[..]), exponent)) < Pow2(8 * f.bytes - 1)
    {
      hide BigVal, Pow2, Half, Ulp, Weight, KeptBits, Assemble, AddsHalf;
      ghost var v := BigVal(mant[..]);
      DenormalRange(f, rc, minus, v, exponent);
      DenormalShift(f, exponent);
      var shift := -(exponent + f.ExpMax() - 2 - f.exponent) + f.explicitOne;
      Shr(mant, shift);
      var _ := Round(minus, mant, 8 * f.bytes);
      ghost var q := KeptBits(f, rc, minus, v, shift);
      assert BigVal(mant[..]) / Ulp(f) == q by { KeptIs(f, rc, minus, v, shift, BigVal(mant[..])); }
      BigValBounds(mant[..]);
      BitOfKept(f, BigVal(mant[..]), f.exponent + f.explicitOne);
      SmallestNormal(f, q);
      var one := TestBit(mant, f.exponent + f.explicitOne);
      if one {
        ExponentRoom(f);
        RemoveImplicitOne(mant, f, q);
        AddExponent(mant, f, 1, q - ImplicitOne(f));
      } else {
        var zero := IsZero(mant);
        if daz || zero {
          Clear(mant);
          ZeroQuotient(0, Ulp(f));
          if zero { ZeroQuotient(0, Ulp(f)); }
        }
        DenormalFits(f, q);
      }
    }

    /** The FL_NORMAL case. */
    method PackNormal(mant: array<Limb>, exponent0: int, minus: bool, f: Format)
      requires mant.Length == MANT_LIMBS && f.Valid()
      requires InDomain(f, FlNormal, BigVal(mant[..]), exponent0)
      modifies mant
      ensures BigVal(mant[..]) / Ulp(f)
           == old(UnsignedBits(f, FlNormal, rc, daz, minus, BigVal(mant[..]), exponent0)) < Pow2(8 * f.bytes - 1)
    {
      hide BigVal, Pow2, Half, Ulp, Weight, KeptBits, Assemble, AddsHalf, InfinityBits;
      ghost var v, shift := BigVal(mant[..]), f.exponent + f.explicitOne;
      ExponentRoom(f);
      NormalRange(f, rc, minus, v, exponent0);
      var exponent := exponent0 + f.ExpMax() - 1;
      Shr(mant, f.exponent + f.explicitOne);
      var _ := Round(minus, mant, 8 * f.bytes);
      ghost var q := KeptBits(f, rc, minus, v, shift);
      assert BigVal(mant[..]) / Ulp(f) == q by { KeptIs(f, rc, minus, v, shift, BigVal(mant[..])); }
      BigValBounds(mant[..]);
      BitOfKept(f, BigVal(mant[..]), f.exponent + f.explicitOne - 1);
      TwicePow2(f.mantissa);
      ScaledUp(q, Pow2(f.mantissa));
      var up := TestBit(mant, f.exponent + f.explicitOne - 1);
      if up {
        UlpPositive(f);
        HalveQuotient(BigVal(mant[..]), Ulp(f));
        PowOne();
        Shr(mant, 1);
        exponent := exponent + 1;
        if exponent >= 2 * f.ExpMax() - 1 {
          PackSpecial(mant, FlInfinity, f);
          return;
        }
      }
      ghost var q' := if up then q / 2 else q;
      RemoveImplicitOne(mant, f, q');
      AddExponent(mant, f, exponent, q' - ImplicitOne(f));
    }

    /** The second half of to_float: classify, pack, add the sign and emit the bytes. */
    method Pack(ok: bool, mant: array<Limb>, exponent: int, minus: bool, f: Format) returns (result: seq<int>)
      requires mant.Length == MANT_LIMBS && f.Valid()
      requires InDomain(f, KindOf(f, ok, BigVal(mant[..]), exponent), BigVal(mant[..]), exponent - 1)
      modifies mant
      ensures |result| == f.bytes && forall k :: 0 <= k < f.bytes ==> 0 <= result[k] < 256
      ensures LittleEndian(result)
           == old(var v := BigVal(mant[..]);
                  Signed(f, minus, UnsignedBits(f, KindOf(f, ok, v, exponent), rc, daz, minus, v, exponent - 1)))
    {
      hide BigVal, Pow2, Half, Ulp, SpecialBits, LittleEndian, DenormalBits, NormalBits, KeptBits, Signed;
      ghost var v := BigVal(mant[..]);
      assert Half(0) == Pow2(191) by { HalfIs(0); }
      var top := TestBit(mant, 0);
      var kind := if !ok then FlQnan else if top then Classify(f, exponent - 1) else FlZero;
      if kind == FlZero {
        Clear(mant);
        UlpPositive(f);
        ZeroQuotient(0, Ulp(f));
        Positive(8 * f.bytes - 1);
      } else if kind == FlDenormal {
        PackDenormal(mant, exponent - 1, minus, f);
      } else if kind == FlNormal {
        PackNormal(mant, exponent - 1, minus, f);
      } else {
        PackSpecial(mant, kind, f);
      }
      AddSign(mant, f, minus);
      result := EmitBytes(mant, f);
    }
  }

  lemma ScaledUp(q: nat, m: nat)
    requires 0 < m <= q <= 2 * m
    ensures q / (2 * m) % 2 == 1 <==> q == 2 * m
    ensures q == 2 * m ==> q / 2 == m
  {
    if q < 2 * m {
      ZeroQuotient(q, 2 * m);
    } else {
      DivModUnique(q, 2 * m, 1, 0);
    }
  }

  lemma HalveQuotient(v: nat, d: nat)
    requires d > 0
    ensures v / 2 / d == v / d / 2
  {
    DivTwice(v, 2, d);
    DivTwice(v, d, 2);
  }

  lemma NormalRange(f: Format, rc: Rounding, minus: bool, v: nat, exponent: int)
    requires f.Valid() && InDomain(f, FlNormal, v, exponent)
    ensures ShiftCount(f, exponent) == f.exponent + f.explicitOne
    ensures Pow2(f.mantissa) <= KeptBits(f, rc, minus, v, f.exponent + f.explicitOne) <= 2 * Pow2(f.mantissa)
    ensures v / Pow2(f.exponent + f.explicitOne) / Ulp(f) < 2 * Pow2(f.mantissa)
  {
    hide Pow2, Half, Ulp, KeptBits, Chop, Weight;
    var shift := f.exponent + f.explicitOne;
    KeptRange(f, rc, minus, v, shift);
    ShiftedBelow(v, shift);
    Positive(shift);
    UlpPositive(f);
    HalfIsField(f, shift);
    HalfIsField(f, shift - 1);
    HalfIs(shift);
    HalfIs(shift - 1);
    TwicePow2(f.mantissa);
    Pow2Add(191 - shift, shift);
    FieldBelow(v, Pow2(shift), Pow2(191 - shift));
    FieldBelow(v / Pow2(shift), Ulp(f), Pow2(f.mantissa));
    FieldBelow(v / Pow2(shift), Ulp(f), 2 * Pow2(f.mantissa));
  }

  /** The cases FL_INFINITY, FL_QNAN and FL_SNAN. */
  method PackSpecial(mant: array<Limb>, kind: Kind, f: Format)
    requires mant.Length == MANT_LIMBS && f.Valid() && kind in {FlInfinity, FlQnan, FlSnan}
    modifies mant
    ensures BigVal(mant[..]) / Ulp(f) == SpecialBits(f, kind) < Pow2(8 * f.bytes - 1)
  {
    hide BigVal, Pow2, Half, Ulp, SpecialBits, InfinityBits;
    Clear(mant);
    ExponentRoom(f);
    HalfIs(f.exponent);
    OrExponent(mant, Pow2(f.exponent) - 1, f.exponent);
    ghost var u := AllOnes(f);
    AllOnesLead(f);
    if f.explicitOne == 1 {
      SetInField(mant, f, f.exponent + 1, u, Pow2(f.exponent) - 1, f.FieldBits());
      u := u + Pow2(f.mantissa);
    }
    if kind == FlQnan {
      SetInField(mant, f, f.exponent + f.explicitOne + 1, u, InfinityLead(f), f.mantissa);
      u := u + Pow2(f.mantissa - 1);
    } else if kind == FlSnan {
      SetInField(mant, f, f.exponent + f.explicitOne + f.mantissa, u, InfinityLead(f), f.mantissa);
      u := u + 1;
    }
    SpecialFits(f, kind);
    UlpPositive(f);
    DivModUnique(BigVal(mant[..]), Ulp(f), u, 0);
  }

  /** The all-ones exponent field in place. */
  ghost function AllOnes(f: Format): int
    requires f.Valid()
  {
    (Pow2(f.exponent) - 1) * Pow2(f.FieldBits())
  }

  ghost function InfinityLead(f: Format): nat
    requires f.Valid()
  {
    if f.explicitOne == 1 then 2 * (Pow2(f.exponent) - 1) + 1 else Pow2(f.exponent) - 1
  }

  lemma AllOnesLead(f: Format)
    requires f.Valid()
    ensures (Pow2(f.exponent) - 1) * Half(f.exponent) == AllOnes(f) * Ulp(f)
    ensures AllOnes(f) == (Pow2(f.exponent) - 1) * Pow2(f.FieldBits()) >= 0
    ensures InfinityBits(f) == AllOnes(f) + if f.explicitOne == 1 then Pow2(f.mantissa) else 0
    ensures InfinityBits(f) == InfinityLead(f) * Pow2(f.mantissa) >= 0
    ensures Pow2(0) == 1
  {
    hide Pow2, Ulp, Half;
    HalfIsField(f, f.exponent);
    assert 8 * f.bytes - 1 - f.exponent == f.FieldBits();
    Regroup(Pow2(f.exponent) - 1, Pow2(f.FieldBits()), Ulp(f));
    TwicePow2(f.mantissa);
    PowOne();
    InfinityArithmetic(Pow2(f.exponent) - 1, Pow2(f.mantissa));
    Positive(f.mantissa);
    Positive(f.exponent);
    MulMonotone(Pow2(f.FieldBits()), 0, Pow2(f.exponent) - 1);
  }

  lemma Regroup(a: int, b: int, c: int)
    ensures a * (b * c) == a * b * c
  {
  }

  lemma InfinityArithmetic(e: int, m: int)
    ensures m + e * (2 * m) == (2 * e + 1) * m
  {
  }

  lemma SpecialFits(f: Format, kind: Kind)
    requires f.Valid()
    ensures 0 <= SpecialBits(f, kind) < Pow2(8 * f.bytes - 1)
    ensures kind == FlQnan ==> SpecialBits(f, kind) == InfinityBits(f) + Pow2(f.mantissa - 1)
    ensures kind == FlSnan ==> SpecialBits(f, kind) == InfinityBits(f) + 1
    ensures kind == FlInfinity ==> SpecialBits(f, kind) == InfinityBits(f)
  {
    hide Pow2;
    TwicePow2(f.mantissa);
    TwicePow2(f.mantissa - 1);
    Positive(f.mantissa - 1);
    Positive(f.exponent);
    UnsignedFits(f, Pow2(f.exponent) - 1, SpecialBits(f, kind) - (Pow2(f.exponent) - 1) * Pow2(f.FieldBits()));
    MulMonotone(Pow2(f.FieldBits()), 0, Pow2(f.exponent) - 1);
  }

  /** set_bit below a field that is in place. */
  method SetInField(mant: array<Limb>, f: Format, pos: nat, ghost u: nat, ghost lead: nat, ghost k: nat)
    requires mant.Length == MANT_LIMBS && f.Valid() && pos < 8 * f.bytes && 8 * f.bytes - 1 - pos < k
    requires BigVal(mant[..]) == u * Ulp(f) && u == lead * Pow2(k)
    modifies mant
    ensures BigVal(mant[..]) == (u + Pow2(8 * f.bytes - 1 - pos)) * Ulp(f)
  {
    hide BigVal, Pow2, Half, Ulp;
    ghost var n := 8 * f.bytes - 1 - pos;
    HalfIsField(f, pos);
    UlpPositive(f);
    Positive(n);
    BigValBounds(mant[..]);
    BitOfKept(f, BigVal(mant[..]), pos);
    DivModUnique(BigVal(mant[..]), Ulp(f), u, 0);
    EvenField(lead, k, n);
    SetBit(mant, pos);
    Distribute(u, Pow2(n), Ulp(f));
  }

  lemma Distribute(a: int, b: int, c: int)
    ensures (a + b) * c == a * c + b * c
  {
  }

  lemma EvenField(lead: nat, k: nat, n: nat)
    requires n < k
    ensures lead * Pow2(k) / Pow2(n) % 2 == 0
  {
    hide Pow2;
    Pow2Add(k - n, n);
    TwicePow2(k - n - 1);
    Positive(n);
    EvenQuotient(lead, Pow2(k - n - 1), Pow2(n), Pow2(k));
  }

  lemma EvenQuotient(lead: nat, h: nat, d: nat, w: nat)
    requires d > 0 && w == 2 * h * d
    ensures lead * w / d % 2 == 0
  {
    assert lead * w == (2 * (lead * h)) * d;
    DivModUnique(lead * w, d, 2 * (lead * h), 0);
  }

  lemma ExponentRoom(f: Format)
    requires f.Valid()
    ensures Pow2(f.exponent) == 2 * f.ExpMax() >= 4 && Pow2(f.mantissa) >= 2 && f.ExpMax() >= 2
  {
    TwicePow2(f.exponent - 1);
    TwicePow2(f.exponent - 2);
    TwicePow2(f.mantissa - 1);
    Positive(f.exponent - 2);
    Positive(f.mantissa - 1);
  }

  lemma HalfTwice(bits: nat)
    requires 0 < bits < 192
    ensures Half(bits - 1) == 2 * Half(bits) && Half(bits) > 0
  {
    TwicePow2(191 - bits);
  }

  lemma RoundedCases(rc: Rounding, minus: bool, s: nat, half: nat)
    requires half > 0 && s < Weight(MANT_LIMBS)
    ensures AddsHalf(rc, minus, s, half) ==>
              RoundedMantissa(rc, minus, s, half) == (Chop(s, half) + half) % Weight(MANT_LIMBS)
    ensures !AddsHalf(rc, minus, s, half) ==> RoundedMantissa(rc, minus, s, half) == Chop(s, half)
  {
    hide Weight, AddsHalf;
    ModBounds(s, half);
    SmallMod(Chop(s, half), Weight(MANT_LIMBS));
  }

  method IsZero(mant: array<Limb>) returns (zero: bool)
    requires mant.Length == MANT_LIMBS
    ensures zero <==> BigVal(mant[..]) == 0
  {
    hide BigVal;
    ZeroIffAllZero(mant[..]);
    var i := 0;
    while i < MANT_LIMBS
      invariant 0 <= i <= MANT_LIMBS && forall k :: 0 <= k < i ==> mant[k] == 0
    {
      if mant[i] != 0 {
        assert mant[..][i] != 0;
        return false;
      }
      i := i + 1;
    }
    return true;
  }

  method Clear(mant: array<Limb>)
    requires mant.Length == MANT_LIMBS
    modifies mant
    ensures BigVal(mant[..]) == 0
  {
    hide BigVal;
    ClearLimbs(mant);
    AllZero(mant[..]);
  }

  lemma DenormalShift(f: Format, exponent: int)
    requires f.Valid() && exponent < 2 - f.ExpMax()
    ensures ShiftCount(f, exponent) == -(exponent + f.ExpMax() - 2 - f.exponent) + f.explicitOne
    ensures ShiftCount(f, exponent) > f.exponent + f.explicitOne
  {
  }

  lemma KeptIs(f: Format, rc: Rounding, minus: bool, v: int, shift: nat, r: int)
    requires f.Valid() && r == RoundedMantissa(rc, minus, v / Pow2(shift), Half(8 * f.bytes))
    ensures r / Ulp(f) == KeptBits(f, rc, minus, v, shift)
  {
  }

  lemma DenormalRange(f: Format, rc: Rounding, minus: bool, v: nat, exponent: int)
    requires f.Valid() && InDomain(f, FlDenormal, v, exponent)
    ensures 0 <= KeptBits(f, rc, minus, v, ShiftCount(f, exponent)) <= Pow2(f.mantissa)
  {
    hide Pow2, Half, Ulp, KeptBits, Chop, Weight;
    var shift := ShiftCount(f, exponent);
    DenormalShift(f, exponent);
    KeptRange(f, rc, minus, v, shift);
    ShiftedBelow(v, shift);
    Positive(shift);
    UlpPositive(f);
    if shift < 192 {
      Pow2Monotone(192 - shift, 191 - f.exponent - f.explicitOne);
    } else {
      Positive(191 - f.exponent - f.explicitOne);
    }
    HalfIsField(f, f.exponent + f.explicitOne);
    HalfIs(f.exponent + f.explicitOne);
    FieldBelow(v / Pow2(shift), Ulp(f), Pow2(f.mantissa));
    QuotientNonNegative(v / Pow2(shift), Ulp(f));
  }

  lemma QuotientNonNegative(v: nat, d: nat)
    requires d > 0
    ensures v / d >= 0
  {
  }

  /** The integer bit is set after rounding only for the smallest normal number. */
  lemma SmallestNormal(f: Format, q: nat)
    requires f.Valid() && q <= Pow2(f.mantissa)
    ensures q / Pow2(f.mantissa) % 2 == 1 <==> q == Pow2(f.mantissa)
  {
    hide Pow2;
    Positive(f.mantissa);
    if q < Pow2(f.mantissa) {
      ZeroQuotient(q, Pow2(f.mantissa));
    } else {
      DivModUnique(q, Pow2(f.mantissa), 1, 0);
    }
  }

  lemma DenormalFits(f: Format, q: nat)
    requires f.Valid() && q <= Pow2(f.mantissa)
    ensures q < Pow2(8 * f.bytes - 1) && Assemble(f, 0, q) == q && Assemble(f, 0, 0) == 0
    ensures 0 < Pow2(8 * f.bytes - 1)
  {
    Pow2Monotone(f.mantissa, 8 * f.bytes - 1);
    assert 0 * Pow2(f.FieldBits()) == 0;
  }

  // ----- the bytes -----

  lemma {:induction false} LittleEndianAppend(b: seq<int>, x: int)
    ensures LittleEndian(b + [x]) == LittleEndian(b) + Pow2(8 * |b|) * x
  {
    if |b| > 0 {
      LittleEndianAppend(b[1..], x);
      assert (b + [x])[1..] == b[1..] + [x];
      ByteWeight(|b|);
      Regroup(256, Pow2(8 * (|b| - 1)), x);
    }
  }

  lemma ByteWeight(n: nat)
    requires n > 0
    ensures Pow2(8 * n) == 256 * Pow2(8 * (n - 1))
    ensures Pow2(8) == 256
  {
    Pow2Add(8, 8 * (n - 1));
    assert Pow2(8) == 256 by { assert Pow2(4) == 16; Pow2Add(4, 4); }
  }

  /** The next byte, counting from the least significant one that is kept. */
  lemma NextByte(w: nat, n: nat, b: int)
    requires b == w / Pow2(8 * n) % 256
    ensures w % Pow2(8 * n) + Pow2(8 * n) * b == w % Pow2(8 * (n + 1))
  {
    hide Pow2;
    Positive(8 * n);
    ByteWeight(n + 1);
    HigherDigit(w, Pow2(8 * n), b);
  }

  lemma HigherDigit(w: nat, d: nat, b: int)
    requires d > 0 && b == w / d % 256
    ensures w % d + d * b == w % (256 * d)
  {
    var q, a := w / d, w / d / 256;
    assert w == q * d + w % d && q == 256 * a + b;
    assert (256 * a + b) * d == a * (256 * d) + b * d;
    MulMonotone(d, b, 255);
    MulMonotone(d, 0, b);
    DivModUnique(w, 256 * d, a, b * d + w % d);
  }

  /** Byte `i` of the mantissa, most significant first, as the code extracts it. */
  lemma ByteOfMantissa(s: seq<int>, i: nat)
    requires |s| == MANT_LIMBS && i < 24
    requires forall k :: 0 <= k < MANT_LIMBS ==> 0 <= s[k] < BASE
    ensures s[i / 4] / Pow2((3 - i % 4) * 8) % 256 == BigVal(s) / Pow2(8 * (23 - i)) % 256
  {
    hide BigVal, Pow2, Weight;
    var l, p := i / 4, 8 * (i % 4) + 7;
    SplitAt(s, l, p);
    assert 31 - p == (3 - i % 4) * 8 && 191 - (32 * l + p) == 8 * (23 - i);
    HalfIs(32 * l + p);
    Pow2Add(8, 8 * (i % 4));
    ByteWeight(1);
    LowByte(BigVal(s[..l]), Pow2(8 * (i % 4)), s[l] / Pow2(31 - p), Pow2(p + 1));
  }

  lemma LowByte(a: int, b: int, x: int, w: int)
    requires w == 256 * b
    ensures (a * w + x) % 256 == x % 256
  {
    assert a * w == 256 * (a * b);
  }

  /** The last loop of to_float: the kept bytes, least significant first. */
  method EmitBytes(mant: array<Limb>, f: Format) returns (result: seq<int>)
    requires mant.Length == MANT_LIMBS && f.Valid()
    ensures |result| == f.bytes && forall k :: 0 <= k < f.bytes ==> 0 <= result[k] < 256
    ensures LittleEndian(result) == BigVal(mant[..]) / Ulp(f)
  {
    hide BigVal, Pow2, Ulp, LittleEndian, Weight;
    ghost var w := BigVal(mant[..]) / Ulp(f);
    BigValBounds(mant[..]);
    KeptWidth(f, BigVal(mant[..]));
    result := [];
    NoBytes(w);
    for i := f.bytes downto 0
      invariant |result| == f.bytes - i && forall k :: 0 <= k < |result| ==> 0 <= result[k] < 256
      invariant LittleEndian(result) == w % Pow2(8 * (f.bytes - i))
    {
      Positive((3 - i % 4) * 8);
      ByteOfMantissa(mant[..], i);
      KeptByte(f, BigVal(mant[..]), i);
      var b := mant[i / 4] / Pow2((3 - i % 4) * 8) % 256;
      LittleEndianAppend(result, b);
      NextByte(w, f.bytes - 1 - i, b);
      result := result + [b];
    }
    SmallMod(w, Pow2(8 * f.bytes));
  }

  lemma NoBytes(w: int)
    ensures LittleEndian([]) == w % Pow2(0)
  {
  }

  lemma KeptWidth(f: Format, v: nat)
    requires f.Valid() && v < Weight(MANT_LIMBS)
    ensures 0 <= v / Ulp(f) < Pow2(8 * f.bytes)
  {
    hide Pow2, Weight, Ulp;
    WeightIsPow2(6);
    UlpPositive(f);
    UlpIs(f);
    Pow2Add(8 * f.bytes, 192 - 8 * f.bytes);
    FieldBelow(v, Ulp(f), Pow2(8 * f.bytes));
    QuotientNonNegative(v, Ulp(f));
  }

  lemma UlpIs(f: Format)
    requires f.Valid()
    ensures Ulp(f) == Pow2(192 - 8 * f.bytes)
  {
  }

  lemma KeptByte(f: Format, v: nat, i: nat)
    requires f.Valid() && i < f.bytes
    ensures v / Pow2(8 * (23 - i)) == v / Ulp(f) / Pow2(8 * (f.bytes - 1 - i))
  {
    hide Pow2, Ulp;
    UlpPositive(f);
    UlpIs(f);
    Positive(8 * (f.bytes - 1 - i));
    Pow2Add(8 * (f.bytes - 1 - i), 192 - 8 * f.bytes);
    assert 8 * (f.bytes - 1 - i) + (192 - 8 * f.bytes) == 8 * (23 - i);
    DivThrough(v, Pow2(8 * (23 - i)), Pow2(8 * (f.bytes - 1 - i)), Ulp(f));
  }
}
