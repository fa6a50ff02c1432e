/** to_float of float.c from the text of a constant to its bytes. */
module FloatConstant {
  import opened Wrappers
  import opened DecimalDigits
  import opened Bytes
  import opened Powers
  import opened Limbs
  import opened FloatFormat
  import opened FloatPack
  import opened FloatDecode
  import Round = FloatRound
  import Shift = FloatShift
  import Scale = FloatScale
  import Bcd = PackedBcd

  datatype Spelling =
    | PackedDecimal(digits: string)
    | Token(kind: Kind)
    | Radix
    | Decimal(body: string)

  /** How the first characters and the last one select the conversion. */
  function SpellingOf(s: string): Spelling
    requires |s| > 0 && (s[0] == '_' ==> |s| > 2)
  {
    if s[|s| - 1] == 'p' || s[|s| - 1] == 'P' then PackedDecimal(s[..|s| - 1])
    else if s[0] == '_' then
      if s[2] == 's' || s[2] == 'S' then Token(FlSnan)
      else if s[2] == 'i' || s[2] == 'I' then Token(FlInfinity)
      else Token(FlQnan)
    else if s[0] == '0' && |s| > 1 then
      if s[1] in "xXhHoOqQbByY" then Radix
      else if s[1] in "dDtT" then Decimal(s[2..])
      else if s[1] in "pP" then PackedDecimal(s[2..])
      else Decimal(s)
    else if s[0] == '$' then Radix
    else Decimal(s)
  }

  /** A text that does not end as a packed constant. */
  predicate Unpacked(t: string) {
    |t| > 0 ==> t[|t| - 1] != 'p' && t[|t| - 1] != 'P'
  }

  /** A trailing P marks a packed decimal. */
  lemma SpelledSuffix(t: string, u: char)
    requires u in {'p', 'P'} && (t != "" ==> t[0] != '_')
    ensures SpellingOf(t + [u]) == PackedDecimal(t)
  {
    assert (t + [u])[..|t|] == t;
  }

  /** A zero and a letter: the decimal prefixes, the packed one, and the other radices. */
  lemma SpelledPrefix(c: char, t: string)
    requires Unpacked(t)
    ensures c in {'d', 'D', 't', 'T'} ==> SpellingOf(['0', c] + t) == Decimal(t)
    ensures c in {'p', 'P'} && t != "" ==> SpellingOf(['0', c] + t) == PackedDecimal(t)
    ensures c in {'x', 'X', 'h', 'H', 'o', 'O', 'q', 'Q', 'b', 'B', 'y', 'Y'} ==> SpellingOf(['0', c] + t) == Radix
  {
    var s := ['0', c] + t;
    assert s[2..] == t && s[|s| - 1] == if t == "" then c else t[|t| - 1];
  }

  /** Numbers without a prefix, and the other one for hexadecimal. */
  lemma SpelledPlain(t: string)
    requires Unpacked(t)
    ensures t != "" && ('1' <= t[0] <= '9' || t[0] == '.') ==> SpellingOf(t) == Decimal(t)
    ensures t == "" || IsDigit(t[0]) || t[0] in {'.', '_', 'e', 'E'} ==> SpellingOf(['0'] + t) == Decimal(['0'] + t)
    ensures SpellingOf(['$'] + t) == Radix
  {
    var s, h := ['0'] + t, ['$'] + t;
    assert s[|s| - 1] == if t == "" then '0' else t[|t| - 1];
    assert h[|h| - 1] == if t == "" then '$' else t[|t| - 1];
  }

  lemma SpelledTokens()
    ensures SpellingOf("__Infinity__") == SpellingOf("__infinity__") == Token(FlInfinity)
    ensures SpellingOf("__NaN__") == SpellingOf("__QNaN__") == SpellingOf("__qnan__") == Token(FlQnan)
    ensures SpellingOf("__SNaN__") == SpellingOf("__snan__") == Token(FlSnan)
  {
  }

  /**
    What the bytes of a decimal constant denote, given the converted mantissa: the number
    that packing represents, flushed if that is on, and the correct rounding exactly where
    `RoundsRightly` says so.
   */
  ghost predicate Denotes(f: Format, rc: Round.Rounding, daz: bool, minus: bool, v: nat, e: int, bytes: seq<int>)
    requires f.Valid()
  {
    && |bytes| == f.bytes
    && LittleEndian(bytes) >= 0
    && if v == 0 then Decode(f, LittleEndian(bytes)) == Finite(minus, 0)
       else Convertible(f, v, e - 1)
            && Decode(f, LittleEndian(bytes)) == Flushed(f, daz, Represented(f, rc, minus, v, e - 1))
            && (Represented(f, rc, minus, v, e - 1) == Correct(f, rc, minus, v, e - 1)
                <==> RoundsRightly(f, rc, minus, v, e - 1))
  }

  /** Zero packs to a signed zero, and an unreadable constant to a quiet NaN. */
  lemma ZeroDecodes(f: Format, minus: bool)
    requires f.Valid()
    ensures Signed(f, minus, 0) >= 0 && Decode(f, Signed(f, minus, 0)) == Finite(minus, 0)
  {
    hide Pow2, Decode, Signed;
    ExponentRoom(f);
    Shift.Positive(f.FieldBits());
    assert Assemble(f, 0, 0) == 0;
    DecodeFields(f, minus, 0, 0);
    DecodeFinite(f, minus, 0, 0);
  }

  lemma TopBitOf(v: nat)
    requires Scale.ZeroOrNormalised(v) && v < Weight(MANT_LIMBS)
    ensures v / Pow2(191) % 2 == 1 <==> v != 0
    ensures v != 0 ==> Pow2(191) <= v < Pow2(192)
  {
    hide Pow2, Weight;
    WeightIsPow2(6);
    Round.TwicePow2(191);
    Shift.Positive(191);
    if v != 0 {
      OneQuotient(v, Pow2(191));
    } else {
      ZeroQuotient(0, Pow2(191));
    }
  }

  /**
    A well-formed decimal constant becomes the bytes of its rounded value: the mantissa `v`
    and exponent `e` are within the proved error of the written value, and the bytes denote
    what rounding makes of them in the mode that is set.  Denormals shifted by more than the
    mantissa, and not by whole limbs, are reported as `!defined`: the code leaves the array.
   */
  method DecimalToFloat(unit: FloatUnit, t: string, minus: bool, f: Format)
    returns (defined: bool, result: seq<int>, ghost v: nat, ghost e: int)
    requires f.Valid() && f.mantissa > 1
    ensures defined && Scale.WellFormed(t) ==> Scale.CloseTo(Scale.ValueOf(t), Scale.Float(v, e), Scale.TenPower(t))
    ensures defined && Scale.WellFormed(t) ==> Denotes(f, unit.rc, unit.daz, minus, v, e, result)
    ensures defined && !Scale.WellFormed(t) ==>
              |result| == f.bytes && LittleEndian(result) >= 0 && Decode(f, LittleEndian(result)) == NotANumber(true)
    ensures !defined <==> Scale.WellFormed(t) && v != 0 && !Shift.Shiftable(ShiftCount(f, e - 1))
  {
    hide Pow2, BigVal, Weight, Decode, LittleEndian, Signed, UnsignedBits, Scale.CloseTo, Scale.ValueOf, Scale.Float,
      Scale.TenPower, Scale.WellFormed, Scale.ZeroOrNormalised, Denotes, SpecialBits, KindOf, InDomain, ShiftCount;
    var mant := new Limb[MANT_LIMBS](_ => 0);
    var ok, exponent := Scale.Flconvert(t, mant);
    BigValBounds(mant[..]);
    v, e := BigVal(mant[..]), exponent;
    if ok {
      var zero := IsZero(mant);
      if !zero && !Shift.Shiftable(ShiftCount(f, exponent - 1)) {
        return false, [], v, e;
      }
      KindOfNumber(f, v, e);
      result := unit.Pack(ok, mant, exponent, minus, f);
      NumberDenotes(f, unit.rc, unit.daz, minus, v, e, result);
    } else {
      KindOfJunk(f, v, e);
      result := unit.Pack(ok, mant, exponent, minus, f);
      JunkDecodes(f, unit.rc, unit.daz, minus, v, e);
    }
    defined := true;
  }

  lemma KindOfNumber(f: Format, v: nat, e: int)
    requires f.Valid() && f.mantissa > 1
    requires Scale.ZeroOrNormalised(v) && v < Weight(MANT_LIMBS) && (v != 0 ==> Shift.Shiftable(ShiftCount(f, e - 1)))
    ensures KindOf(f, true, v, e) == if v == 0 then FlZero else Classify(f, e - 1)
    ensures v != 0 ==> Convertible(f, v, e - 1)
    ensures InDomain(f, KindOf(f, true, v, e), v, e - 1)
  {
    hide Pow2, ShiftCount, Decode, Signed, UnsignedBits, Represented;
    TopBitOf(v);
    if v != 0 {
      PackedDecodes(f, Round.Near, false, false, v, e - 1);
    }
  }

  lemma NumberDenotes(f: Format, rc: Round.Rounding, daz: bool, minus: bool, v: nat, e: int, result: seq<int>)
    requires f.Valid() && f.mantissa > 1 && |result| == f.bytes
    requires KindOf(f, true, v, e) == if v == 0 then FlZero else Classify(f, e - 1)
    requires v != 0 ==> Convertible(f, v, e - 1)
    requires InDomain(f, KindOf(f, true, v, e), v, e - 1)
    requires LittleEndian(result)
          == Signed(f, minus, UnsignedBits(f, KindOf(f, true, v, e), rc, daz, minus, v, e - 1))
    ensures Denotes(f, rc, daz, minus, v, e, result)
  {
    hide Pow2, ShiftCount, Decode, Signed, Correct, Represented, RoundsRightly, Flushed, LittleEndian, KindOf,
      Classify, DenormalBits, NormalBits, SpecialBits, KeptBits, InDomain, Convertible;
    if v == 0 {
      ZeroDecodes(f, minus);
    } else {
      PackedDecodes(f, rc, daz, minus, v, e - 1);
      DecodesIff(f, rc, minus, v, e - 1);
    }
  }

  lemma KindOfJunk(f: Format, v: nat, e: int)
    requires f.Valid()
    ensures KindOf(f, false, v, e) == FlQnan && InDomain(f, FlQnan, v, e - 1)
  {
  }

  lemma JunkDecodes(f: Format, rc: Round.Rounding, daz: bool, minus: bool, v: nat, e: int)
    requires f.Valid() && f.mantissa > 1 && InDomain(f, FlQnan, v, e - 1)
    ensures var u := Signed(f, minus, UnsignedBits(f, FlQnan, rc, daz, minus, v, e - 1));
            u >= 0 && Decode(f, u) == NotANumber(true)
  {
    hide Pow2, Decode, Signed, SpecialBits;
    SpecialDecodes(f, FlQnan, minus);
  }

  /** `OtherRadix` hands the constant to ieee_flconvert_bin. */
  datatype Outcome = Bytes(bytes: seq<int>) | Refused | Undefined | OtherRadix

  /** A packed decimal constant: ten bytes of digits and sign, or a refusal. */
  predicate PackedRight(f: Format, t: string, minus: bool, o: Outcome) {
    if f.bytes == 10 && Bcd.Spelled(t)
    then o.Bytes? && |o.bytes| == 10 && Bcd.Decoded(o.bytes[..9]) == Bcd.Number(t) % Pow10(18)
         && (forall k :: 0 <= k < 9 ==> Bcd.Packed(o.bytes[k])) && o.bytes[9] == if minus then 0x80 else 0
    else o.Refused?
  }

  /** A token for infinity or a NaN. */
  predicate TokenRight(f: Format, kind: Kind, minus: bool, o: Outcome)
    requires f.Valid()
  {
    o.Bytes? && |o.bytes| == f.bytes && LittleEndian(o.bytes) >= 0
    && Decode(f, LittleEndian(o.bytes)) == if kind == FlInfinity then Infinite(minus) else NotANumber(kind == FlQnan)
  }

  /** A well-formed decimal constant, given its converted mantissa `v` and exponent `e`. */
  ghost predicate DecimalRight(f: Format, rc: Round.Rounding, daz: bool, t: string, minus: bool, o: Outcome,
                               v: nat, e: int)
    requires f.Valid() && Scale.WellFormed(t)
  {
    if o.Undefined? then v != 0 && !Shift.Shiftable(ShiftCount(f, e - 1))
    else o.Bytes? && Scale.CloseTo(Scale.ValueOf(t), Scale.Float(v, e), Scale.TenPower(t))
         && Denotes(f, rc, daz, minus, v, e, o.bytes)
  }

  /** to_float; a radix prefix selects another conversion. */
  method ToFloat(unit: FloatUnit, s: string, minus: bool, f: Format)
    returns (o: Outcome, ghost v: nat, ghost e: int)
    requires f.Valid() && f.mantissa > 1 && |s| > 0 && (s[0] == '_' ==> |s| > 2)
    ensures SpellingOf(s).Radix? <==> o.OtherRadix?
    ensures SpellingOf(s).PackedDecimal? ==> PackedRight(f, SpellingOf(s).digits, minus, o)
    ensures SpellingOf(s).Token? ==> TokenRight(f, SpellingOf(s).kind, minus, o)
    ensures SpellingOf(s).Decimal? && !Scale.WellFormed(SpellingOf(s).body) ==> TokenRight(f, FlQnan, minus, o)
    ensures SpellingOf(s).Decimal? && Scale.WellFormed(SpellingOf(s).body) ==>
              DecimalRight(f, unit.rc, unit.daz, SpellingOf(s).body, minus, o, v, e)
  {
    hide Pow2, BigVal, Decode, LittleEndian, Signed, SpecialBits, Scale.CloseTo, Scale.WellFormed, Scale.Float,
      Denotes, Pow10, Bcd.Decoded, Bcd.Number, Bcd.Packed, Bcd.Spelled, SpellingOf;
    v, e := 0, 0;
    match SpellingOf(s) {
      case PackedDecimal(t) =>
        var result := new int[10];
        var ok := Bcd.ToPackedBcd(t, minus, result, f.bytes);
        assert result[..][..9] == result[..9];
        o := if ok then Bytes(result[..]) else Refused;
      case Token(kind) =>
        assert kind in {FlInfinity, FlQnan, FlSnan} by { TokenKind(s); }
        var mant := new Limb[MANT_LIMBS](_ => 0);
        PackSpecial(mant, kind, f);
        AddSign(mant, f, minus);
        var result := EmitBytes(mant, f);
        SpecialDecodes(f, kind, minus);
        o := Bytes(result);
      case Radix =>
        o := OtherRadix;
      case Decimal(t) =>
        var defined, result;
        defined, result, v, e := DecimalToFloat(unit, t, minus, f);
        o := if defined then Bytes(result) else Undefined;
    }
  }

  /** The format for a number of bytes, if there is one. */
  function FormatOf(bytes: int): (r: Option<Format>)
    ensures r.Some? ==> r.value in FORMATS && r.value.bytes == bytes
    ensures r.None? ==> forall f :: f in FORMATS ==> f.bytes != bytes
  {
    match bytes
    case 1 => Some(IEEE_8)
    case 2 => Some(IEEE_16)
    case 4 => Some(IEEE_32)
    case 8 => Some(IEEE_64)
    case 10 => Some(IEEE_80)
    case 16 => Some(IEEE_128)
    case _ => None
  }

  /** float_const: one of the six formats by its size, and nothing for any other size. */
  method FloatConst(unit: FloatUnit, s: string, minus: bool, bytes: int)
    returns (o: Outcome, ghost v: nat, ghost e: int)
    requires |s| > 0 && (s[0] == '_' ==> |s| > 2)
    ensures FormatOf(bytes).None? ==> o == Refused
    ensures FormatOf(bytes).Some? ==> (SpellingOf(s).Radix? <==> o.OtherRadix?)
    ensures FormatOf(bytes).Some? && o.Bytes? ==> |o.bytes| == bytes
    ensures FormatOf(bytes).Some? && SpellingOf(s).PackedDecimal? ==>
              PackedRight(FormatOf(bytes).value, SpellingOf(s).digits, minus, o)
    ensures FormatOf(bytes).Some? && SpellingOf(s).Decimal? ==>
              var f, t := FormatOf(bytes).value, SpellingOf(s).body;
              f.Valid() && if Scale.WellFormed(t) then DecimalRight(f, unit.rc, unit.daz, t, minus, o, v, e)
                           else TokenRight(f, FlQnan, minus, o)
    ensures FormatOf(bytes).Some? && SpellingOf(s).Token? ==>
              FormatOf(bytes).value.Valid() && TokenRight(FormatOf(bytes).value, SpellingOf(s).kind, minus, o)
  {
    hide SpellingOf, Scale.WellFormed, Scale.CloseTo, Pow2, Decode, LittleEndian, Represented, Correct, Pow10;
    if FormatOf(bytes).None? {
      return Refused, 0, 0;
    }
    var f := FormatOf(bytes).value;
    FormatsValid(f);
    o, v, e := ToFloat(unit, s, minus, f);
  }

  lemma TokenKind(s: string)
    requires |s| > 0 && (s[0] == '_' ==> |s| > 2) && SpellingOf(s).Token?
    ensures SpellingOf(s).kind in {FlInfinity, FlQnan, FlSnan}
  {
  }
}
