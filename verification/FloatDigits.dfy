/** The digit-doubling loop of ieee_flconvert: a decimal fraction to a normalised mantissa. */
module FloatDigits {
  import opened DecimalDigits
  import opened Powers
  import opened Limbs
  import Bits
  import opened FloatDecimal

  /** The decimal fraction 0.digits, in units of 10^-52. */
  function Scaled(digits: seq<int>): int
    requires |digits| <= MANT_DIGITS
  {
    DecVal(digits) * Pow10(MANT_DIGITS - |digits|)
  }

  lemma {:induction false} ScaledTrim(d: seq<int>)
    requires 0 < |d| <= MANT_DIGITS && d[|d| - 1] == 0
    ensures Scaled(d[..|d| - 1]) == Scaled(d)
  {
    var v, n := DecVal(d[..|d| - 1]), MANT_DIGITS - |d|;
    assert Pow10(n + 1) == 10 * Pow10(n);
    assert v * 10 * Pow10(n) == v * (10 * Pow10(n));
  }

  lemma ScaledBounds(d: seq<int>)
    requires |d| <= MANT_DIGITS && AreDigits(d)
    ensures 0 <= Scaled(d) < Pow10(MANT_DIGITS)
  {
    DecValBounds(d);
    var w := Pow10(MANT_DIGITS - |d|);
    Pow10Add(|d|, MANT_DIGITS - |d|);
    MulStrict(w, DecVal(d), Pow10(|d|));
    MulMonotone(w, 0, DecVal(d));
  }

  lemma {:induction false} Pow10Add(a: nat, b: nat)
    ensures Pow10(a + b) == Pow10(a) * Pow10(b)
  {
    if a > 0 {
      Pow10Add(a - 1, b);
    }
  }

  /** Drops trailing zeros: `while (p > q && !p[-1]) p--`. */
  method Trim(digits: array<int>, p0: nat) returns (p: nat)
    requires digits.Length == MANT_DIGITS && p0 <= MANT_DIGITS && AreDigits(digits[..p0])
    ensures p <= p0 && AreDigits(digits[..p]) && Scaled(digits[..p]) == Scaled(digits[..p0])
    ensures p > 0 ==> digits[p - 1] != 0
  {
    p := p0;
    while p > 0 && digits[p - 1] == 0
      invariant p <= p0 && AreDigits(digits[..p]) && Scaled(digits[..p]) == Scaled(digits[..p0])
    {
      hide Scaled;
      ScaledTrim(digits[..p]);
      assert digits[..p][..p - 1] == digits[..p - 1];
      p := p - 1;
    }
  }

  /** `t` with `carry` in front of it is twice `s`. */
  ghost predicate Doubled(s: seq<int>, t: seq<int>, carry: int) {
    |s| == |t| && 2 * DecVal(s) == carry * Pow10(|s|) + DecVal(t)
  }

  lemma DoubleStep(s: seq<int>, t: seq<int>, x: int, carry: int, i: int, carry': int)
    requires Doubled(s, t, carry)
    requires 2 * x + carry == carry' * 10 + i
    ensures Doubled([x] + s, [i] + t, carry')
  {
    DecValHead([x] + s);
    DecValHead([i] + t);
    assert ([x] + s)[1..] == s && ([i] + t)[1..] == t;
    var w := Pow10(|s|);
    assert Pow10(|s| + 1) == 10 * w;
    DoubleArithmetic(x, carry, i, carry', w);
  }

  lemma DoubleArithmetic(x: int, carry: int, i: int, carry': int, w: int)
    requires 2 * x + carry == carry' * 10 + i
    ensures 2 * (x * w) + carry * w == carry' * (10 * w) + i * w
  {
    assert (2 * x + carry) * w == (carry' * 10 + i) * w;
  }

  lemma IsDigitAt(d: seq<int>, r: nat)
    requires AreDigits(d) && r < |d|
    ensures 0 <= d[r] <= 9
  {
  }

  lemma ConsDigits(i: int, d: seq<int>)
    requires AreDigits(d) && 0 <= i <= 9
    ensures AreDigits([i] + d)
  {
  }

  /** One pass over the buffer: doubles the number, digit by digit, and returns the carry. */
  method Double(digits: array<int>, p: nat) returns (carry: int)
    requires digits.Length == MANT_DIGITS && p <= MANT_DIGITS && AreDigits(digits[..p])
    modifies digits
    ensures carry == 0 || carry == 1
    ensures AreDigits(digits[..p])
    ensures Doubled(old(digits[..p]), digits[..p], carry)
  {
    ghost var d := digits[..p];
    ghost var tail: seq<int> := [];
    assert Doubled(d[p..], tail, 0);
    carry := 0;
    var r := p;
    while r > 0
      invariant r <= p && (carry == 0 || carry == 1) && |tail| == p - r
      invariant digits[..p] == d[..r] + tail && AreDigits(tail)
      invariant Doubled(d[r..], tail, carry)
    {
      hide Doubled, DecVal, Pow10, AreDigits;
      ghost var c := carry;
      r := r - 1;
      assert digits[r] == digits[..p][r] == d[r];
      IsDigitAt(d, r);
      var i := 2 * digits[r] + carry;
      if i >= 10 {
        carry := 1;
        i := i - 10;
      } else {
        carry := 0;
      }
      DoubleStep(d[r + 1..], tail, d[r], c, i, carry);
      ConsDigits(i, tail);
      digits[r] := i;
      tail := [i] + tail;
      assert d[r..] == [d[r]] + d[r + 1..];
    }
    assert d[0..] == d && d[..0] + tail == tail;
  }

  lemma DoubleScaled(d: seq<int>, d': seq<int>, carry: int)
    requires |d| <= MANT_DIGITS && Doubled(d, d', carry)
    ensures 2 * Scaled(d) == carry * Pow10(MANT_DIGITS) + Scaled(d')
  {
    hide Pow10, DecVal;
    Pow10Add(|d|, MANT_DIGITS - |d|);
    ScaleEquation(DecVal(d), DecVal(d'), carry, Pow10(|d|), Pow10(MANT_DIGITS - |d|));
  }

  lemma ScaleEquation(v: int, v': int, carry: int, a: int, b: int)
    requires 2 * v == carry * a + v'
    ensures 2 * (v * b) == carry * (a * b) + v' * b
  {
    assert (carry * a + v') * b == carry * (a * b) + v' * b;
  }

  // ----- collecting the bits -----

  /**
    After some doublings of the fraction `v0`, the integer parts that came out are the
    number `bits` (`nb` binary digits, the first of them a one), `v` is what is left, and
    -`twopwr` doublings came before the first one.
   */
  ghost predicate Collected(v0: int, v: int, bits: nat, nb: nat, twopwr: int) {
    && twopwr <= 0
    && nb <= 192
    && v0 * Pow2(nb - twopwr) == bits * Pow10(MANT_DIGITS) + v
    && bits < Pow2(nb)
    && (nb > 0 ==> bits >= Pow2(nb - 1))
  }

  lemma CollectStep(v0: int, v: int, v': int, carry: int, bits: nat, nb: nat, twopwr: int)
    requires Collected(v0, v, bits, nb, twopwr) && nb < 192
    requires 2 * v == carry * Pow10(MANT_DIGITS) + v'
    requires carry == 0 || carry == 1
    ensures nb > 0 || carry == 1 ==> Collected(v0, v', 2 * bits + carry, nb + 1, twopwr)
    ensures nb == 0 && carry == 0 ==> bits == 0 && Collected(v0, v', bits, nb, twopwr - 1)
  {
    var t, k := Pow10(MANT_DIGITS), nb - twopwr;
    hide Pow10;
    assert Pow2(k + 1) == 2 * Pow2(k);
    DoubleEquation(v0, Pow2(k), bits, t, v, carry, v');
    assert Pow2(nb + 1) == 2 * Pow2(nb);
  }

  lemma DoubleEquation(v0: int, q: int, bits: int, t: int, v: int, carry: int, v': int)
    requires v0 * q == bits * t + v && 2 * v == carry * t + v'
    ensures v0 * (2 * q) == (2 * bits + carry) * t + v'
  {
    assert v0 * (2 * q) == 2 * (bits * t + v);
    assert (2 * bits + carry) * t == 2 * (bits * t) + carry * t;
  }

  /** The mantissa array holds `bits` left-aligned, and everything below is still zero. */
  ghost predicate Aligned(mant: seq<int>, bits: nat, nb: nat) {
    && |mant| == MANT_LIMBS && nb <= 192
    && (forall k :: 0 <= k < MANT_LIMBS ==> 0 <= mant[k] < BASE)
    && BigVal(mant) == bits * Pow2(192 - nb)
    && (nb < 192 ==> mant[nb / 32] % Pow2(32 - nb % 32) == 0)
    && (forall k :: nb / 32 < k < MANT_LIMBS ==> mant[k] == 0)
  }

  /** Moving on by one bit position, after the bit there has been given its value `carry`. */
  lemma AlignStep(mant: seq<int>, mant': seq<int>, bits: nat, nb: nat, carry: int)
    requires Aligned(mant, bits, nb) && nb < 192 && (carry == 0 || carry == 1)
    requires mant' == mant[nb / 32 := mant[nb / 32] + carry * Pow2(31 - nb % 32)]
    ensures Aligned(mant', 2 * bits + carry, nb + 1)
  {
    hide Pow2, BigVal;
    BitFits(mant[nb / 32], 31 - nb % 32, carry);
    AlignValue(mant, mant', bits, nb, carry);
    NextBit(nb);
    if nb % 32 == 31 && nb + 1 < 192 {
      ZeroMod(Pow2(32));
    }
  }

  lemma ZeroMod(d: nat)
    requires d > 0
    ensures 0 % d == 0
  {
  }

  lemma AlignValue(mant: seq<int>, mant': seq<int>, bits: nat, nb: nat, carry: int)
    requires |mant| == MANT_LIMBS && nb < 192 && BigVal(mant) == bits * Pow2(192 - nb)
    requires mant' == mant[nb / 32 := mant[nb / 32] + carry * Pow2(31 - nb % 32)]
    ensures BigVal(mant') == (2 * bits + carry) * Pow2(191 - nb)
  {
    hide BigVal, Weight;
    var m, b := nb / 32, 31 - nb % 32;
    assert b + 32 * (5 - m) == 191 - nb;
    assert Pow2(192 - nb) == 2 * Pow2(191 - nb);
    hide Pow2;
    BigValUpdate(mant, m, carry * Pow2(b));
    WeightIsPow2(5 - m);
    Pow2Add(b, 32 * (5 - m));
    AlignArithmetic(bits, carry, Pow2(191 - nb), Pow2(b), Pow2(32 * (5 - m)));
  }

  lemma AlignArithmetic(bits: int, carry: int, h: int, b: int, w: int)
    requires h == b * w
    ensures bits * (2 * h) + carry * b * w == (2 * bits + carry) * h
  {
    assert carry * b * w == carry * (b * w);
  }

  lemma BitFits(x: Limb, b: nat, carry: int)
    requires b < 32 && x % Pow2(b + 1) == 0 && (carry == 0 || carry == 1)
    ensures 0 <= x + carry * Pow2(b) < BASE
    ensures (x + carry * Pow2(b)) % Pow2(b) == 0
    ensures Bits.Or(x, Pow2(b)) == x + Pow2(b)
  {
    hide Bits.Or;
    var h := Pow2(b);
    assert Pow2(b + 1) == 2 * h;
    Pow2Add(b + 1, 31 - b);
    WeightIsPow2(1);
    hide Pow2;
    Bits.OrDisjoint(x, h, b + 1);
    assert b + 1 + (31 - b) == 32;
    BitFitsArithmetic(x, h, Pow2(31 - b), carry);
  }

  lemma BitFitsArithmetic(x: nat, h: nat, top: nat, carry: int)
    requires h > 0 && x < (2 * h) * top && x % (2 * h) == 0 && (carry == 0 || carry == 1)
    ensures x + carry * h < (2 * h) * top && (x + carry * h) % h == 0
  {
    var q := x / (2 * h);
    assert x == q * (2 * h) == (2 * q) * h;
    BelowTop(q, 2 * h, top);
    DivModUnique(x + carry * h, h, 2 * q + carry, 0);
  }

  lemma BelowTop(q: nat, d: nat, top: nat)
    requires d > 0 && q * d < d * top
    ensures q * d + d <= d * top
  {
    MulCancel(d, q, top);
    MulMonotone(d, q + 1, top);
  }

  /** `m` is the integer part of v * q / t. */
  ghost predicate IsFloor(m: int, v: int, q: int, t: int) {
    m * t <= v * q < (m + 1) * t
  }

  /** The two-sided meaning of the collected mantissa. */
  ghost predicate Truncates(v0: int, mant: int, twopwr: int)
    requires twopwr <= 0
  {
    && IsFloor(mant, v0, Pow2(192 - twopwr), Pow10(MANT_DIGITS))
    && (v0 > 0 ==> Pow2(191) <= mant < Pow2(192))
    && (v0 == 0 ==> mant == 0)
  }

  lemma CollectedTruncates(v0: nat, v: int, bits: nat, nb: nat, twopwr: int)
    requires Collected(v0, v, bits, nb, twopwr)
    requires 0 <= v < Pow10(MANT_DIGITS) && (nb == 192 || v == 0)
    requires nb == 0 ==> bits == 0
    ensures Truncates(v0, bits * Pow2(192 - nb), twopwr)
  {
    hide *;
    CollectedRange(v0, v, bits, nb, twopwr);
    CollectedFloor(v0, v, bits, nb, twopwr);
    TruncatesIf(v0, bits * Pow2(192 - nb), twopwr);
  }

  lemma TruncatesIf(v0: nat, mant: int, twopwr: int)
    requires twopwr <= 0 && IsFloor(mant, v0, Pow2(192 - twopwr), Pow10(MANT_DIGITS))
    requires v0 > 0 ==> Pow2(191) <= mant < Pow2(192)
    requires v0 == 0 ==> mant == 0
    ensures Truncates(v0, mant, twopwr)
  {
  }

  lemma CollectedFloor(v0: nat, v: int, bits: nat, nb: nat, twopwr: int)
    requires Collected(v0, v, bits, nb, twopwr)
    requires 0 <= v < Pow10(MANT_DIGITS) && (nb == 192 || v == 0)
    ensures IsFloor(bits * Pow2(192 - nb), v0, Pow2(192 - twopwr), Pow10(MANT_DIGITS))
  {
    assert nb == 192 ==> Pow2(192 - nb) == 1;
    hide Pow10, Pow2, IsFloor;
    var k, s := nb - twopwr, 192 - nb;
    Pow2Add(k, s);
    assert k + s == 192 - twopwr;
    TruncateArithmetic(v0, Pow2(k), bits, Pow10(MANT_DIGITS), v, Pow2(s));
  }

  lemma CollectedRange(v0: nat, v: int, bits: nat, nb: nat, twopwr: int)
    requires Collected(v0, v, bits, nb, twopwr)
    requires 0 <= v < Pow10(MANT_DIGITS) && (nb == 192 || v == 0)
    requires nb == 0 ==> bits == 0
    ensures twopwr <= 0 && nb <= 192
    ensures v0 > 0 ==> Pow2(191) <= bits * Pow2(192 - nb) < Pow2(192)
    ensures v0 == 0 ==> bits * Pow2(192 - nb) == 0
  {
    hide Pow10, Pow2;
    var k, s := nb - twopwr, 192 - nb;
    if nb > 0 {
      Pow2Add(nb, s);
      Pow2Add(nb - 1, s);
      assert nb - 1 + s == 191 && nb + s == 192;
      MulMonotone(Pow2(s), Pow2(nb - 1), bits);
      MulStrict(Pow2(s), bits, Pow2(nb));
      PositiveFactors(v0, Pow2(k), bits, Pow10(MANT_DIGITS), v);
    } else {
      ZeroProduct(v0, Pow2(k));
    }
  }

  lemma ZeroProduct(v0: int, q: int)
    requires v0 * q == 0 && q > 0
    ensures v0 == 0
  {
  }

  lemma PositiveFactors(v0: nat, q: nat, bits: nat, t: nat, v: int)
    requires v0 * q == bits * t + v && 0 <= v && bits > 0 && t > 0
    ensures v0 > 0
  {
    MulStrict(t, 0, bits);
    PositiveFactor(v0, q);
  }

  lemma PositiveFactor(v0: nat, q: nat)
    requires v0 * q > 0
    ensures v0 > 0
  {
  }

  lemma TruncateArithmetic(v0: int, q: nat, bits: int, t: nat, v: int, s: nat)
    requires v0 * q == bits * t + v && 0 <= v < t && s > 0
    requires s == 1 || v == 0
    ensures IsFloor(bits * s, v0, q * s, t)
  {
    assert v0 * (q * s) == (v0 * q) * s == (bits * t + v) * s == bits * s * t + v * s;
    assert v * s == v;
  }

  /** Initially nothing has been collected. */
  lemma CollectNothing(v: int)
    ensures Collected(v, v, 0, 0, 0)
  {
    assert Pow2(0) == 1;
  }

  lemma AlignedZero(mant: seq<int>)
    requires |mant| == MANT_LIMBS && forall k :: 0 <= k < MANT_LIMBS ==> mant[k] == 0
    ensures Aligned(mant, 0, 0)
  {
    ZeroValue(mant);
    DivModUnique(0, Pow2(32), 0, 0);
  }

  lemma {:induction false} ZeroValue(s: seq<int>)
    requires forall k :: 0 <= k < |s| ==> s[k] == 0
    ensures BigVal(s) == 0
  {
    if |s| > 0 {
      ZeroValue(s[..|s| - 1]);
    }
  }

  lemma ScaledPositive(d: seq<int>)
    requires 0 < |d| <= MANT_DIGITS && AreDigits(d) && d[|d| - 1] != 0
    ensures Scaled(d) > 0
  {
    DecValBounds(d[..|d| - 1]);
    MulStrict(Pow10(MANT_DIGITS - |d|), 0, DecVal(d));
  }

  lemma NextBit(nb: nat)
    ensures Pow2(31 - nb % 32) == 1 <==> nb % 32 == 31
    ensures nb % 32 < 31 ==> Pow2(31 - nb % 32) / 2 == Pow2(31 - (nb + 1) % 32)
    ensures nb % 32 == 31 ==> 0x8000_0000 == Pow2(31 - (nb + 1) % 32) && (nb + 1) / 32 == nb / 32 + 1
    ensures nb % 32 < 31 ==> (nb + 1) / 32 == nb / 32
  {
    if nb % 32 == 31 {
      assert (nb + 1) % 32 == 0;
      WeightIsPow2(1);
    }
  }

  /** `if (carry) *m |= bit`, and what it does to the collected value. */
  method PlaceBit(mant: array<Limb>, m: nat, bit: int, carry: int, ghost bits: nat, ghost nb: nat)
    requires mant.Length == MANT_LIMBS && Aligned(mant[..], bits, nb) && nb < 192
    requires m == nb / 32 && bit == Pow2(31 - nb % 32) && (carry == 0 || carry == 1)
    modifies mant
    ensures nb > 0 || carry == 1 ==> Aligned(mant[..], 2 * bits + carry, nb + 1)
    ensures nb == 0 && carry == 0 ==> Aligned(mant[..], bits, nb)
  {
    hide Pow2, BigVal, Bits.Or;
    ghost var s := mant[..];
    AlignStep(s, s[m := s[m] + carry * bit], bits, nb, carry);
    if carry != 0 {
      BitFits(mant[m], 31 - nb % 32, 1);
      mant[m] := Bits.Or(mant[m], bit);
      assert mant[..] == s[m := s[m] + carry * bit];
    } else {
      assert mant[..] == s[m := s[m] + carry * bit];
    }
  }

  method Clear(mant: array<Limb>)
    requires mant.Length == MANT_LIMBS
    modifies mant
    ensures Aligned(mant[..], 0, 0)
  {
    ClearLimbs(mant);
    AlignedZero(mant[..]);
  }

  /**
    The conversion loop.  It terminates because before the first one-bit every round
    doubles a non-zero fraction below one, and after it every round fills one more of the
    192 bit positions.
   */
  method DigitsToMantissa(digits: array<int>, p0: nat, mant: array<Limb>) returns (twopwr: int)
    requires digits.Length == MANT_DIGITS && p0 <= MANT_DIGITS && AreDigits(digits[..p0])
    requires mant.Length == MANT_LIMBS
    modifies digits, mant
    ensures -173 <= twopwr <= 0
    ensures Truncates(Scaled(old(digits[..p0])), BigVal(mant[..]), twopwr)
  {
    hide Aligned, Collected, Truncates, Scaled, AreDigits, Doubled, DecVal, Pow10, Pow2, BigVal;
    ghost var v0 := Scaled(digits[..p0]);
    ScaledBounds(digits[..p0]);
    Clear(mant);
    CollectNothing(v0);
    var p, bit, started := p0, 0x8000_0000, false;
    ghost var bits: nat, nb: nat := 0, 0;
    var m := 0;
    twopwr := 0;
    NextBit(31);
    while m < MANT_LIMBS
      invariant m == nb / 32 && nb <= 192 && (nb < 192 ==> bit == Pow2(31 - nb % 32))
      invariant p <= MANT_DIGITS && AreDigits(digits[..p])
      invariant started <==> nb > 0
      invariant !started ==> bits == 0
      invariant twopwr <= 0 && (v0 == 0 ==> twopwr == 0)
      invariant Collected(v0, Scaled(digits[..p]), bits, nb, twopwr)
      invariant Aligned(mant[..], bits, nb)
      decreases 192 - nb, Pow10(MANT_DIGITS) - Scaled(digits[..p])
    {
      ghost var v := Scaled(digits[..p]);
      p := Trim(digits, p);
      if p == 0 {
        break;
      }
      ghost var d := digits[..p];
      var carry := Double(digits, p);
      DoubleScaled(d, digits[..p], carry);
      ScaledBounds(digits[..p]);
      ScaledPositive(d);
      CollectStep(v0, v, Scaled(digits[..p]), carry, bits, nb, twopwr);
      CollectedPositive(v0, v, bits, nb, twopwr);
      PlaceBit(mant, m, bit, carry, bits, nb);
      started := started || carry != 0;
      if started {
        bits, nb := 2 * bits + carry, nb + 1;
        NextBit(nb - 1);
        if bit == 1 {
          bit := 0x8000_0000;
          m := m + 1;
        } else {
          bit := bit / 2;
        }
      } else {
        twopwr := twopwr - 1;
      }
    }
    Finished(v0, digits[..p], mant[..], bits, nb, twopwr);
  }

  lemma ScaledEmpty(d: seq<int>)
    requires d == []
    ensures Scaled(d) == 0
  {
  }

  lemma Finished(v0: nat, d: seq<int>, mant: seq<int>, bits: nat, nb: nat, twopwr: int)
    requires |d| <= MANT_DIGITS && AreDigits(d) && (|d| == 0 || nb == 192)
    requires Collected(v0, Scaled(d), bits, nb, twopwr) && (nb == 0 ==> bits == 0)
    requires Aligned(mant, bits, nb)
    ensures Truncates(v0, BigVal(mant), twopwr)
    ensures v0 > 0 ==> twopwr >= -173
  {
    hide BigVal, Scaled, Collected, Truncates, Pow10, Pow2;
    ScaledBounds(d);
    if |d| == 0 { ScaledEmpty(d); }
    CollectedTruncates(v0, Scaled(d), bits, nb, twopwr);
    if v0 > 0 {
      FewDoublings(v0, Scaled(d), bits, nb, twopwr);
    }
  }

  lemma CollectedPositive(v0: nat, v: int, bits: nat, nb: nat, twopwr: int)
    requires Collected(v0, v, bits, nb, twopwr) && v > 0
    ensures v0 > 0
  {
    hide Pow2, Pow10;
    PositiveSum(v0, Pow2(nb - twopwr), bits, Pow10(MANT_DIGITS), v);
  }

  lemma PositiveSum(v0: nat, q: nat, bits: nat, t: nat, v: int)
    requires v0 * q == bits * t + v && v > 0
    ensures v0 > 0
  {
    MulMonotone(t, 0, bits);
    PositiveFactor(v0, q);
  }

  /** A non-zero fraction of 52 digits reaches one within 173 doublings. */
  lemma FewDoublings(v0: nat, v: int, bits: nat, nb: nat, twopwr: int)
    requires Collected(v0, v, bits, nb, twopwr) && v0 > 0 && 0 <= v < Pow10(MANT_DIGITS)
    ensures twopwr >= -173
  {
    hide Pow2, Pow10;
    TenBelowTwo(MANT_DIGITS);
    Pow2Add(nb, -twopwr);
    assert nb + -twopwr == nb - twopwr;
    FewArithmetic(v0, Pow2(nb - twopwr), bits, Pow10(MANT_DIGITS), v, Pow2(nb), Pow2(-twopwr));
    if -twopwr >= 174 {
      Pow2Monotone(174, -twopwr);
    }
  }

  lemma FewArithmetic(v0: nat, q: nat, bits: nat, t: nat, v: int, pn: nat, pt: nat)
    requires q == pn * pt && v0 * q == bits * t + v && 0 <= v < t && v0 > 0 && bits < pn
    ensures pt < t
  {
    MulMonotone(q, 1, v0);
    MulMonotone(t, bits + 1, pn);
    assert pn * pt < pn * t;
    MulCancel(pn, pt, t);
  }

  /** 10^3 < 2^10, so 10^52 < 2^174. */
  lemma TenBelowTwo(n: nat)
    requires n == 52
    ensures Pow10(n) < Pow2(174)
  {
    var k := 17;
    assert Pow10(n) == 10 * Pow10(n - 1);
    assert Pow2(4) == 16;
    hide Pow10, Pow2;
    TenCubed(k);
    assert 3 * k == n - 1 && 10 * k == 170;
    Pow2Add(4, 10 * k);
  }

  lemma {:induction false} TenCubed(k: nat)
    ensures Pow10(3 * k) <= Pow2(10 * k)
  {
    if k > 0 {
      TenCubed(k - 1);
      var a, b := 3 * (k - 1), 10 * (k - 1);
      Pow10Add(3, a);
      Pow2Add(10, b);
      assert Pow10(3) == 1000 && Pow2(10) == 1024;
    }
  }
}
