/** What the text of a decimal constant denotes, from its spelling up. */
module DecimalText {
  import opened DecimalDigits
  import opened RealPowers
  import opened Powers
  import opened FloatDecimal
  import Bcd = PackedBcd
  import opened FloatScale

  // ----- spelling numbers -----

  const DIGITS := "0123456789"

  function SpellNat(n: nat): (s: string)
    ensures |s| > 0
  {
    if n < 10 then [DIGITS[n]] else SpellNat(n / 10) + [DIGITS[n % 10]]
  }

  function Spell(k: int): (s: string)
    ensures |s| > 0
  {
    if k < 0 then "-" + SpellNat(-k) else SpellNat(k)
  }

  /** Digits and underscores. */
  predicate Word(t: string) {
    forall k :: 0 <= k < |t| ==> t[k] in DIGITS || t[k] == '_'
  }

  lemma DigitSpelled(d: nat)
    requires d < 10
    ensures IsDigit(DIGITS[d]) && DigitOf(DIGITS[d]) == d
  {
  }

  lemma WordDigit(c: char)
    ensures c in DIGITS <==> IsDigit(c)
  {
    if IsDigit(c) {
      assert c == DIGITS[c as int - '0' as int];
    }
  }

  ghost predicate Spelled(s: string, n: nat) {
    var d := Digits(s);
    && Word(s) && |d| == |s| && DecVal(d) == n
    && (n > 0 ==> d[0] != 0 && |s| > 0 && Pow10(|s| - 1) <= n) && n < Pow10(|s|)
    && (forall k :: 0 <= k < |s| ==> s[k] in DIGITS)
  }

  lemma OneSpelled(n: nat)
    requires n < 10
    ensures Spelled([DIGITS[n]], n)
  {
    var s := [DIGITS[n]];
    DigitSpelled(n);
    assert s[..0] == "" && Digits("") == [];
    assert Digits(s) == [] + [n];
    assert Pow10(0) == 1 && Pow10(1) == 10 * Pow10(0);
  }

  lemma NextSpelled(s: string, h: nat, d: nat)
    requires Spelled(s, h) && h > 0 && d < 10
    ensures Spelled(s + [DIGITS[d]], 10 * h + d)
  {
    hide Pow10;
    var t := s + [DIGITS[d]];
    DigitSpelled(d);
    assert t[..|t| - 1] == s;
    DecValAppendDigit(Digits(s), d);
    TenFold(|s| - 1);
    TenFold(|s|);
  }

  lemma TenFold(n: nat)
    ensures Pow10(n + 1) == 10 * Pow10(n)
  {
  }

  lemma {:induction false} SpelledDigits(n: nat)
    ensures Spelled(SpellNat(n), n)
  {
    hide Spelled;
    if n < 10 {
      OneSpelled(n);
    } else {
      SpelledDigits(n / 10);
      NextSpelled(SpellNat(n / 10), n / 10, n % 10);
    }
  }

  // ----- joining texts -----

  lemma {:induction false} DigitsJoin(a: string, b: string)
    ensures Digits(a + b) == Digits(a) + Digits(b)
  {
    if |b| == 0 {
      assert a + b == a;
    } else {
      var n := |b| - 1;
      assert (a + b)[..|a| + n] == a + b[..n];
      DigitsJoin(a, b[..n]);
    }
  }

  lemma {:induction false} PeriodsJoin(a: string, b: string)
    ensures Periods(a + b) == Periods(a) + Periods(b)
  {
    if |b| == 0 {
      assert a + b == a;
    } else {
      var n := |b| - 1;
      assert (a + b)[..|a| + n] == a + b[..n];
      PeriodsJoin(a, b[..n]);
    }
  }

  lemma {:induction false} IntegersJoin(a: string, b: string)
    ensures IntegerDigits(a + b) == IntegerDigits(a) + if Periods(a) == 0 then IntegerDigits(b) else 0
  {
    if |b| == 0 {
      assert a + b == a;
    } else {
      var n := |b| - 1;
      assert (a + b)[..|a| + n] == a + b[..n];
      PeriodsJoin(a, b[..n]);
      IntegersJoin(a, b[..n]);
    }
  }

  lemma {:induction false} WordParts(t: string)
    requires Word(t)
    ensures Periods(t) == 0 && IntegerDigits(t) == |Digits(t)| && SignificandOk(t)
  {
    if |t| > 0 {
      WordDigit(t[|t| - 1]);
      assert Word(t[..|t| - 1]);
      WordParts(t[..|t| - 1]);
    }
  }

  lemma {:induction false} WholeSignificand(s: string)
    ensures SignificandEnd(s) == |s| <==> forall k :: 0 <= k < |s| ==> s[k] != 'E' && s[k] != 'e'
  {
    if |s| > 0 && s[0] != 'E' && s[0] != 'e' {
      WholeSignificand(s[1..]);
      assert forall k :: 0 < k < |s| ==> s[k] == s[1..][k - 1];
    }
  }

  lemma NoMark(t: string)
    requires SignificandOk(t)
    ensures SignificandEnd(t) == |t|
  {
    WholeSignificand(t);
  }

  lemma {:induction false} MarkAt(s: string, c: char, rest: string)
    requires SignificandEnd(s) == |s| && c in "eE"
    ensures SignificandEnd(s + [c] + rest) == |s|
  {
    var t := s + [c] + rest;
    if |s| > 0 {
      MarkAt(s[1..], c, rest);
      assert t[1..] == s[1..] + [c] + rest;
    }
  }

  // ----- the value of a significand -----

  lemma {:induction false} TensAreReal(n: nat)
    ensures Pow10(n) as real == ZPow(10.0, n)
  {
    if n > 0 {
      TensAreReal(n - 1);
      ZPowStep(10.0, n - 1);
    }
  }

  /** The digits that are kept, with the point after the last of them. */
  lemma KeptValue(kept: seq<int>, tenpwr: int)
    requires |kept| <= MANT_DIGITS
    ensures DecimalValue(kept, tenpwr) == DecVal(kept) as real * ZPow(10.0, tenpwr - |kept|)
  {
    hide DecVal, Pow10, ZPow;
    var n := MANT_DIGITS - |kept|;
    var w, all := Pow10(n), Pow10(MANT_DIGITS);
    TensAreReal(n);
    TensAreReal(MANT_DIGITS);
    ZPowAdd(10.0, |kept| - MANT_DIGITS, MANT_DIGITS);
    ZPowAdd(10.0, |kept| - MANT_DIGITS, n);
    assert ZPow(10.0, 0) == 1.0 by { ZPowNone(); }
    ZPowAdd(10.0, MANT_DIGITS, 0 - |kept|);
    ZPowAdd(10.0, 0 - |kept|, tenpwr);
    ScaledQuotient(DecVal(kept), w, all, ZPow(10.0, n), ZPow(10.0, MANT_DIGITS), ZPow(10.0, 0 - |kept|),
                   ZPow(10.0, tenpwr), ZPow(10.0, tenpwr - |kept|));
  }

  lemma ZPowNone()
    ensures ZPow(10.0, 0) == 1.0
  {
  }

  lemma ScaledQuotient(v: int, w: nat, all: nat, n: real, m: real, k: real, t: real, r: real)
    requires w as real == n && all as real == m && all > 0 && m * k == n && r == k * t
    ensures (v * w) as real / (all as real) * t == v as real * r
  {
    assert (v * w) as real == v as real * n;
    assert v as real * (m * k) == (v as real * k) * m;
    assert ((v as real * k) * m) / m == v as real * k;
    assert (v as real * k) * t == v as real * (k * t);
  }

  /** The first digits are the number without the last ones. */
  lemma {:induction false} FirstDigits(d: seq<int>, m: nat)
    requires AreDigits(d) && m <= |d|
    ensures DecVal(d[..|d| - m]) == DecVal(d) / Pow10(m)
  {
    if m == 0 {
      assert d[..|d|] == d;
    } else {
      var n := |d| - m;
      FirstDigits(d, m - 1);
      assert d[..n + 1][..n] == d[..n];
      DivTwice(DecVal(d), Pow10(m - 1), 10);
      DivModUnique(DecVal(d[..n + 1]), 10, DecVal(d[..n]), d[n]);
      assert Pow10(m) == Pow10(m - 1) * 10;
    }
  }

  /** How many digits of a number are beyond the first 52. */
  function Excess(n: nat): nat {
    if |SpellNat(n)| > 52 then |SpellNat(n)| - 52 else 0
  }

  /** What a significand is made of: its digits, and how many stand before the point. */
  ghost predicate Reads(t: string, d: seq<int>, i: nat) {
    SignificandOk(t) && Digits(t) == d && IntegerDigits(t) == i
  }

  lemma ReadsValue(t: string, d: seq<int>, i: nat)
    requires Reads(t, d, i)
    ensures WellFormed(t) && SignificandEnd(t) == |t|
    ensures ValueOf(t) == DecimalValue(Kept(d), i - LeadingZeros(d))
  {
    hide DecimalValue, Kept, Digits, IntegerDigits, LeadingZeros, SignificandOk;
    NoMark(t);
    assert t[..|t|] == t;
  }

  lemma SpelledReads(n: nat)
    ensures Reads(SpellNat(n), Digits(SpellNat(n)), |SpellNat(n)|)
  {
    hide SpellNat, Digits, Periods, IntegerDigits;
    SpelledDigits(n);
    WordParts(SpellNat(n));
  }

  /** A spelled number denotes itself, cut after 52 digits. */
  lemma SpelledValue(n: nat)
    ensures WellFormed(SpellNat(n))
    ensures ValueOf(SpellNat(n)) == (n / Pow10(Excess(n)) * Pow10(Excess(n))) as real
    ensures n < Pow10(52) ==> ValueOf(SpellNat(n)) == n as real
  {
    hide *;
    SpelledReads(n);
    SpelledParts(n);
    var s, d, m := SpellNat(n), Digits(SpellNat(n)), Excess(n);
    ReadsValue(s, d, |s|);
    if n == 0 {
      ExcessIs(0);
      ZeroDigits(d);
      KeptValue([], |s| - LeadingZeros(d));
      NothingScaled(ZPow(10.0, |s| - LeadingZeros(d) - 0));
    } else {
      ExcessIs(n);
      KeptFront(d, m);
      KeptValue(d[..|d| - m], |d|);
      FirstDigits(d, m);
      TensAreReal(m);
      ProductIsReal(n / Pow10(m), Pow10(m));
      if n < Pow10(52) {
        FewDigits(n, |s|);
      }
    }
    if m == 0 {
      WholeQuotient(n);
    }
  }

  lemma SpelledParts(n: nat)
    ensures var s, d := SpellNat(n), Digits(SpellNat(n));
            && |d| == |s| && DecVal(d) == n
            && (n > 0 ==> d[0] != 0 && Pow10(|s| - 1) <= n)
  {
    hide Digits, Pow10, DecVal, SpellNat;
    SpelledDigits(n);
  }

  lemma ExcessIs(n: nat)
    ensures Excess(n) == if |SpellNat(n)| > 52 then |SpellNat(n)| - 52 else 0
    ensures n == 0 ==> Excess(n) == 0 && |SpellNat(n)| == 1
  {
  }

  lemma ProductIsReal(a: int, b: int)
    ensures (a * b) as real == a as real * (b as real)
  {
  }

  lemma NothingScaled(w: real)
    ensures DecVal([]) as real * w == 0.0
  {
  }

  lemma ZeroDigits(d: seq<int>)
    requires |d| == 1 && DecVal(d) == 0
    ensures Kept(d) == []
  {
    assert d[..0] == [];
  }

  lemma KeptFront(d: seq<int>, m: nat)
    requires |d| > 0 && d[0] != 0 && m == if |d| > 52 then |d| - 52 else 0
    ensures LeadingZeros(d) == 0 && Kept(d) == d[..|d| - m]
  {
    hide LeadingZeros;
    assert LeadingZeros(d) == 0;
  }

  lemma WholeQuotient(n: nat)
    ensures n / Pow10(0) * Pow10(0) == n
  {
  }

  lemma FewDigits(n: nat, k: nat)
    requires k > 0 && Pow10(k - 1) <= n < Pow10(52)
    ensures k <= 52
  {
    if k > 52 {
      TensGrow(52, k - 1);
    }
  }

  lemma {:induction false} TensGrow(a: nat, b: nat)
    requires a <= b
    ensures Pow10(a) <= Pow10(b)
    decreases b
  {
    if a < b {
      TensGrow(a, b - 1);
    }
  }

  lemma WordJoin(a: string, b: string)
    requires Word(a) && Word(b)
    ensures Word(a + b)
  {
  }

  lemma PointReads(a: string, b: string)
    requires Word(a) && Word(b)
    ensures var d := Digits(a) + Digits(b);
            Reads(a + b, d, |d|) && Reads(a + "." + b, d, |d| - |Digits(b)|)
  {
    hide Digits, Periods, IntegerDigits, SignificandOk, Word;
    WordJoin(a, b);
    WordParts(a + b);
    DigitsJoin(a, b);
    WordParts(a);
    WordParts(b);
    OnePeriod();
    var ap := a + ".";
    DigitsJoin(a, ".");
    PeriodsJoin(a, ".");
    IntegersJoin(a, ".");
    assert Digits(a) + [] == Digits(a);
    DigitsJoin(ap, b);
    PeriodsJoin(ap, b);
    IntegersJoin(ap, b);
    WithPoint(a, b);
  }

  /** A point divides by ten for every digit after it. */
  lemma PointScales(a: string, b: string)
    requires Word(a) && Word(b)
    ensures WellFormed(a + "." + b) && WellFormed(a + b)
    ensures ValueOf(a + "." + b) == ValueOf(a + b) * ZPow(10.0, 0 - |Digits(b)|)
  {
    hide *;
    PointReads(a, b);
    var d, n := Digits(a) + Digits(b), |Digits(b)|;
    ReadsValue(a + b, d, |d|);
    ReadsValue(a + "." + b, d, |d| - n);
    KeptIsShort(d);
    var t := |d| - LeadingZeros(d);
    ScaledText(Kept(d), t, 0 - n);
    assert |d| - n - LeadingZeros(d) == t + (0 - n);
  }

  lemma OnePeriod()
    ensures Periods(".") == 1 && Digits(".") == [] && IntegerDigits(".") == 0
  {
    assert "."[..0] == "";
  }

  lemma WithPoint(a: string, b: string)
    requires Word(a) && Word(b) && Periods(a + "." + b) == 1
    ensures SignificandOk(a + "." + b)
  {
    var t := a + "." + b;
    forall k | 0 <= k < |t|
      ensures IsDigit(t[k]) || t[k] == '_' || t[k] == '.'
    {
      WordDigit(t[k]);
    }
  }

  lemma ScaledText(kept: seq<int>, t: int, k: int)
    requires |kept| <= MANT_DIGITS
    ensures DecimalValue(kept, t + k) == DecimalValue(kept, t) * ZPow(10.0, k)
  {
    hide DecVal, ZPow;
    KeptValue(kept, t);
    KeptValue(kept, t + k);
    ZPowAdd(10.0, t - |kept|, k);
    var v := DecVal(kept) as real;
    assert v * (ZPow(10.0, t - |kept|) * ZPow(10.0, k)) == v * ZPow(10.0, t - |kept|) * ZPow(10.0, k);
  }

  lemma UnderscoreReads(a: string, b: string)
    requires SignificandOk(a + b)
    ensures Reads(a + "_" + b, Digits(a + b), IntegerDigits(a + b))
  {
    hide Digits, Periods, IntegerDigits, SignificandOk;
    var ap := a + "_";
    OneUnderscore();
    DigitsJoin(a, b);
    PeriodsJoin(a, b);
    IntegersJoin(a, b);
    DigitsJoin(a, "_");
    PeriodsJoin(a, "_");
    IntegersJoin(a, "_");
    assert Digits(a) + [] == Digits(a);
    DigitsJoin(ap, b);
    PeriodsJoin(ap, b);
    IntegersJoin(ap, b);
    UnderscoreOk(a, b);
  }

  lemma UnderscoreOk(a: string, b: string)
    requires SignificandOk(a + b) && Periods(a + "_" + b) == Periods(a + b)
    ensures SignificandOk(a + "_" + b)
  {
    hide Periods;
    var t, u := a + b, a + "_" + b;
    assert forall k :: 0 <= k < |a| ==> u[k] == t[k];
    assert forall k :: |a| < k < |u| ==> u[k] == t[k - 1];
  }

  lemma ZeroReads(t: string)
    requires SignificandOk(t)
    ensures Reads("0" + t, [0] + Digits(t), IntegerDigits(t) + 1)
  {
    hide Digits, Periods, IntegerDigits;
    OneUnderscore();
    DigitsJoin("0", t);
    PeriodsJoin("0", t);
    IntegersJoin("0", t);
  }

  /** Underscores count for nothing, and neither do zeros in front. */
  lemma UnderscoresAndZeros(a: string, b: string)
    requires SignificandOk(a + b)
    ensures WellFormed(a + b) && WellFormed(a + "_" + b) && WellFormed("0" + (a + b))
    ensures ValueOf(a + "_" + b) == ValueOf(a + b) == ValueOf("0" + (a + b))
  {
    hide *;
    var d, i := Digits(a + b), IntegerDigits(a + b);
    UnderscoreReads(a, b);
    ZeroReads(a + b);
    assert Reads(a + b, d, i) by { ReadsItself(a + b); }
    ReadsValue(a + b, d, i);
    ReadsValue(a + "_" + b, d, i);
    ReadsValue("0" + (a + b), [0] + d, i + 1);
    ZeroInFront(d);
    KeptIsShort(d);
    assert i + 1 - (1 + LeadingZeros(d)) == i - LeadingZeros(d);
  }

  lemma ReadsItself(t: string)
    requires SignificandOk(t)
    ensures Reads(t, Digits(t), IntegerDigits(t))
  {
  }

  lemma OneUnderscore()
    ensures Periods("_") == 0 && Digits("_") == [] && IntegerDigits("_") == 0
    ensures Periods("0") == 0 && Digits("0") == [0] && IntegerDigits("0") == 1
  {
    assert "_"[..0] == "" && "0"[..0] == "";
    assert Digits("0") == [] + [0];
  }

  lemma {:induction false} ZerosInFront(d: seq<int>)
    ensures LeadingZeros([0] + d) == 1 + LeadingZeros(d)
  {
    if |d| == 0 {
      assert [0][..0] == [];
      assert [0] + d == [0];
    } else {
      ZerosInFront(d[..|d| - 1]);
      assert ([0] + d)[..|d|] == [0] + d[..|d| - 1];
    }
  }

  lemma ZeroInFront(d: seq<int>)
    ensures LeadingZeros([0] + d) == 1 + LeadingZeros(d) && Kept([0] + d) == Kept(d)
  {
    hide LeadingZeros;
    ZerosInFront(d);
    var z := LeadingZeros(d);
    var n := Min(|d| - z, MANT_DIGITS);
    assert ([0] + d)[z + 1..z + 1 + n] == d[z..z + n];
  }

  // ----- the exponent -----

  /** The exponent that counts: no further from zero than 5000. */
  function Capped(k: int): int {
    if k > 5000 then 5000 else if k < -5000 then -5000 else k
  }

  /** An exponent part is a power of ten, of either sign, with or without a plus. */
  lemma ExponentScales(s: string, mark: char, k: int)
    requires WellFormed(s) && SignificandEnd(s) == |s| && mark in "eE"
    ensures WellFormed(s + [mark] + Spell(k))
    ensures ValueOf(s + [mark] + Spell(k)) == ValueOf(s) * ZPow(10.0, Capped(k))
    ensures k >= 0 ==> WellFormed(s + [mark] + ("+" + Spell(k)))
                       && ValueOf(s + [mark] + ("+" + Spell(k))) == ValueOf(s) * ZPow(10.0, Capped(k))
  {
    hide *;
    SpelledExponent(k);
    WithExponent(s, mark, Spell(k), Capped(k));
    if k >= 0 {
      WithExponent(s, mark, "+" + Spell(k), Capped(k));
    }
  }

  lemma WithExponent(s: string, mark: char, rest: string, e: int)
    requires WellFormed(s) && SignificandEnd(s) == |s| && mark in "eE" && ExponentOf(rest, 5000).Some?
    requires ExponentOf(rest, 5000).value == e
    ensures WellFormed(s + [mark] + rest) && ValueOf(s + [mark] + rest) == ValueOf(s) * ZPow(10.0, e)
  {
    hide DecimalValue, ZPow, Kept, Digits, PointPosition, SignificandOk, ExponentOf, SignificandEnd;
    var t := s + [mark] + rest;
    MarkAt(s, mark, rest);
    assert t[..|s|] == s && t[|s| + 1..] == rest && s[..|s|] == s;
    var d, p := Digits(s), PointPosition(s);
    KeptIsShort(d);
    assert ValueOf(s) == DecimalValue(Kept(d), p);
    assert ValueOf(t) == DecimalValue(Kept(d), p + e);
    hide WellFormed, ValueOf, TenPower;
    ScaledText(Kept(d), p, e);
  }

  lemma KeptIsShort(d: seq<int>)
    ensures |Kept(d)| <= MANT_DIGITS
  {
  }

  lemma SpelledExponent(k: int)
    ensures var r := ExponentOf(Spell(k), 5000); r.Some? && r.value == Capped(k)
    ensures k >= 0 ==> var r := ExponentOf("+" + Spell(k), 5000); r.Some? && r.value == Capped(k)
  {
    hide DecVal, Digits, SpellNat;
    var n := if k < 0 then -k else k;
    var word := SpellNat(n);
    SpelledDigits(n);
    forall i | 0 <= i < |word|
      ensures IsDigit(word[i])
    {
      WordDigit(word[i]);
    }
    if k < 0 {
      assert ("-" + word)[1..] == word;
    } else {
      assert word[0] in DIGITS && word[0..] == word && ("+" + word)[1..] == word;
    }
  }

  // ----- the grammar -----

  ghost predicate IsSignificand(t: string) {
    Word(t) || exists k :: 0 <= k < |t| && PointAt(t, k)
  }

  /** A point with digits on either side. */
  predicate PointAt(t: string, k: nat)
    requires k < |t|
  {
    t[k] == '.' && Word(t[..k]) && Word(t[k + 1..])
  }

  predicate IsExponent(t: string) {
    Word(t) || (|t| > 0 && t[0] in "+-" && Word(t[1..]))
  }

  lemma {:induction false} PeriodsWord(t: string)
    requires SignificandOk(t)
    ensures Periods(t) == 0 ==> Word(t)
    ensures Periods(t) == 1 ==> exists k :: 0 <= k < |t| && PointAt(t, k)
  {
    if |t| > 0 {
      var n := |t| - 1;
      var front := t[..n];
      assert SignificandOk(front);
      PeriodsWord(front);
      WordDigit(t[n]);
      if t[n] == '.' {
        assert Periods(t) == Periods(front) + 1 && t[n + 1..] == "";
        assert PointAt(t, n);
      } else if Periods(t) == 1 {
        var k :| 0 <= k < n && PointAt(front, k);
        PointStays(t, k);
      }
    }
  }

  lemma PointStays(t: string, k: nat)
    requires k < |t| - 1 && PointAt(t[..|t| - 1], k) && (t[|t| - 1] in DIGITS || t[|t| - 1] == '_')
    ensures PointAt(t, k)
  {
    var n := |t| - 1;
    assert t[..n][..k] == t[..k] && t[k + 1..] == t[..n][k + 1..] + [t[n]];
  }

  lemma SignificandIff(t: string)
    ensures SignificandOk(t) <==> IsSignificand(t)
  {
    if SignificandOk(t) {
      PeriodsWord(t);
    }
    if Word(t) {
      WordParts(t);
    }
    if k :| 0 <= k < |t| && PointAt(t, k) {
      var a, b := t[..k], t[k + 1..];
      assert t == a + "." + b;
      WordParts(a);
      WordParts(b);
      OnePeriod();
      PeriodsJoin(a, ".");
      PeriodsJoin(a + ".", b);
      WithPoint(a, b);
    }
  }

  lemma ExponentIff(t: string)
    ensures ExponentOf(t, 5000).Some? <==> IsExponent(t)
  {
    var body := t[SkipSign(t)..];
    forall k | 0 <= k < |body|
      ensures body[k] in DIGITS <==> IsDigit(body[k])
    {
      WordDigit(body[k]);
    }
    if |t| > 0 && t[0] in "+-" {
      assert !Word(t);
    } else {
      assert body == t;
    }
  }

  /** The texts that are accepted: a significand with at most one point, and perhaps a mark
      followed by digits with at most one sign. */
  lemma WellFormedIff(s: string)
    ensures WellFormed(s) <==>
              || IsSignificand(s)
              || exists k :: 0 <= k < |s| && s[k] in "eE" && IsSignificand(s[..k]) && IsExponent(s[k + 1..])
  {
    hide SignificandOk, ExponentOf, IsSignificand, IsExponent;
    var end := SignificandEnd(s);
    SignificandIff(s[..end]);
    if end < |s| {
      ExponentIff(s[end + 1..]);
      NotASignificand(s, end);
    } else {
      assert s[..end] == s;
    }
    if k :| 0 <= k < |s| && s[k] in "eE" && IsSignificand(s[..k]) && IsExponent(s[k + 1..]) {
      SignificandIff(s[..k]);
      NoMark(s[..k]);
      MarkAt(s[..k], s[k], s[k + 1..]);
      assert s == s[..k] + [s[k]] + s[k + 1..];
      ExponentIff(s[k + 1..]);
    }
  }

  lemma NotASignificand(s: string, k: nat)
    requires k < |s| && s[k] in "eE"
    ensures !IsSignificand(s)
  {
    SignificandIff(s);
    assert !(IsDigit(s[k]) || s[k] == '_' || s[k] == '.');
  }

  // ----- packed decimal constants -----

  lemma {:induction false} SpelledNumber(n: nat)
    ensures Bcd.Spelled(SpellNat(n)) && Bcd.Number(SpellNat(n)) == n
  {
    var s := SpellNat(n);
    DigitSpelled(n % 10);
    if n < 10 {
      assert s[..0] == "";
    } else {
      SpelledNumber(n / 10);
      assert s[..|s| - 1] == SpellNat(n / 10);
    }
  }
}
