/** read_exponent and ieee_flconvert of float.c: decimal strings to 192-bit mantissas. */
module FloatDecimal {
  import opened DecimalDigits
  import opened Wrappers

  const MANT_DIGITS := 52

  // ----- decimal digit strings -----

  function DecVal(s: seq<int>): int {
    if |s| == 0 then 0 else DecVal(s[..|s| - 1]) * 10 + s[|s| - 1]
  }

  lemma {:induction false} DecValHead(s: seq<int>)
    requires |s| > 0
    ensures DecVal(s) == s[0] * Pow10(|s| - 1) + DecVal(s[1..])
  {
    var n := |s| - 1;
    if n == 0 {
      assert s[..0] == [] && s[1..] == [];
    } else {
      DecValHead(s[..n]);
      assert s[..n][1..] == s[1..][..n - 1];
      assert s[0] * Pow10(n) == 10 * (s[0] * Pow10(n - 1));
    }
  }

  lemma {:induction false} DecValBounds(s: seq<int>)
    requires AreDigits(s)
    ensures 0 <= DecVal(s) < Pow10(|s|)
  {
    if |s| > 0 {
      DecValBounds(s[..|s| - 1]);
    }
  }

  // ----- read_exponent -----

  /** All decimal digits of `t`, in order. */
  function Digits(t: string): (d: seq<int>)
    ensures AreDigits(d)
  {
    if |t| == 0 then []
    else
      var d := Digits(t[..|t| - 1]);
      var c := t[|t| - 1];
      if IsDigit(c) then d + [DigitOf(c)] else d
  }

  function SkipSign(s: string): (i: nat)
    ensures i <= |s|
  {
    if |s| > 0 && (s[0] == '+' || s[0] == '-') then 1 else 0
  }

  predicate DigitsAndUnderscores(t: string) {
    forall k :: 0 <= k < |t| ==> IsDigit(t[k]) || t[k] == '_'
  }

  /** The exponent a string denotes, its magnitude capped at `max`; None if malformed. */
  function ExponentOf(s: string, max: nat): (r: Option<int>) {
    var body := s[SkipSign(s)..];
    if !DigitsAndUnderscores(body) then None
    else
      var v := Min(DecVal(Digits(body)), max);
      Some(if |s| > 0 && s[0] == '-' then -v else v)
  }

  function Min(a: int, b: int): int {
    if a <= b then a else b
  }

  lemma DigitsStep(t: string, i: nat)
    requires i < |t|
    ensures Digits(t[..i + 1]) == if IsDigit(t[i]) then Digits(t[..i]) + [DigitOf(t[i])] else Digits(t[..i])
  {
    assert t[..i + 1][..i] == t[..i];
  }

  lemma DecValAppendDigit(d: seq<int>, x: int)
    ensures DecVal(d + [x]) == DecVal(d) * 10 + x
  {
    assert (d + [x])[..|d|] == d;
  }

  lemma CapStep(v: nat, d: nat, max: nat)
    ensures Min(Min(v, max) * 10 + d, max) == Min(v * 10 + d, max)
  {
  }

  ghost predicate ExponentRead(body: string, i: int, max: nat) {
    DigitsAndUnderscores(body) && i == Min(DecVal(Digits(body)), max)
  }

  lemma ExponentReadStep(body: string, k: nat, i: int, max: nat)
    requires k < |body| && ExponentRead(body[..k], i, max)
    ensures IsDigit(body[k]) ==> ExponentRead(body[..k + 1], Min(i * 10 + DigitOf(body[k]), max), max)
    ensures body[k] == '_' ==> ExponentRead(body[..k + 1], i, max)
  {
    hide DecVal, Digits;
    DigitsStep(body, k);
    var d := Digits(body[..k]);
    DecValBounds(d);
    if IsDigit(body[k]) {
      DecValAppendDigit(d, DigitOf(body[k]));
      CapStep(DecVal(d), DigitOf(body[k]), max);
    }
  }

  /** Capping after every digit gives the same result as capping the whole number. */
  method ReadExponent(s: string, max: nat) returns (r: Option<int>)
    ensures r == ExponentOf(s, max)
  {
    var neg := |s| > 0 && s[0] == '-';
    var body := s[SkipSign(s)..];
    var k, i := 0, 0;
    while k < |body|
      invariant k <= |body| && ExponentRead(body[..k], i, max)
    {
      hide DecVal, Digits, ExponentRead;
      ExponentReadStep(body, k, i, max);
      if '0' <= body[k] <= '9' {
        i := i * 10 + DigitOf(body[k]);
        if i > max {
          i := max;
        }
      } else if body[k] == '_' {
      } else {
        return None;
      }
      k := k + 1;
    }
    assert body[..k] == body;
    return Some(if neg then -i else i);
  }

  // ----- the significand -----

  /** Where the exponent part starts: the first E or e, or the end. */
  function SignificandEnd(s: string): (i: nat)
    ensures i <= |s|
    ensures forall k :: 0 <= k < i ==> s[k] != 'E' && s[k] != 'e'
    ensures i < |s| ==> s[i] == 'E' || s[i] == 'e'
  {
    if |s| == 0 || s[0] == 'E' || s[0] == 'e' then 0 else 1 + SignificandEnd(s[1..])
  }

  function Periods(t: string): nat {
    if |t| == 0 then 0 else Periods(t[..|t| - 1]) + if t[|t| - 1] == '.' then 1 else 0
  }

  /** A significand holds digits, underscores and at most one period. */
  predicate SignificandOk(t: string) {
    && Periods(t) <= 1
    && forall k :: 0 <= k < |t| ==> IsDigit(t[k]) || t[k] == '_' || t[k] == '.'
  }

  /** The number of digits before the period, if there is one. */
  function IntegerDigits(t: string): nat {
    if |t| == 0 then 0
    else
      IntegerDigits(t[..|t| - 1])
      + if IsDigit(t[|t| - 1]) && Periods(t[..|t| - 1]) == 0 then 1 else 0
  }

  function LeadingZeros(d: seq<int>): (z: nat)
    ensures z <= |d|
    ensures forall k :: 0 <= k < z ==> d[k] == 0
    ensures z < |d| ==> d[z] != 0
  {
    if |d| == 0 then 0
    else
      var z := LeadingZeros(d[..|d| - 1]);
      if z == |d| - 1 && d[|d| - 1] == 0 then z + 1 else z
  }

  /** The digits that count: the first 52 after the leading zeros. */
  function Kept(d: seq<int>): (k: seq<int>)
    ensures |k| <= MANT_DIGITS && (|k| > 0 ==> k[0] != 0)
    ensures AreDigits(d) ==> AreDigits(k)
  {
    var z := LeadingZeros(d);
    d[z..z + Min(|d| - z, MANT_DIGITS)]
  }

  /** The power of ten by which 0.kept must be multiplied to give the significand. */
  function PointPosition(t: string): int {
    IntegerDigits(t) - LeadingZeros(Digits(t))
  }

  lemma PrefixStep(t: string, i: nat)
    requires i < |t|
    ensures t[..i + 1][..i] == t[..i]
    ensures Periods(t[..i + 1]) == Periods(t[..i]) + if t[i] == '.' then 1 else 0
    ensures IntegerDigits(t[..i + 1])
         == IntegerDigits(t[..i]) + if IsDigit(t[i]) && Periods(t[..i]) == 0 then 1 else 0
  {
    assert t[..i + 1][..i] == t[..i];
  }

  lemma {:induction false} PeriodsMonotone(t: string, i: nat)
    requires i <= |t|
    ensures Periods(t[..i]) <= Periods(t)
    decreases |t|
  {
    if i < |t| {
      PeriodsMonotone(t[..|t| - 1], i);
      assert t[..|t| - 1][..i] == t[..i];
    } else {
      assert t[..i] == t;
    }
  }

  lemma KeptStep(d: seq<int>, x: int)
    requires AreDigits(d) && 0 <= x <= 9
    ensures LeadingZeros(d + [x]) == LeadingZeros(d) + if LeadingZeros(d) == |d| && x == 0 then 1 else 0
    ensures Kept(d + [x])
         == if (LeadingZeros(d) == |d| && x == 0) || |Kept(d)| == MANT_DIGITS then Kept(d) else Kept(d) + [x]
  {
    hide LeadingZeros;
    LeadingZerosAppend(d, x);
    var z := LeadingZeros(d);
    assert (d + [x])[..|d|] == d;
    if z == |d| {
      assert Kept(d) == [];
      assert x != 0 ==> (d + [x])[z..z + 1] == [x];
    } else {
      KeptAppend(d, x, z);
    }
  }

  lemma KeptAppend(d: seq<int>, x: int, z: nat)
    requires z < |d|
    ensures var m, m' := Min(|d| - z, MANT_DIGITS), Min(|d| + 1 - z, MANT_DIGITS);
            (d + [x])[z..z + m'] == if m == MANT_DIGITS then d[z..z + m] else d[z..z + m] + [x]
  {
  }

  lemma LeadingZerosAppend(d: seq<int>, x: int)
    ensures LeadingZeros(d + [x]) == LeadingZeros(d) + if LeadingZeros(d) == |d| && x == 0 then 1 else 0
  {
    assert (d + [x])[..|d|] == d;
  }

  /** What the scanning loop knows after reading the prefix `t` of the significand. */
  ghost predicate Scanned(t: string, kept: seq<int>, tenpwr: int, started: bool, seendot: bool) {
    && SignificandOk(t)
    && (seendot <==> Periods(t) == 1)
    && (started <==> LeadingZeros(Digits(t)) < |Digits(t)|)
    && kept == Kept(Digits(t))
    && tenpwr == PointPosition(t)
  }

  lemma ScannedPeriod(s: string, i: nat, kept: seq<int>, tenpwr: int, started: bool, seendot: bool)
    requires i < |s| && Scanned(s[..i], kept, tenpwr, started, seendot) && s[i] == '.'
    ensures if seendot then Periods(s[..i + 1]) == 2 else Scanned(s[..i + 1], kept, tenpwr, started, true)
  {
    hide Digits, Periods, IntegerDigits, LeadingZeros, Kept;
    PrefixStep(s, i);
    DigitsStep(s, i);
  }

  lemma ScannedUnderscore(s: string, i: nat, kept: seq<int>, tenpwr: int, started: bool, seendot: bool)
    requires i < |s| && Scanned(s[..i], kept, tenpwr, started, seendot) && s[i] == '_'
    ensures Scanned(s[..i + 1], kept, tenpwr, started, seendot)
  {
    hide Digits, Periods, IntegerDigits, LeadingZeros, Kept;
    PrefixStep(s, i);
    DigitsStep(s, i);
  }

  lemma ScannedDigit(s: string, i: nat, kept: seq<int>, tenpwr: int, started: bool, seendot: bool)
    requires i < |s| && Scanned(s[..i], kept, tenpwr, started, seendot) && IsDigit(s[i])
    ensures s[i] == '0' && !started ==>
              Scanned(s[..i + 1], kept, if seendot then tenpwr - 1 else tenpwr, false, seendot)
    ensures s[i] != '0' || started ==>
              Scanned(s[..i + 1], if |kept| < MANT_DIGITS then kept + [DigitOf(s[i])] else kept,
                      if seendot then tenpwr else tenpwr + 1, true, seendot)
  {
    hide Digits, Periods, IntegerDigits, LeadingZeros, Kept;
    PrefixStep(s, i);
    DigitsStep(s, i);
    KeptStep(Digits(s[..i]), DigitOf(s[i]));
  }

  lemma BadPrefix(s: string, i: nat, end: nat)
    requires i < end <= |s|
    requires Periods(s[..i + 1]) == 2 || !(IsDigit(s[i]) || s[i] == '_' || s[i] == '.')
    ensures !SignificandOk(s[..end])
  {
    var t := s[..end];
    PeriodsMonotone(t, i + 1);
    assert t[..i + 1] == s[..i + 1] && t[i] == s[i];
  }

  /** The scanning loop: significant digits go to the buffer, the rest moves the point. */
  method ScanSignificand(s: string, digits: array<int>) returns (ok: bool, p: nat, tenpwr: int, pos: nat)
    requires digits.Length == MANT_DIGITS
    modifies digits
    ensures ok <==> SignificandOk(s[..SignificandEnd(s)])
    ensures ok ==> pos == SignificandEnd(s) && p <= MANT_DIGITS
    ensures ok ==> digits[..p] == Kept(Digits(s[..pos])) && tenpwr == PointPosition(s[..pos])
  {
    hide *;
    ghost var end := SignificandEnd(s);
    p, tenpwr, pos := 0, 0, 0;
    var started, seendot := false, false;
    assert Scanned(s[..0], digits[..0], 0, false, false) by { ScannedEmpty(s[..0], digits[..0]); }
    while pos < |s| && s[pos] != 'E' && s[pos] != 'e'
      invariant pos <= end && p <= MANT_DIGITS
      invariant Scanned(s[..pos], digits[..p], tenpwr, started, seendot)
    {
      if s[pos] == '.' {
        ScannedPeriod(s, pos, digits[..p], tenpwr, started, seendot);
        if !seendot {
          seendot := true;
        } else {
          BadPrefix(s, pos, end);
          return false, p, tenpwr, pos;
        }
      } else if '0' <= s[pos] <= '9' {
        assert IsDigit(s[pos]) by { IsDigitIs(s[pos]); }
        ScannedDigit(s, pos, digits[..p], tenpwr, started, seendot);
        if s[pos] == '0' && !started {
          if seendot {
            tenpwr := tenpwr - 1;
          }
        } else {
          started := true;
          if p < MANT_DIGITS {
            ghost var kept := digits[..p];
            digits[p] := DigitOf(s[pos]);
            p := p + 1;
            assert digits[..p] == kept + [DigitOf(s[pos])];
          }
          if !seendot {
            tenpwr := tenpwr + 1;
          }
        }
      } else if s[pos] == '_' {
        ScannedUnderscore(s, pos, digits[..p], tenpwr, started, seendot);
      } else {
        IsDigitIs(s[pos]);
        BadPrefix(s, pos, end);
        return false, p, tenpwr, pos;
      }
      pos := pos + 1;
    }
    assert pos == end;
    ScannedDone(s[..pos], digits[..p], tenpwr, started, seendot);
    ok := true;
  }

  lemma ScannedEmpty(t: string, kept: seq<int>)
    requires t == [] && kept == []
    ensures Scanned(t, kept, 0, false, false)
  {
  }

  lemma ScannedDone(t: string, kept: seq<int>, tenpwr: int, started: bool, seendot: bool)
    requires Scanned(t, kept, tenpwr, started, seendot)
    ensures SignificandOk(t) && kept == Kept(Digits(t)) && tenpwr == PointPosition(t)
  {
  }

  lemma IsDigitIs(c: char)
    ensures IsDigit(c) <==> '0' <= c <= '9'
  {
  }
}
