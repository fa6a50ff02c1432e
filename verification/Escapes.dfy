/** What the escapes of a back-quoted string stand for, spelled out from the numbers. */
module Escapes {
  import opened Utf8
  import opened Quote
  import opened Sequences

  // ----- printing numbers as digits -----

  /** A hexadecimal digit in either letter case. */
  function HexDigit(d: nat, upper: bool): byte
    requires d < 16
  {
    (if upper then "0123456789ABCDEF" else "0123456789abcdef")[d] as int
  }

  /** `n` hexadecimal digits of `v`; `upper` chooses the case of each. */
  function Hex(v: nat, n: nat, upper: nat -> bool): (s: seq<byte>)
    ensures |s| == n
  {
    if n == 0 then [] else Hex(v / 16, n - 1, upper) + [HexDigit(v % 16, upper(n))]
  }

  /** `n` octal digits of `v`. */
  function OctalDigits(v: nat, n: nat): (s: seq<byte>)
    ensures |s| == n
  {
    if n == 0 then [] else OctalDigits(v / 8, n - 1) + ["01234567"[v % 8] as int]
  }

  // ----- reading them back -----

  lemma HexDigitReads(d: nat, upper: bool)
    requires d < 16
    ensures IsDigit(HexDigit(d, upper), 16) && DigitValue(HexDigit(d, upper)) == d
  {
  }

  lemma {:induction false} HexReads(s: seq<byte>, p: nat, v: nat, n: nat, upper: nat -> bool)
    requires Stands(s, p, Hex(v, n, upper)) && v < Power16(n)
    ensures AllDigits(s, p, n, 16) && ValueOf(s, p, n, 16) == v
  {
    if n > 0 {
      var front := Hex(v / 16, n - 1, upper);
      StandsSplit(s, p, front, [HexDigit(v % 16, upper(n))]);
      HexReads(s, p, v / 16, n - 1, upper);
      HexDigitReads(v % 16, upper(n));
      assert s[p + n - 1] == s[p + n - 1..p + n][0];
    }
  }

  lemma {:induction false} OctalReads(s: seq<byte>, p: nat, v: nat, n: nat)
    requires Stands(s, p, OctalDigits(v, n)) && n <= 3 && v < Power8(n)
    ensures AllDigits(s, p, n, 8) && ValueOf(s, p, n, 8) == v
  {
    if n > 0 {
      StandsSplit(s, p, OctalDigits(v / 8, n - 1), ["01234567"[v % 8] as int]);
      OctalReads(s, p, v / 8, n - 1);
      assert s[p + n - 1] == s[p + n - 1..p + n][0];
    }
  }

  function Power8(n: nat): nat {
    if n == 0 then 1 else 8 * Power8(n - 1)
  }

  // ----- the escapes, wherever they stand -----

  /** An escape at `p` of `n` characters after its backslash yields `b`. */
  ghost predicate Yields(s: seq<byte>, p: nat, n: nat, b: seq<byte>) {
    p + 1 + n <= |s| && Body(s, p) == Prefixed(b, Body(s, p + 1 + n))
  }

  /** The digits at `p` stop after `n`: there is room for no more, or no digit follows. */
  predicate StopsAfter(s: seq<byte>, p: nat, n: nat, most: nat, base: nat) {
    p + n <= |s| && n <= most && (n == most || p + n == |s| || !IsDigit(s[p + n], base))
  }

  /** `\x` or `\X` with one or two digits is the byte with that number. */
  lemma HexEscape(s: seq<byte>, p: nat, letter: char, v: nat, n: nat, upper: nat -> bool)
    requires letter in "xX" && Stands(s, p, [92, letter as int] + Hex(v, n, upper))
    requires 1 <= n <= 2 && v < 256 && (n == 1 ==> v < 16) && StopsAfter(s, p + 2, n, 2, 16)
    ensures Yields(s, p, 1 + n, [v])
  {
    hide Hex, ValueOf;
    SmallPowers();
    StandsSplit(s, p, [92, letter as int], Hex(v, n, upper));
    assert s[p] == s[p..p + 2][0] && s[p + 1] == s[p..p + 2][1];
    HexReads(s, p + 2, v, n, upper);
    RunIs(s, p + 2, 2, 16, n);
  }

  /** `\u` with up to four digits and `\U` with up to eight are the character in UTF-8. */
  lemma UnicodeEscape(s: seq<byte>, p: nat, letter: char, v: nat, n: nat, upper: nat -> bool)
    requires letter in "uU" && Stands(s, p, [92, letter as int] + Hex(v, n, upper))
    requires 1 <= n && StopsAfter(s, p + 2, n, if letter == 'u' then 4 else 8, 16) && v < Power16(n)
    ensures v < 0x8000_0000 ==> Yields(s, p, 1 + n, Encode(v))
    ensures 0x8000_0000 <= v ==> Yields(s, p, 1 + n, [])
  {
    hide Hex, ValueOf, Power16, Encode, Yields, Int32, Run, AllDigits, IsDigit;
    StandsSplit(s, p, [92, letter as int], Hex(v, n, upper));
    assert s[p] == s[p..p + 2][0] && s[p + 1] == s[p..p + 2][1];
    HexReads(s, p + 2, v, n, upper);
    var most := if letter == 'u' then 4 else 8;
    RunIs(s, p + 2, most, 16, n);
    UnicodeRun(s, p, v, n, most);
    WideDigits(n, v);
    if v < 0x8000_0000 {
      SmallInt32(v);
    } else {
      LargeInt32(v);
      NegativeEmitsNothing(v - 0x1_0000_0000);
    }
  }

  /** A run of digits behind `\u` or `\U`. */
  lemma UnicodeRun(s: seq<byte>, p: nat, v: nat, n: nat, most: nat)
    requires 1 <= n && p + 2 + n <= |s| && s[p] == 92 && s[p + 1] == if most == 4 then 117 else 85
    requires most in {4, 8} && Run(s, p + 2, most, 16) == n && ValueOf(s, p + 2, n, 16) == v
    ensures Yields(s, p, 1 + n, Encode(Int32(v)))
  {
    hide ValueOf, Encode, Int32, Run;
  }

  lemma LargeInt32(v: nat)
    requires 0x8000_0000 <= v < 0x1_0000_0000
    ensures Int32(v) == v - 0x1_0000_0000
  {
  }

  lemma NegativeEmitsNothing(v: int)
    requires v < 0
    ensures Encode(v) == []
  {
  }

  lemma WideDigits(n: nat, v: nat)
    requires n <= 8 && v < Power16(n)
    ensures v < 0x1_0000_0000
  {
    SmallPowers();
    assert Power16(6) == 16 * Power16(5) && Power16(7) == 16 * Power16(6) && Power16(8) == 16 * Power16(7);
  }

  /** A backslash and one to three octal digits are the byte, cut to eight bits. */
  lemma OctalEscape(s: seq<byte>, p: nat, v: nat, n: nat)
    requires Stands(s, p, [92] + OctalDigits(v, n))
    requires 1 <= n <= 3 && v < Power8(n) && StopsAfter(s, p + 1, n, 3, 8)
    ensures Yields(s, p, n, [v % 256])
  {
    hide OctalDigits, ValueOf;
    StandsSplit(s, p, [92], OctalDigits(v, n));
    assert s[p] == s[p..p + 1][0];
    OctalReads(s, p + 1, v, n);
    RunIs(s, p + 1, 3, 8, n);
    assert IsDigit(s[p + 1], 8);
  }

  /** The letters with a code of their own, as in C with `\e` besides. */
  lemma LetterEscape(s: seq<byte>, p: nat, k: nat)
    requires k < 8 && Stands(s, p, [92, "abtnvfre"[k] as int])
    ensures Yields(s, p, 1, [[7, 8, 9, 10, 11, 12, 13, 27][k]])
  {
    assert s[p] == s[p..p + 2][0] && s[p + 1] == s[p..p + 2][1];
  }

  /** Any other character stands for itself after a backslash, quotes and backslash included;
      so do x and u when no digit follows. */
  lemma OtherEscape(s: seq<byte>, p: nat, c: byte)
    requires Stands(s, p, [92, c]) && c != 0
    requires forall k :: 0 <= k < 8 ==> c != "abtnvfre"[k] as int
    requires !(48 <= c <= 55)
    requires c in {'x' as int, 'X' as int, 'u' as int, 'U' as int} ==> p + 2 == |s| || !IsDigit(s[p + 2], 16)
    ensures Yields(s, p, 1, [c])
  {
    assert s[p] == s[p..p + 2][0] && s[p + 1] == s[p..p + 2][1];
    forall k: nat | k < 8
      ensures c != "abtnvfre"[k] as int
    {
    }
    assert c != "abtnvfre"[0] as int && c != "abtnvfre"[1] as int && c != "abtnvfre"[2] as int;
    assert c != "abtnvfre"[3] as int && c != "abtnvfre"[4] as int && c != "abtnvfre"[5] as int;
    assert c != "abtnvfre"[6] as int && c != "abtnvfre"[7] as int;
  }

  // ----- whole strings -----

  lemma Alone(s: seq<byte>, n: nat, b: seq<byte>)
    requires |s| == n + 3 && s[0] == 96 && s[n + 2] == 96 && Yields(s, 1, n, b)
    ensures Dequote(s) == Dequoted(b, n + 2)
  {
    assert b + [] == b;
  }

  /** `\x` and two digits in back quotes: every byte, in every letter case. */
  lemma HexString(v: byte, upper: nat -> bool)
    ensures Dequote([96, 92, 'x' as int] + Hex(v, 2, upper) + [96]) == Dequoted([v], 5)
  {
    hide Hex, Dequote;
    var s := [96, 92, 'x' as int] + Hex(v, 2, upper) + [96];
    assert s[1..5] == [92, 'x' as int] + Hex(v, 2, upper);
    HexEscape(s, 1, 'x', v, 2, upper);
    Alone(s, 3, [v]);
  }

  /** `\u` and four digits, `\U` and eight. */
  lemma UnicodeString(v: nat, upper: nat -> bool)
    ensures v < 0x1_0000 ==>
              Dequote([96, 92, 'u' as int] + Hex(v, 4, upper) + [96]) == Dequoted(Encode(v), 7)
    ensures v < 0x8000_0000 ==>
              Dequote([96, 92, 'U' as int] + Hex(v, 8, upper) + [96]) == Dequoted(Encode(v), 11)
  {
    hide Hex, Dequote, Encode, Power16;
    SmallPowers();
    EightDigits();
    if v < 0x1_0000 {
      var s := [96, 92, 'u' as int] + Hex(v, 4, upper) + [96];
      assert s[1..7] == [92, 'u' as int] + Hex(v, 4, upper);
      UnicodeEscape(s, 1, 'u', v, 4, upper);
      Alone(s, 5, Encode(v));
    }
    if v < 0x8000_0000 {
      var s := [96, 92, 'U' as int] + Hex(v, 8, upper) + [96];
      assert s[1..11] == [92, 'U' as int] + Hex(v, 8, upper);
      UnicodeEscape(s, 1, 'U', v, 8, upper);
      Alone(s, 9, Encode(v));
    }
  }

  lemma EightDigits()
    ensures Power16(8) == 0x1_0000_0000
  {
    SmallPowers();
    assert Power16(6) == 16 * Power16(5) && Power16(7) == 16 * Power16(6);
  }
}
