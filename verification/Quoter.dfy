/** nasm_quote of quote.c: a quoting that reads back, sized first and written afterwards. */
module Quoter {
  import opened Sequences
  import opened Utf8
  import opened Quote

  predicate Printable(c: byte) {
    32 <= c <= 126
  }

  /** The letter of a control character that has one, or zero. */
  function Letter(c: byte): byte {
    if c == 7 then 97 else if c == 8 then 98 else if c == 9 then 116 else if c == 10 then 110
    else if c == 11 then 118 else if c == 12 then 102 else if c == 13 then 114 else if c == 27 then 101
    else 0
  }

  /** The octal digits to write: all three when a digit follows. */
  function OctalOf(c: byte, next: byte): seq<byte> {
    var uc := if 48 <= next <= 55 then 255 else c;
    (if uc > 63 then [c / 64 + 48] else []) + (if uc > 7 then [c / 8 % 8 + 48] else []) + [c % 8 + 48]
  }

  /** One byte inside back quotes, given the one after it. */
  function EscapeFor(c: byte, next: byte): (e: seq<byte>)
    ensures |e| >= 1
  {
    if c == BACK || c == BACKSLASH then [BACKSLASH, c]
    else if Letter(c) != 0 then [BACKSLASH, Letter(c)]
    else if !Printable(c) then [BACKSLASH] + OctalOf(c, next)
    else [c]
  }

  function Next(s: seq<byte>, k: nat): byte {
    if k + 1 < |s| then s[k + 1] else 0
  }

  /** The escapes of the bytes from `k` on. */
  function Escaped(s: seq<byte>, k: nat): seq<byte>
    requires k <= |s|
    decreases |s| - k
  {
    if k == |s| then [] else EscapeFor(s[k], Next(s, k)) + Escaped(s, k + 1)
  }

  /** A string that plain quotes `q` can hold. */
  predicate Holds(s: seq<byte>, q: byte) {
    forall k :: 0 <= k < |s| ==> Printable(s[k]) && s[k] != q
  }

  function QuoteOf(s: seq<byte>): seq<byte> {
    if Holds(s, SINGLE) then [SINGLE] + s + [SINGLE]
    else if Holds(s, DOUBLE) then [DOUBLE] + s + [DOUBLE]
    else [BACK] + Escaped(s, 0) + [BACK]
  }

  // ----- unquoting undoes quoting -----

  /** An octal escape is read back, given that no further octal digit follows a short one. */
  lemma OctalReadsBack(t: seq<byte>, e: nat, c: byte, next: byte)
    requires Stands(t, e, OctalOf(c, next)) && e + |OctalOf(c, next)| < |t|
    requires !(48 <= next <= 55) ==> !IsDigit(t[e + |OctalOf(c, next)|], 8)
    requires Letter(c) == 0
    ensures EscapeEnd(t, e) == e + |OctalOf(c, next)| && EscapeBytes(t, e) == [c]
  {
    hide Run, ValueOf, OctalOf, EscapeEnd, EscapeBytes, DigitValue;
    var d := OctalOf(c, next);
    assert forall k :: 0 <= k < |d| ==> t[e + k] == d[k];
    OctalDigits(c, next);
    assert forall k :: e <= k < e + |d| ==> t[k] == d[k - e];
    RunIs(t, e, 3, 8, |d|);
    OctalEscape(t, e, |d|);
    ValueUnfolds(t, e);
    OctalDigitValues();
    OctalValue(c);
  }

  lemma OctalEscape(t: seq<byte>, e: nat, n: nat)
    requires e < |t| && EscapeOf(t[e]).Octal? && Run(t, e, 3, 8) == n > 0
    ensures EscapeEnd(t, e) == e + n && e + n <= |t| && EscapeBytes(t, e) == [ValueOf(t, e, n, 8) % 256]
  {
    hide Run, ValueOf;
  }

  lemma OctalDigitValues()
    ensures forall x: byte :: 48 <= x <= 55 ==> DigitValue(x) == x - 48 && EscapeOf(x).Octal? && IsDigit(x, 8)
  {
  }

  lemma OctalDigits(c: byte, next: byte)
    ensures var d := OctalOf(c, next);
            && 1 <= |d| <= 3 && (forall k :: 0 <= k < |d| ==> 48 <= d[k] <= 55)
            && d[|d| - 1] == c % 8 + 48
            && (|d| >= 2 ==> d[|d| - 2] == c / 8 % 8 + 48) && (|d| == 3 ==> d[0] == c / 64 + 48)
            && (|d| < 3 ==> c < 64 && !(48 <= next <= 55)) && (|d| < 2 ==> c < 8)
  {
  }

  lemma ValueUnfolds(t: seq<byte>, e: nat)
    ensures e + 1 <= |t| ==> ValueOf(t, e, 1, 8) == DigitValue(t[e])
    ensures e + 2 <= |t| ==> ValueOf(t, e, 2, 8) == 8 * DigitValue(t[e]) + DigitValue(t[e + 1])
    ensures e + 3 <= |t| ==>
              ValueOf(t, e, 3, 8) == 64 * DigitValue(t[e]) + 8 * DigitValue(t[e + 1]) + DigitValue(t[e + 2])
  {
    if e + 1 <= |t| {
      assert ValueOf(t, e, 0, 8) == 0;
      assert ValueOf(t, e, 1, 8) == 8 * ValueOf(t, e, 0, 8) + DigitValue(t[e]);
    }
    if e + 2 <= |t| {
      assert ValueOf(t, e, 2, 8) == 8 * ValueOf(t, e, 1, 8) + DigitValue(t[e + 1]);
    }
  }

  lemma OctalValue(c: byte)
    ensures 64 * (c / 64) + 8 * (c / 8 % 8) + c % 8 == c
    ensures c < 64 ==> 8 * (c / 8 % 8) + c % 8 == c && c / 64 == 0
    ensures c < 8 ==> c % 8 == c
  {
    assert c / 64 == c / 8 / 8;
  }

  /** The first byte of what follows is no octal digit unless the source has one there. */
  lemma FollowingByte(s: seq<byte>, k: nat, t: seq<byte>, p: nat)
    requires k < |s| && Stands(t, p, Escaped(s, k + 1) + [BACK]) && !(48 <= Next(s, k) <= 55)
    ensures !IsDigit(t[p], 8)
  {
    var e := Escaped(s, k + 1) + [BACK];
    assert t[p] == e[0];
    if k + 1 < |s| {
      assert e[0] == EscapeFor(s[k + 1], Next(s, k + 1))[0];
    }
  }

  /** One escaped byte is read back. */
  lemma EscapeReadsBack(s: seq<byte>, k: nat, t: seq<byte>, p: nat)
    requires k < |s| && Stands(t, p, Escaped(s, k) + [BACK])
    ensures var e := EscapeFor(s[k], Next(s, k));
            && p + |e| < |t| && Stands(t, p + |e|, Escaped(s, k + 1) + [BACK])
            && Body(t, p) == Prefixed([s[k]], Body(t, p + |e|))
  {
    hide Body, Escaped, EscapeFor, OctalOf, EscapeBytes, EscapeEnd, Letter;
    var c, next := s[k], Next(s, k);
    var e, rest := EscapeFor(c, next), Escaped(s, k + 1) + [BACK];
    EscapedStep(s, k);
    assert Escaped(s, k) + [BACK] == e + rest;
    StandsSplit(t, p, e, rest);
    assert forall j :: 0 <= j < |e| ==> t[p + j] == e[j];
    assert rest[|rest| - 1] == BACK;
    BodyStep(t, p);
    EscapeShape(c, next);
    if e[0] == BACKSLASH {
      if Letter(c) == 0 && c != BACK && c != BACKSLASH {
        StandsSplit(t, p, [BACKSLASH], OctalOf(c, next));
        if !(48 <= next <= 55) {
          FollowingByte(s, k, t, p + |e|);
        }
        OctalReadsBack(t, p + 1, c, next);
        OctalStarts(c, next);
        assert t[p + 1] == e[1];
      } else {
        LetterReadsBack(t, p + 1, c);
      }
    }
  }

  lemma EscapeShape(c: byte, next: byte)
    ensures var e := EscapeFor(c, next);
            && |e| >= 1
            && (e[0] != BACKSLASH ==> e == [c] && c != 0 && c != BACK)
            && (e[0] == BACKSLASH && (Letter(c) != 0 || c == BACK || c == BACKSLASH) ==>
                  e == [BACKSLASH, if c == BACK || c == BACKSLASH then c else Letter(c)])
            && (e[0] == BACKSLASH && Letter(c) == 0 && c != BACK && c != BACKSLASH ==>
                  e == [BACKSLASH] + OctalOf(c, next))
  {
  }

  lemma OctalStarts(c: byte, next: byte)
    ensures |OctalOf(c, next)| >= 1 && OctalOf(c, next)[0] != 0
  {
  }

  lemma EscapedStep(s: seq<byte>, k: nat)
    requires k < |s|
    ensures Escaped(s, k) == EscapeFor(s[k], Next(s, k)) + Escaped(s, k + 1)
  {
  }

  lemma BodyStep(t: seq<byte>, p: nat)
    requires p < |t|
    ensures t[p] != 0 && t[p] != BACK && t[p] != BACKSLASH ==> Body(t, p) == Prefixed([t[p]], Body(t, p + 1))
    ensures t[p] == BACKSLASH && p + 1 < |t| && t[p + 1] != 0 ==>
              Body(t, p) == Prefixed(EscapeBytes(t, p + 1), Body(t, EscapeEnd(t, p + 1)))
    ensures t[p] == BACK ==> Body(t, p) == Dequoted([], p)
  {
    hide EscapeBytes, EscapeEnd;
  }

  lemma LetterReadsBack(t: seq<byte>, e: nat, c: byte)
    requires e < |t|
    requires t[e] == if c == BACK || c == BACKSLASH then c else Letter(c)
    requires c == BACK || c == BACKSLASH || Letter(c) != 0
    ensures EscapeEnd(t, e) == e + 1 && EscapeBytes(t, e) == [c] && t[e] != 0
  {
  }

  lemma {:induction false} EscapedReadsBack(s: seq<byte>, k: nat, t: seq<byte>, p: nat)
    requires k <= |s| && Stands(t, p, Escaped(s, k) + [BACK])
    ensures Body(t, p) == Dequoted(s[k..], p + |Escaped(s, k)|)
    decreases |s| - k
  {
    hide Body, Escaped, EscapeFor;
    if k == |s| {
      assert Escaped(s, k) == [] by { NothingEscaped(s); }
      assert t[p] == ([] + [BACK])[0];
      BodyStep(t, p);
    } else {
      EscapeReadsBack(s, k, t, p);
      EscapedStep(s, k);
      var e := EscapeFor(s[k], Next(s, k));
      EscapedReadsBack(s, k + 1, t, p + |e|);
      assert [s[k]] + s[k + 1..] == s[k..];
    }
  }

  lemma NothingEscaped(s: seq<byte>)
    ensures Escaped(s, |s|) == []
  {
  }

  lemma {:induction false} PlainReadsBack(s: seq<byte>, k: nat, t: seq<byte>, p: nat, q: byte)
    requires k <= |s| && Holds(s, q) && Stands(t, p, s[k..] + [q])
    ensures Plain(t, p, q) == Dequoted(s[k..], p + |s| - k)
    decreases |s| - k
  {
    var e := s[k..] + [q];
    assert t[p] == e[0];
    if k < |s| {
      assert s[k..] == [s[k]] + s[k + 1..];
      assert e == [s[k]] + (s[k + 1..] + [q]);
      StandsSplit(t, p, [s[k]], s[k + 1..] + [q]);
      PlainReadsBack(s, k + 1, t, p + 1, q);
    }
  }

  /** Dequoting a quoted string gives the string back, with the end on the closing quote. */
  lemma RoundTrip(s: seq<byte>)
    ensures Dequote(QuoteOf(s) + [0]) == Dequoted(s, |QuoteOf(s)| - 1)
  {
    hide Body, Plain, Escaped;
    var t := QuoteOf(s) + [0];
    if Holds(s, SINGLE) || Holds(s, DOUBLE) {
      var q := t[0];
      assert t[1..1 + |s[0..] + [q]|] == s[0..] + [q];
      PlainReadsBack(s, 0, t, 1, q);
      assert s[0..] == s;
    } else {
      var e := Escaped(s, 0) + [BACK];
      assert t[1..1 + |e|] == e;
      EscapedReadsBack(s, 0, t, 1);
      assert s[0..] == s;
    }
  }

  // ----- nasm_quote -----

  /** The sizing pass: which quotes will do, and the length that back quotes need. */
  method Measure(s: seq<byte>) returns (sq: bool, dq: bool, qlen: nat)
    ensures sq <==> Holds(s, SINGLE)
    ensures dq <==> Holds(s, DOUBLE)
    ensures qlen == |Escaped(s, 0)|
  {
    hide Escaped;
    sq, dq, qlen := true, true, 0;
    var k := 0;
    while k < |s|
      invariant 0 <= k <= |s|
      invariant sq <==> Holds(s[..k], SINGLE)
      invariant dq <==> Holds(s[..k], DOUBLE)
      invariant qlen + |Escaped(s, k)| == |Escaped(s, 0)|
    {
      var c := s[k];
      EscapedStep(s, k);
      HoldsStep(s, k, SINGLE);
      HoldsStep(s, k, DOUBLE);
      if c == SINGLE {
        sq := false;
        qlen := qlen + 1;
      } else if c == DOUBLE {
        dq := false;
        qlen := qlen + 1;
      } else if c == BACK || c == BACKSLASH {
        qlen := qlen + 2;
      } else if !Printable(c) {
        sq, dq := false, false;
        if Letter(c) != 0 {
          qlen := qlen + 2;
        } else {
          var c1 := if k + 1 < |s| then s[k + 1] else 0;
          var uc := if 48 <= c1 <= 55 then 255 else c;
          if uc > 63 {
            qlen := qlen + 1;
          }
          if uc > 7 {
            qlen := qlen + 1;
          }
          qlen := qlen + 2;
        }
      } else {
        qlen := qlen + 1;
      }
      k := k + 1;
    }
    assert s[..k] == s;
    NothingEscaped(s);
  }

  lemma HoldsStep(s: seq<byte>, k: nat, q: byte)
    requires k < |s|
    ensures Holds(s[..k + 1], q) <==> Holds(s[..k], q) && Printable(s[k]) && s[k] != q
  {
    assert s[..k + 1][..k] == s[..k];
    assert s[..k + 1][k] == s[k];
    if Holds(s[..k + 1], q) {
      assert forall j :: 0 <= j < k ==> s[..k][j] == s[..k + 1][j];
    }
  }

  /** nasm_quote: a fresh NUL-terminated string, exactly as long as was measured. */
  method NasmQuote(s: seq<byte>) returns (nstr: array<byte>)
    ensures fresh(nstr) && nstr[..] == QuoteOf(s) + [0]
    ensures Dequote(nstr[..]) == Dequoted(s, nstr.Length - 2)
  {
    hide Escaped, Dequote, Holds;
    RoundTrip(s);
    var sq, dq, qlen := Measure(s);
    if sq || dq {
      nstr := PlainQuoted(s, if sq then SINGLE else DOUBLE);
    } else {
      nstr := BackQuoted(s, qlen);
    }
  }

  /** '...' or "...": the bytes as they are. */
  method PlainQuoted(s: seq<byte>, q: byte) returns (nstr: array<byte>)
    ensures fresh(nstr) && nstr[..] == [q] + s + [q] + [0]
  {
    nstr := new byte[|s| + 3](_ => 0);
    nstr[0] := q;
    nstr[|s| + 1] := q;
    nstr[|s| + 2] := 0;
    ghost var ends := nstr[1 + |s|..];
    Write(nstr, 1, s);
    assert nstr[1 + |s|..] == [q, 0];
    assert nstr[..] == nstr[..1] + nstr[1..1 + |s|] + nstr[1 + |s|..];
  }

  /** `...`: every byte with its escape, in the measured space. */
  method BackQuoted(s: seq<byte>, qlen: nat) returns (nstr: array<byte>)
    requires qlen == |Escaped(s, 0)|
    ensures fresh(nstr) && nstr[..] == [BACK] + Escaped(s, 0) + [BACK] + [0]
  {
    hide Escaped, EscapeFor;
    nstr := new byte[qlen + 3](_ => 0);
    nstr[0] := BACK;
    var q: nat, k: nat := 1, 0;
    assert nstr[..q] == [BACK];
    while k < |s|
      invariant 0 <= k <= |s| && 1 <= q && q + |Escaped(s, k)| == qlen + 1 && nstr.Length == qlen + 3
      invariant nstr[..q] + Escaped(s, k) == [BACK] + Escaped(s, 0)
    {
      EscapedStep(s, k);
      var e := EscapeFor(s[k], Next(s, k));
      Reassociate(nstr[..q], e, Escaped(s, k + 1));
      Write(nstr, q, e);
      assert nstr[..q + |e|] == nstr[..q] + nstr[q..q + |e|];
      q := q + |e|;
      k := k + 1;
    }
    NothingEscaped(s);
    assert nstr[..q] + [] == nstr[..q];
    nstr[q] := BACK;
    nstr[q + 1] := 0;
    assert nstr[..] == nstr[..q] + [BACK, 0];
  }

  lemma Reassociate(a: seq<byte>, b: seq<byte>, c: seq<byte>)
    ensures a + (b + c) == a + b + c
  {
  }

  /** Which quotes are chosen: single ones if everything is printable and no single quote, else
      double ones on the same terms, else back quotes; only inside those are bytes changed. */
  lemma ChoiceOfQuotes(s: seq<byte>)
    ensures var q := QuoteOf(s);
            var single := forall k :: 0 <= k < |s| ==> 32 <= s[k] <= 126 && s[k] != 39;
            var double := forall k :: 0 <= k < |s| ==> 32 <= s[k] <= 126 && s[k] != 34;
            && |q| >= 2 && q[|q| - 1] == q[0]
            && (single ==> q == [39] + s + [39])
            && (!single && double ==> q == [34] + s + [34])
            && (!single && !double ==> q[0] == 96)
  {
    assert forall k :: 0 <= k < |s| && !(32 <= s[k] <= 126 && s[k] != 39) ==> !(Printable(s[k]) && s[k] != SINGLE);
    assert forall k :: 0 <= k < |s| && !(32 <= s[k] <= 126 && s[k] != 34) ==> !(Printable(s[k]) && s[k] != DOUBLE);
  }
}
