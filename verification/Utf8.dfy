/** UTF-8 with up to six bytes (section 2 of RFC 2279): emit_utf8 of quote.c, and its inverse. */
module Utf8 {
  import opened Wrappers

  type byte = x: int | 0 <= x < 256

  // ----- the encoder -----

  /** `0x80 | ((v >> 6k) & 63)` */
  function Continuation(v: nat, d: nat): byte
    requires d > 0
  {
    0x80 + v / d % 64
  }

  /** emit_utf8; a negative value emits nothing. */
  function Encode(v: int): (b: seq<byte>)
    requires v < 0x8000_0000
    ensures |b| <= 6 && (v >= 0 ==> |b| >= 1)
  {
    if v < 0 then []
    else if v <= 0x7f then [v]
    else if v <= 0x7ff then [0xc0 + v / 0x40, Continuation(v, 1)]
    else if v <= 0xffff then [0xe0 + v / 0x1000, Continuation(v, 0x40), Continuation(v, 1)]
    else if v <= 0x1f_ffff then
      [0xf0 + v / 0x4_0000, Continuation(v, 0x1000), Continuation(v, 0x40), Continuation(v, 1)]
    else if v <= 0x3ff_ffff then
      [0xf8 + v / 0x100_0000, Continuation(v, 0x4_0000), Continuation(v, 0x1000), Continuation(v, 0x40),
       Continuation(v, 1)]
    else
      [0xfc + v / 0x4000_0000, Continuation(v, 0x100_0000), Continuation(v, 0x4_0000), Continuation(v, 0x1000),
       Continuation(v, 0x40), Continuation(v, 1)]
  }

  /** The characters one after another. */
  function EncodeAll(vs: seq<int>): seq<byte>
    requires forall k :: 0 <= k < |vs| ==> vs[k] < 0x8000_0000
  {
    if |vs| == 0 then [] else Encode(vs[0]) + EncodeAll(vs[1..])
  }

  // ----- the decoder, character by character -----

  /** How many continuation bytes follow lead byte `c`; None for a byte that leads nothing. */
  function Following(c: byte): Option<nat> {
    if c < 0x80 then Some(0)
    else if c < 0xc0 || c >= 0xfe then None
    else if c < 0xe0 then Some(1)
    else if c < 0xf0 then Some(2)
    else if c < 0xf8 then Some(3)
    else if c < 0xfc then Some(4)
    else Some(5)
  }

  /** The bits of the value in the lead byte. */
  function LeadBits(c: byte): nat
    requires Following(c).Some?
  {
    if c < 0x80 then c
    else if c < 0xe0 then c % 0x20
    else if c < 0xf0 then c % 0x10
    else if c < 0xf8 then c % 8
    else if c < 0xfc then c % 4
    else c % 2
  }

  /** The least value that needs `n` continuation bytes. */
  function Least(n: nat): nat {
    if n == 0 then 0 else if n == 1 then 0x80 else if n == 2 then 0x800
    else if n == 3 then 0x1_0000 else if n == 4 then 0x20_0000 else 0x400_0000
  }

  predicate IsContinuation(c: byte) {
    0x80 <= c < 0xc0
  }

  /** The value after `n` continuation bytes of `s` from `p` on. */
  function Gather(s: seq<byte>, p: nat, n: nat, v: nat): nat
    requires p + n <= |s|
  {
    if n == 0 then v else 64 * Gather(s, p, n - 1, v) + s[p + n - 1] % 64
  }

  predicate AllContinue(s: seq<byte>, p: nat, n: nat)
    requires p + n <= |s|
  {
    forall k :: p <= k < p + n ==> IsContinuation(s[k])
  }

  predicate Surrogate(v: int) {
    0xd800 <= v <= 0xdfff
  }

  /** The values that a decoder with upper bound `top` accepts. */
  predicate Acceptable(v: int, top: int) {
    0 <= v <= top && !Surrogate(v)
  }

  const TOP31 := 0x7fff_ffff
  const TOP_UNICODE := 0x10_ffff

  /** A whole string, or None at the first malformed, overlong or unacceptable character. */
  function DecodeAll(s: seq<byte>, top: int): Option<seq<int>>
    decreases |s|
  {
    if |s| == 0 then Some([])
    else
      var n := Following(s[0]);
      if n.None? || n.value + 1 > |s| || !AllContinue(s, 1, n.value) then None
      else
        var v := Gather(s, 1, n.value, LeadBits(s[0]));
        if v < Least(n.value) || (n.value > 0 && !Acceptable(v, top)) then None
        else
          match DecodeAll(s[n.value + 1..], top)
          case None => None
          case Some(rest) => Some([v] + rest)
  }

  predicate AllAcceptable(vs: seq<int>, top: int) {
    forall k :: 0 <= k < |vs| ==> Acceptable(vs[k], top)
  }

  // ----- one character -----

  /** The value of a well-formed character encodes to its bytes. */
  lemma EncodesBack(s: seq<byte>, n: nat)
    requires |s| > 0 && Following(s[0]) == Some(n) && n + 1 <= |s| && AllContinue(s, 1, n)
    requires Gather(s, 1, n, LeadBits(s[0])) >= Least(n)
    ensures var v := Gather(s, 1, n, LeadBits(s[0]));
            0 <= v < 0x8000_0000 && Encode(v) == s[..n + 1]
  {
    hide Gather, Encode, LeadBits, Least;
    LeadRange(s[0]);
    if n == 0 {
      EncodesBack1(s);
    } else if n == 1 {
      EncodesBack2(s);
    } else if n == 2 {
      EncodesBack3(s);
    } else if n == 3 {
      EncodesBack4(s);
    } else if n == 4 {
      EncodesBack5(s);
    } else {
      EncodesBack6(s);
    }
  }

  lemma ContinuationDigit(s: seq<byte>, p: nat, n: nat, k: nat)
    requires p + n <= |s| && AllContinue(s, p, n) && p <= k < p + n
    ensures s[k] == 0x80 + s[k] % 64
  {
  }

  lemma EncodesBack1(s: seq<byte>)
    requires |s| >= 1 && Following(s[0]) == Some(0) && AllContinue(s, 1, 0)
    requires Gather(s, 1, 0, LeadBits(s[0])) >= Least(0)
    ensures var v := Gather(s, 1, 0, LeadBits(s[0]));
            0 <= v < 0x8000_0000 && Encode(v) == s[..1]
  {
    hide Gather, Encode, LeadBits;
    GatherUnfolds(s, 0, LeadBits(s[0]));
    LeadRange(s[0]);
    Encoded1(LeadBits(s[0]));
  }

  lemma EncodesBack2(s: seq<byte>)
    requires |s| >= 2 && Following(s[0]) == Some(1) && AllContinue(s, 1, 1)
    requires Gather(s, 1, 1, LeadBits(s[0])) >= Least(1)
    ensures var v := Gather(s, 1, 1, LeadBits(s[0]));
            0 <= v < 0x8000_0000 && Encode(v) == s[..2]
  {
    hide Gather, Encode, LeadBits;
    GatherUnfolds(s, 1, LeadBits(s[0]));
    LeadRange(s[0]);
    ContinuationDigit(s, 1, 1, 1);
    Encoded2(LeadBits(s[0]), s[1] % 64);
  }

  lemma EncodesBack3(s: seq<byte>)
    requires |s| >= 3 && Following(s[0]) == Some(2) && AllContinue(s, 1, 2)
    requires Gather(s, 1, 2, LeadBits(s[0])) >= Least(2)
    ensures var v := Gather(s, 1, 2, LeadBits(s[0]));
            0 <= v < 0x8000_0000 && Encode(v) == s[..3]
  {
    hide Gather, Encode, LeadBits;
    GatherUnfolds(s, 2, LeadBits(s[0]));
    LeadRange(s[0]);
    ContinuationDigit(s, 1, 2, 1);
    ContinuationDigit(s, 1, 2, 2);
    Encoded3(LeadBits(s[0]), s[1] % 64, s[2] % 64);
  }

  lemma EncodesBack4(s: seq<byte>)
    requires |s| >= 4 && Following(s[0]) == Some(3) && AllContinue(s, 1, 3)
    requires Gather(s, 1, 3, LeadBits(s[0])) >= Least(3)
    ensures var v := Gather(s, 1, 3, LeadBits(s[0]));
            0 <= v < 0x8000_0000 && Encode(v) == s[..4]
  {
    hide Gather, Encode, LeadBits;
    GatherUnfolds(s, 3, LeadBits(s[0]));
    LeadRange(s[0]);
    ContinuationDigit(s, 1, 3, 1);
    ContinuationDigit(s, 1, 3, 2);
    ContinuationDigit(s, 1, 3, 3);
    Encoded4(LeadBits(s[0]), s[1] % 64, s[2] % 64, s[3] % 64);
  }

  lemma EncodesBack5(s: seq<byte>)
    requires |s| >= 5 && Following(s[0]) == Some(4) && AllContinue(s, 1, 4)
    requires Gather(s, 1, 4, LeadBits(s[0])) >= Least(4)
    ensures var v := Gather(s, 1, 4, LeadBits(s[0]));
            0 <= v < 0x8000_0000 && Encode(v) == s[..5]
  {
    hide Gather, Encode, LeadBits;
    GatherUnfolds(s, 4, LeadBits(s[0]));
    LeadRange(s[0]);
    ContinuationDigit(s, 1, 4, 1);
    ContinuationDigit(s, 1, 4, 2);
    ContinuationDigit(s, 1, 4, 3);
    ContinuationDigit(s, 1, 4, 4);
    Encoded5(LeadBits(s[0]), s[1] % 64, s[2] % 64, s[3] % 64, s[4] % 64);
  }

  lemma EncodesBack6(s: seq<byte>)
    requires |s| >= 6 && Following(s[0]) == Some(5) && AllContinue(s, 1, 5)
    requires Gather(s, 1, 5, LeadBits(s[0])) >= Least(5)
    ensures var v := Gather(s, 1, 5, LeadBits(s[0]));
            0 <= v < 0x8000_0000 && Encode(v) == s[..6]
  {
    hide Gather, Encode, LeadBits;
    GatherUnfolds(s, 5, LeadBits(s[0]));
    LeadRange(s[0]);
    ContinuationDigit(s, 1, 5, 1);
    ContinuationDigit(s, 1, 5, 2);
    ContinuationDigit(s, 1, 5, 3);
    ContinuationDigit(s, 1, 5, 4);
    ContinuationDigit(s, 1, 5, 5);
    Encoded6(LeadBits(s[0]), s[1] % 64, s[2] % 64, s[3] % 64, s[4] % 64, s[5] % 64);
  }

  /** The base of a lead byte with `n` continuation bytes, and the bound of its bits. */
  function LeadBase(n: nat): nat {
    if n == 0 then 0 else if n == 1 then 0xc0 else if n == 2 then 0xe0 else if n == 3 then 0xf0
    else if n == 4 then 0xf8 else 0xfc
  }

  lemma LeadRange(c: byte)
    requires Following(c).Some?
    ensures var n := Following(c).value;
            && n <= 5 && c == LeadBase(n) + LeadBits(c)
            && LeadBits(c) < (if n == 0 then 0x80 else if n == 1 then 0x20 else if n == 2 then 0x10
                              else if n == 3 then 8 else if n == 4 then 4 else 2)
  {
  }

  lemma Encoded1(a: nat)
    requires a < 0x80
    ensures Encode(a) == [a]
  {
  }

  lemma Encoded2(a: nat, b: nat)
    requires a < 32 && b < 64 && 64 * a + b >= 0x80
    ensures Encode(64 * a + b) == [0xc0 + a, 0x80 + b]
  {
    Digits2(a, b);
  }

  lemma Encoded3(a: nat, b: nat, c: nat)
    requires a < 16 && b < 64 && c < 64 && 64 * (64 * a + b) + c >= 0x800
    ensures Encode(64 * (64 * a + b) + c) == [0xe0 + a, 0x80 + b, 0x80 + c]
  {
    Digits3(a, b, c);
  }

  lemma Encoded4(a: nat, b: nat, c: nat, d: nat)
    requires a < 8 && b < 64 && c < 64 && d < 64 && 64 * (64 * (64 * a + b) + c) + d >= 0x1_0000
    ensures 64 * (64 * (64 * a + b) + c) + d < 0x8000_0000
    ensures Encode(64 * (64 * (64 * a + b) + c) + d) == [0xf0 + a, 0x80 + b, 0x80 + c, 0x80 + d]
  {
    Digits4(a, b, c, d);
  }

  lemma Encoded5(a: nat, b: nat, c: nat, d: nat, e: nat)
    requires a < 4 && b < 64 && c < 64 && d < 64 && e < 64
    requires 64 * (64 * (64 * (64 * a + b) + c) + d) + e >= 0x20_0000
    ensures 64 * (64 * (64 * (64 * a + b) + c) + d) + e < 0x8000_0000
    ensures Encode(64 * (64 * (64 * (64 * a + b) + c) + d) + e) == [0xf8 + a, 0x80 + b, 0x80 + c, 0x80 + d, 0x80 + e]
  {
    Digits5(a, b, c, d, e);
  }

  lemma Encoded6(a: nat, b: nat, c: nat, d: nat, e: nat, f: nat)
    requires a < 2 && b < 64 && c < 64 && d < 64 && e < 64 && f < 64
    requires 64 * (64 * (64 * (64 * (64 * a + b) + c) + d) + e) + f >= 0x400_0000
    ensures 64 * (64 * (64 * (64 * (64 * a + b) + c) + d) + e) + f < 0x8000_0000
    ensures Encode(64 * (64 * (64 * (64 * (64 * a + b) + c) + d) + e) + f)
         == [0xfc + a, 0x80 + b, 0x80 + c, 0x80 + d, 0x80 + e, 0x80 + f]
  {
    Digits6(a, b, c, d, e, f);
  }

  lemma GatherUnfolds(s: seq<byte>, n: nat, v: nat)
    requires n <= 5 && n + 1 <= |s|
    ensures n == 0 ==> Gather(s, 1, n, v) == v
    ensures n == 1 ==> Gather(s, 1, n, v) == 64 * v + s[1] % 64
    ensures n == 2 ==> Gather(s, 1, n, v) == 64 * (64 * v + s[1] % 64) + s[2] % 64
    ensures n == 3 ==> Gather(s, 1, n, v) == 64 * (64 * (64 * v + s[1] % 64) + s[2] % 64) + s[3] % 64
    ensures n == 4 ==>
      Gather(s, 1, n, v) == 64 * (64 * (64 * (64 * v + s[1] % 64) + s[2] % 64) + s[3] % 64) + s[4] % 64
    ensures n == 5 ==>
      Gather(s, 1, n, v)
      == 64 * (64 * (64 * (64 * (64 * v + s[1] % 64) + s[2] % 64) + s[3] % 64) + s[4] % 64) + s[5] % 64
  {
    if n > 0 {
      GatherUnfolds(s, n - 1, v);
    }
  }

  lemma Digits2(a: nat, b: nat)
    requires b < 64
    ensures var v := 64 * a + b; v / 64 == a && v % 64 == b
  {
  }

  lemma Digits3(a: nat, b: nat, c: nat)
    requires b < 64 && c < 64
    ensures var v := 64 * (64 * a + b) + c; v / 0x1000 == a && v / 64 % 64 == b && v % 64 == c
  {
    Digits2(a, b);
    assert (64 * (64 * a + b) + c) / 64 == 64 * a + b;
  }

  lemma Digits4(a: nat, b: nat, c: nat, d: nat)
    requires b < 64 && c < 64 && d < 64
    ensures var v := 64 * (64 * (64 * a + b) + c) + d;
            v / 0x4_0000 == a && v / 0x1000 % 64 == b && v / 64 % 64 == c && v % 64 == d
  {
    Digits3(a, b, c);
    var v := 64 * (64 * (64 * a + b) + c) + d;
    assert v / 64 == 64 * (64 * a + b) + c;
    assert v / 0x1000 == v / 64 / 64 && v / 0x4_0000 == v / 64 / 0x1000;
  }

  lemma Digits5(a: nat, b: nat, c: nat, d: nat, e: nat)
    requires b < 64 && c < 64 && d < 64 && e < 64
    ensures var v := 64 * (64 * (64 * (64 * a + b) + c) + d) + e;
            v / 0x100_0000 == a && v / 0x4_0000 % 64 == b && v / 0x1000 % 64 == c && v / 64 % 64 == d && v % 64 == e
  {
    Digits4(a, b, c, d);
    var v := 64 * (64 * (64 * (64 * a + b) + c) + d) + e;
    assert v / 64 == 64 * (64 * (64 * a + b) + c) + d;
    assert v / 0x1000 == v / 64 / 64 && v / 0x4_0000 == v / 64 / 0x1000 && v / 0x100_0000 == v / 64 / 0x4_0000;
  }

  lemma Digits6(a: nat, b: nat, c: nat, d: nat, e: nat, f: nat)
    requires b < 64 && c < 64 && d < 64 && e < 64 && f < 64
    ensures var v := 64 * (64 * (64 * (64 * (64 * a + b) + c) + d) + e) + f;
            v / 0x4000_0000 == a && v / 0x100_0000 % 64 == b && v / 0x4_0000 % 64 == c && v / 0x1000 % 64 == d
            && v / 64 % 64 == e && v % 64 == f
  {
    Digits5(a, b, c, d, e);
    var v := 64 * (64 * (64 * (64 * (64 * a + b) + c) + d) + e) + f;
    assert v / 64 == 64 * (64 * (64 * (64 * a + b) + c) + d) + e;
    assert v / 0x1000 == v / 64 / 64 && v / 0x4_0000 == v / 64 / 0x1000 && v / 0x100_0000 == v / 64 / 0x4_0000
        && v / 0x4000_0000 == v / 64 / 0x100_0000;
  }

  /** An encoded character is read back, whatever follows it. */
  lemma DecodesBack(v: nat, rest: seq<byte>)
    requires v < 0x8000_0000
    ensures var b := Encode(v) + rest;
            var n := |Encode(v)| - 1;
            && Following(b[0]) == Some(n) && AllContinue(b, 1, n)
            && Gather(b, 1, n, LeadBits(b[0])) == v && v >= Least(n) && b[n + 1..] == rest
  {
    hide Gather, LeadBits, Encode, Following;
    var e, b, n := Encode(v), Encode(v) + rest, |Encode(v)| - 1;
    assert forall k :: 0 <= k <= n ==> b[k] == e[k];
    Shape(v);
    GatherUnfolds(b, n, LeadBits(b[0]));
    Reassemble(v);
  }

  /** The bytes of an encoded character: how many, and the digits they carry. */
  predicate Shaped(v: nat)
    requires v < 0x8000_0000
  {
    var e := Encode(v);
    var n := |e| - 1;
    && n <= 5 && Following(e[0]) == Some(n) && v >= Least(n)
    && (forall k :: 1 <= k <= n ==> IsContinuation(e[k]))
    && LeadBits(e[0]) == v / (if n == 0 then 1 else if n == 1 then 64 else if n == 2 then 0x1000
                              else if n == 3 then 0x4_0000 else if n == 4 then 0x100_0000 else 0x4000_0000)
    && (n >= 1 ==> e[n] % 64 == v % 64)
    && (n >= 2 ==> e[n - 1] % 64 == v / 64 % 64)
    && (n >= 3 ==> e[n - 2] % 64 == v / 0x1000 % 64)
    && (n >= 4 ==> e[n - 3] % 64 == v / 0x4_0000 % 64)
    && (n >= 5 ==> e[n - 4] % 64 == v / 0x100_0000 % 64)
  }

  lemma Shape(v: nat)
    requires v < 0x8000_0000
    ensures Shaped(v)
  {
    hide Shaped;
    if v <= 0x7f {
      Shape1(v);
    } else if v <= 0x7ff {
      Shape2(v);
    } else if v <= 0xffff {
      Shape3(v);
    } else if v <= 0x1f_ffff {
      Shape4(v);
    } else if v <= 0x3ff_ffff {
      Shape5(v);
    } else {
      Shape6(v);
    }
  }

  lemma Shape1(v: nat)
    requires v < 0x8000_0000 && v <= 0x7f
    ensures Shaped(v)
  {
  }

  lemma Shape2(v: nat)
    requires v < 0x8000_0000 && 0x80 <= v <= 0x7ff
    ensures Shaped(v)
  {
    var e := Encode(v);
    assert |e| == 2;
    forall k | 1 <= k <= 1
      ensures IsContinuation(e[k])
    {
    }
  }

  lemma Shape3(v: nat)
    requires v < 0x8000_0000 && 0x800 <= v <= 0xffff
    ensures Shaped(v)
  {
    var e := Encode(v);
    assert |e| == 3;
    forall k | 1 <= k <= 2
      ensures IsContinuation(e[k])
    {
    }
  }

  lemma Shape4(v: nat)
    requires v < 0x8000_0000 && 0x1_0000 <= v <= 0x1f_ffff
    ensures Shaped(v)
  {
    var e := Encode(v);
    assert |e| == 4;
    forall k | 1 <= k <= 3
      ensures IsContinuation(e[k])
    {
    }
  }

  lemma Shape5(v: nat)
    requires v < 0x8000_0000 && 0x20_0000 <= v <= 0x3ff_ffff
    ensures Shaped(v)
  {
    var e := Encode(v);
    assert |e| == 5;
    forall k | 1 <= k <= 4
      ensures IsContinuation(e[k])
    {
    }
  }

  lemma Shape6(v: nat)
    requires v < 0x8000_0000 && 0x400_0000 <= v
    ensures Shaped(v)
  {
    var e := Encode(v);
    assert |e| == 6;
    forall k | 1 <= k <= 5
      ensures IsContinuation(e[k])
    {
    }
  }

  lemma Reassemble(v: nat)
    ensures v == 64 * (v / 64) + v % 64
    ensures v / 64 == 64 * (v / 0x1000) + v / 64 % 64
    ensures v / 0x1000 == 64 * (v / 0x4_0000) + v / 0x1000 % 64
    ensures v / 0x4_0000 == 64 * (v / 0x100_0000) + v / 0x4_0000 % 64
    ensures v / 0x100_0000 == 64 * (v / 0x4000_0000) + v / 0x100_0000 % 64
  {
    assert v / 0x1000 == v / 64 / 64;
    assert v / 0x4_0000 == v / 0x1000 / 64;
    assert v / 0x100_0000 == v / 0x4_0000 / 64;
    assert v / 0x4000_0000 == v / 0x100_0000 / 64;
  }

  // ----- whole strings -----

  /** The decoder accepts exactly the concatenations of encoded acceptable characters, and
      returns exactly those characters. */
  lemma {:induction false} DecodesIff(s: seq<byte>, top: int, vs: seq<int>)
    requires 0x7f <= top <= TOP31
    ensures DecodeAll(s, top) == Some(vs) <==> AllAcceptable(vs, top) && EncodeAll(vs) == s
    decreases |s| + |vs|
  {
    hide Encode, Gather, LeadBits, Least;
    if DecodeAll(s, top) == Some(vs) && |s| > 0 {
      var n := Following(s[0]).value;
      EncodesBack(s, n);
      AsciiAcceptable(s, n, top);
      DecodesIff(s[n + 1..], top, vs[1..]);
      assert s == s[..n + 1] + s[n + 1..];
      assert forall k :: 0 < k < |vs| ==> vs[k] == vs[1..][k - 1];
    }
    if AllAcceptable(vs, top) && EncodeAll(vs) == s && |vs| > 0 {
      var rest := EncodeAll(vs[1..]);
      DecodesBack(vs[0], rest);
      var n := |Encode(vs[0])| - 1;
      assert [vs[0]] + vs[1..] == vs;
      DecodesIff(rest, top, vs[1..]);
    }
  }

  lemma AsciiAcceptable(s: seq<byte>, n: nat, top: int)
    requires 0x7f <= top && |s| > 0 && Following(s[0]) == Some(n) && n + 1 <= |s|
    ensures n == 0 ==> Acceptable(Gather(s, 1, n, LeadBits(s[0])), top)
  {
  }

  // ----- the table of section 2 of RFC 2279 -----

  /** For one to six bytes: the least and the greatest character, and the lead byte's pattern. */
  const LOW := [0, 0x80, 0x800, 0x1_0000, 0x20_0000, 0x400_0000]
  const HIGH := [0x7f, 0x7ff, 0xffff, 0x1f_ffff, 0x3ff_ffff, 0x7fff_ffff]
  const LEAD := [0, 0xc0, 0xe0, 0xf0, 0xf8, 0xfc]

  /** The bits that the lead byte and the first `k` bytes after it carry. */
  function Carried(e: seq<byte>, lead: nat, k: nat): int
    requires k < |e|
  {
    if k == 0 then e[0] - lead else 64 * Carried(e, lead, k - 1) + e[k] - 0x80
  }

  /** One row of the table: length, bit patterns of the bytes, and the character's bits. */
  predicate Row(e: seq<byte>, n: nat, v: nat)
    requires n < 6
  {
    && |e| == n + 1
    && LEAD[n] <= e[0] < (if n == 0 then 0x80 else if n == 5 then 0xfe else LEAD[n + 1])
    && (forall k :: 1 <= k <= n ==> 0x80 <= e[k] < 0xc0)
    && Carried(e, LEAD[n], n) == v
  }

  lemma EncodingTable(v: nat, n: nat)
    requires n < 6 && LOW[n] <= v <= HIGH[n]
    ensures Row(Encode(v), n, v)
  {
    hide Encode, LeadBits, Following, Carried, Least;
    var e := Encode(v);
    EncodedLength(v, n);
    Shape(v);
    LeadRow(e[0], n);
    forall k | 1 <= k <= n
      ensures 0x80 <= e[k] < 0xc0
    {
      assert IsContinuation(e[k]);
    }
    CarriedSteps(e, LEAD[n], n);
    CarriedAll(e, LEAD[n], n, v);
  }

  lemma EncodedLength(v: nat, n: nat)
    requires n < 6 && LOW[n] <= v <= HIGH[n]
    ensures |Encode(v)| == n + 1
  {
    hide Continuation;
  }

  lemma LeadRow(c: byte, n: nat)
    requires n < 6 && Following(c) == Some(n)
    ensures LEAD[n] <= c < if n == 0 then 0x80 else if n == 5 then 0xfe else LEAD[n + 1]
    ensures c - LEAD[n] == LeadBits(c)
  {
  }

  /** The groups of six bits, most significant first. */
  lemma CarriedAll(e: seq<byte>, lead: nat, n: nat, v: nat)
    requires n < |e| && n < 6 && forall k :: 1 <= k <= n ==> 0x80 <= e[k] < 0xc0
    requires Carried(e, lead, 0) == v / (if n == 0 then 1 else if n == 1 then 64 else if n == 2 then 0x1000
                                         else if n == 3 then 0x4_0000 else if n == 4 then 0x100_0000 else 0x4000_0000)
    requires forall k :: 1 <= k <= n ==> Carried(e, lead, k) == 64 * Carried(e, lead, k - 1) + e[k] - 0x80
    requires n >= 1 ==> e[n] % 64 == v % 64
    requires n >= 2 ==> e[n - 1] % 64 == v / 64 % 64
    requires n >= 3 ==> e[n - 2] % 64 == v / 0x1000 % 64
    requires n >= 4 ==> e[n - 3] % 64 == v / 0x4_0000 % 64
    requires n >= 5 ==> e[n - 4] % 64 == v / 0x100_0000 % 64
    ensures Carried(e, lead, n) == v
  {
    hide Carried;
    Reassemble(v);
    forall k | 1 <= k <= n
      ensures Carried(e, lead, k) == 64 * Carried(e, lead, k - 1) + e[k] % 64
    {
      GroupOf(e[k]);
    }
  }

  lemma GroupOf(c: byte)
    requires 0x80 <= c < 0xc0
    ensures c - 0x80 == c % 64
  {
  }

  lemma CarriedSteps(e: seq<byte>, lead: nat, n: nat)
    requires n < |e| && n < 6
    ensures Carried(e, lead, 0) == e[0] - lead
    ensures forall k :: 1 <= k <= n ==> Carried(e, lead, k) == 64 * Carried(e, lead, k - 1) + e[k] - 0x80
  {
  }

  /** The widest decoder, with its limits as numbers. */
  lemma DecodesTo31Bits(s: seq<byte>, vs: seq<int>)
    ensures DecodeAll(s, TOP31) == Some(vs)
       <==> && (forall k :: 0 <= k < |vs| ==> 0 <= vs[k] <= 0x7fff_ffff && !(0xd800 <= vs[k] <= 0xdfff))
            && EncodeAll(vs) == s
  {
    hide DecodeAll, EncodeAll;
    DecodesIff(s, TOP31, vs);
  }

  // ----- writing through a cursor -----

  /** Bytes at a cursor: `*q++ = ...`, WRITESHORT, WRITELONG and WRITECHAR. */
  method Write(op: array<byte>, at: nat, e: seq<byte>)
    requires at + |e| <= op.Length
    modifies op
    ensures op[..at] == old(op[..at]) && op[at..at + |e|] == e && op[at + |e|..] == old(op[at + |e|..])
  {
    var k := 0;
    while k < |e|
      invariant 0 <= k <= |e|
      invariant op[..at] == old(op[..at]) && op[at..at + k] == e[..k] && op[at + k..] == old(op[at + k..])
    {
      op[at + k] := e[k];
      k := k + 1;
    }
  }
}
