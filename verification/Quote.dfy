/** quote.c: what quoted strings mean, and that quoting and unquoting are inverse. */
module Quote {
  import opened Utf8

  const SINGLE: byte := 39
  const DOUBLE: byte := 34
  const BACK: byte := 96
  const BACKSLASH: byte := 92

  // ----- digits -----

  predicate IsDigit(c: byte, base: nat) {
    if base == 8 then 48 <= c <= 55
    else 48 <= c <= 57 || 65 <= c <= 70 || 97 <= c <= 102
  }

  /** numvalue */
  function DigitValue(c: byte): int {
    if c >= 97 then c - 97 + 10 else if c >= 65 then c - 65 + 10 else c - 48
  }

  /** How many digits stand at `p`, at most `most`. */
  function Run(s: seq<byte>, p: nat, most: nat, base: nat): (n: nat)
    ensures n <= most && (p <= |s| ==> p + n <= |s|)
    decreases most
  {
    if most == 0 || p >= |s| || !IsDigit(s[p], base) then 0 else 1 + Run(s, p + 1, most - 1, base)
  }

  function ValueOf(s: seq<byte>, p: nat, n: nat, base: nat): int
    requires p + n <= |s|
  {
    if n == 0 then 0 else base * ValueOf(s, p, n - 1, base) + DigitValue(s[p + n - 1])
  }

  predicate AllDigits(s: seq<byte>, p: nat, n: nat, base: nat)
    requires p + n <= |s|
  {
    forall k :: p <= k < p + n ==> IsDigit(s[k], base)
  }

  /** The run is as long as the digits go, within its bound. */
  lemma {:induction false} RunIs(s: seq<byte>, p: nat, most: nat, base: nat, n: nat)
    requires n <= most && p + n <= |s| && AllDigits(s, p, n, base)
    requires n == most || p + n == |s| || !IsDigit(s[p + n], base)
    ensures Run(s, p, most, base) == n
    decreases n
  {
    if n > 0 {
      assert IsDigit(s[p], base);
      RunIs(s, p + 1, most - 1, base, n - 1);
    }
  }

  lemma {:induction false} RunDigits(s: seq<byte>, p: nat, most: nat, base: nat)
    requires p <= |s|
    ensures AllDigits(s, p, Run(s, p, most, base), base)
    decreases most
  {
    if most > 0 && p < |s| && IsDigit(s[p], base) {
      RunDigits(s, p + 1, most - 1, base);
      assert AllDigits(s, p + 1, Run(s, p + 1, most - 1, base), base);
    }
  }

  /** A 32-bit signed accumulator. */
  function Int32(x: int): (v: int)
    ensures -0x8000_0000 <= v < 0x8000_0000
  {
    var m := x % 0x1_0000_0000;
    if m >= 0x8000_0000 then m - 0x1_0000_0000 else m
  }

  lemma Int32Accumulates(x: int, d: int)
    ensures Int32(16 * Int32(x) + d) == Int32(16 * x + d)
  {
  }

  // ----- escapes -----

  datatype Escape = Code(value: byte) | Octal | Hex | Unicode(digits: nat) | Itself

  /** The escape that the character after a backslash introduces. */
  function EscapeOf(c: byte): Escape {
    if c == 97 then Code(7)            // a
    else if c == 98 then Code(8)       // b
    else if c == 101 then Code(27)     // e
    else if c == 102 then Code(12)     // f
    else if c == 110 then Code(10)     // n
    else if c == 114 then Code(13)     // r
    else if c == 116 then Code(9)      // t
    else if c == 118 then Code(11)     // v
    else if c == 117 then Unicode(4)   // u
    else if c == 85 then Unicode(8)    // U
    else if c == 120 || c == 88 then Hex
    else if 48 <= c <= 55 then Octal
    else Itself
  }

  /** Where the escape whose letter is at `e` ends. */
  function EscapeEnd(s: seq<byte>, e: nat): (p: nat)
    requires e < |s|
    ensures e < p <= |s|
  {
    match EscapeOf(s[e])
    case Octal => if Run(s, e, 3, 8) == 0 then e + 1 else e + Run(s, e, 3, 8)
    case Hex => e + 1 + Run(s, e + 1, 2, 16)
    case Unicode(n) => e + 1 + Run(s, e + 1, n, 16)
    case _ => e + 1
  }

  /** What the escape stands for; without digits the letter stands for itself. */
  function EscapeBytes(s: seq<byte>, e: nat): seq<byte>
    requires e < |s|
  {
    match EscapeOf(s[e])
    case Code(v) => [v]
    case Octal => [ValueOf(s, e, Run(s, e, 3, 8), 8) % 256]
    case Hex =>
      var n := Run(s, e + 1, 2, 16);
      if n == 0 then [s[e]] else [ValueOf(s, e + 1, n, 16) % 256]
    case Unicode(most) =>
      var n := Run(s, e + 1, most, 16);
      if n == 0 then [s[e]] else Encode(Int32(ValueOf(s, e + 1, n, 16)))
    case Itself => [s[e]]
  }

  // ----- the meaning of a quoted string -----

  datatype Dequoted = Dequoted(bytes: seq<byte>, end: nat)

  function Prefixed(b: seq<byte>, d: Dequoted): Dequoted {
    d.(bytes := b + d.bytes)
  }

  /** A back-quoted string from `p` on: its bytes, and where its quote or its NUL is. */
  function Body(s: seq<byte>, p: nat): Dequoted
    requires p <= |s|
    decreases |s| - p
  {
    if p == |s| || s[p] == 0 || s[p] == BACK then Dequoted([], p)
    else if s[p] != BACKSLASH then Prefixed([s[p]], Body(s, p + 1))
    else if p + 1 == |s| || s[p + 1] == 0 then Dequoted([], p + 1)
    else Prefixed(EscapeBytes(s, p + 1), Body(s, EscapeEnd(s, p + 1)))
  }

  /** A string in plain quotes `q`, or without any (`q` zero). */
  function Plain(s: seq<byte>, p: nat, q: byte): Dequoted
    requires p <= |s|
    decreases |s| - p
  {
    if p == |s| || s[p] == 0 || s[p] == q then Dequoted([], p)
    else Prefixed([s[p]], Plain(s, p + 1, q))
  }

  predicate IsQuote(c: byte) {
    c == SINGLE || c == DOUBLE || c == BACK
  }

  /** The bytes a string stands for, and the end that is reported. */
  function Dequote(s: seq<byte>): Dequoted {
    if |s| == 0 || s[0] == 0 then Dequoted([], 0)
    else if s[0] == BACK then Body(s, 1)
    else if IsQuote(s[0]) then Plain(s, 1, s[0])
    else Plain(s, 0, 0)
  }

  // ----- an escape never yields more bytes than it takes -----

  function Power16(n: nat): nat {
    if n == 0 then 1 else 16 * Power16(n - 1)
  }

  lemma {:induction false} ValueBound(s: seq<byte>, p: nat, n: nat)
    requires p + n <= |s| && AllDigits(s, p, n, 16)
    ensures 0 <= ValueOf(s, p, n, 16) < Power16(n)
  {
    if n > 0 {
      assert forall k :: p <= k < p + n - 1 ==> IsDigit(s[k], 16);
      ValueBound(s, p, n - 1);
      assert IsDigit(s[p + n - 1], 16);
    }
  }

  lemma SmallPowers()
    ensures Power16(1) == 0x10 && Power16(2) == 0x100 && Power16(3) == 0x1000 && Power16(4) == 0x1_0000
    ensures Power16(5) == 0x10_0000
  {
    assert Power16(0) == 1;
    assert Power16(1) == 16 * Power16(0);
    assert Power16(2) == 16 * Power16(1);
    assert Power16(3) == 16 * Power16(2);
    assert Power16(4) == 16 * Power16(3);
    assert Power16(5) == 16 * Power16(4);
  }

  lemma EncodeLength(v: int)
    requires v < 0x8000_0000
    ensures v < 0x80 ==> |Encode(v)| <= 1
    ensures v < 0x800 ==> |Encode(v)| <= 2
    ensures v < 0x1_0000 ==> |Encode(v)| <= 3
    ensures v < 0x20_0000 ==> |Encode(v)| <= 4
  {
  }

  lemma EscapeFits(s: seq<byte>, b: nat)
    requires b + 1 < |s|
    ensures b + |EscapeBytes(s, b + 1)| <= EscapeEnd(s, b + 1)
  {
    hide Encode, ValueOf, Run, Int32, Power16;
    var e := b + 1;
    match EscapeOf(s[e]) {
      case Unicode(most) =>
        var n := Run(s, e + 1, most, 16);
        RunDigits(s, e + 1, most, 16);
        ValueBound(s, e + 1, n);
        var v := ValueOf(s, e + 1, n, 16);
        SmallPowers();
        EncodeLength(Int32(v));
        if v < 0x8000_0000 {
          SmallInt32(v);
        }
      case _ =>
    }
  }

  lemma SmallInt32(v: nat)
    requires v < 0x8000_0000
    ensures Int32(v) == v
  {
  }
}
