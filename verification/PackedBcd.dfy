/** to_packed_bcd of float.c: a digit string to ten bytes of packed decimal. */
module PackedBcd {
  import opened DecimalDigits
  import opened Powers

  /** Digits and separators only. */
  predicate Spelled(t: string) {
    forall k :: 0 <= k < |t| ==> IsDigit(t[k]) || t[k] == '_'
  }

  /** The number a digit string denotes; separators do not count. */
  function Number(t: string): int {
    if |t| == 0 then 0
    else if t[|t| - 1] == '_' then Number(t[..|t| - 1])
    else 10 * Number(t[..|t| - 1]) + DigitOf(t[|t| - 1])
  }

  /** The digits, least significant first, as the backward scan meets them. */
  function Low(t: string): (d: seq<int>)
    ensures |d| <= |t|
  {
    if |t| == 0 then [] else Low(t[1..]) + if t[0] == '_' then [] else [DigitOf(t[0])]
  }

  function Value(d: seq<int>): int {
    if |d| == 0 then 0 else d[0] + 10 * Value(d[1..])
  }

  lemma {:induction false} ValueAppend(d: seq<int>, x: int)
    ensures Value(d + [x]) == Value(d) + Pow10(|d|) * x
  {
    if |d| > 0 {
      assert (d + [x])[1..] == d[1..] + [x];
      ValueAppend(d[1..], x);
    } else {
      assert (d + [x])[1..] == [];
    }
  }

  lemma {:induction false} ValueSplit(d: seq<int>, k: nat)
    requires k <= |d|
    ensures Value(d) == Value(d[..k]) + Pow10(k) * Value(d[k..])
  {
    if k == 0 {
      assert d[0..] == d;
    } else {
      ValueSplit(d[1..], k - 1);
      assert d[1..][..k - 1] == d[..k][1..] && d[1..][k - 1..] == d[k..];
      assert 10 * (Pow10(k - 1) * Value(d[k..])) == Pow10(k) * Value(d[k..]);
    }
  }

  /** A character in front is worth its digit at the weight of the digits behind it. */
  lemma {:induction false} NumberPrepend(c: char, t: string)
    ensures Number([c] + t) == Number(t) + if c == '_' then 0 else DigitOf(c) * Pow10(|Low(t)|)
  {
    if |t| == 0 {
      assert ([c] + t)[..0] == [];
    } else {
      var n := |t| - 1;
      assert ([c] + t)[..n + 1] == [c] + t[..n];
      NumberPrepend(c, t[..n]);
      LowLength(t);
      LastDigit(c, t, Pow10(|Low(t[..n])|), Pow10(|Low(t)|));
    }
  }

  lemma LastDigit(c: char, t: string, w: int, w': int)
    requires |t| > 0 && w' == if t[|t| - 1] == '_' then w else 10 * w
    requires ([c] + t)[..|t|] == [c] + t[..|t| - 1]
    requires Number([c] + t[..|t| - 1]) == Number(t[..|t| - 1]) + if c == '_' then 0 else DigitOf(c) * w
    ensures Number([c] + t) == Number(t) + if c == '_' then 0 else DigitOf(c) * w'
  {
    hide Low, Number;
    NumberStep(t);
    NumberStep([c] + t);
    assert ([c] + t)[|t|] == t[|t| - 1];
    TenTimes(DigitOf(c), w);
  }

  lemma NumberStep(t: string)
    requires |t| > 0
    ensures Number(t) == if t[|t| - 1] == '_' then Number(t[..|t| - 1])
                         else 10 * Number(t[..|t| - 1]) + DigitOf(t[|t| - 1])
  {
  }

  lemma TenTimes(x: int, w: int)
    ensures x * (10 * w) == 10 * (x * w)
  {
  }

  lemma {:induction false} LowLength(t: string)
    requires |t| > 0
    ensures |Low(t)| == |Low(t[..|t| - 1])| + if t[|t| - 1] == '_' then 0 else 1
  {
    if |t| == 1 {
      assert t[1..] == [] && t[..0] == [];
    } else {
      LowLength(t[1..]);
      assert t[..|t| - 1][1..] == t[1..][..|t| - 2];
    }
  }

  /** The backward scan collects the digits of the number. */
  lemma {:induction false} ValueOfLow(t: string)
    ensures Value(Low(t)) == Number(t)
  {
    hide Low, Value, Number, Pow10;
    if |t| > 0 {
      var c, rest := t[0], t[1..];
      assert t == [c] + rest;
      ValueOfLow(rest);
      NumberPrepend(c, rest);
      LowStep(t);
      assert Low(rest) + [] == Low(rest);
      ValueAppend(Low(rest), DigitOf(c));
    } else {
      NothingLow();
      assert t == "";
    }
  }

  lemma NothingLow()
    ensures Value(Low("")) == Number("")
  {
  }

  /** Packed decimal: two digits to a byte, the low digit in the low nibble. */
  function Decoded(b: seq<int>): int {
    if |b| == 0 then 0 else b[0] % 16 + 10 * (b[0] / 16) + 100 * Decoded(b[1..])
  }

  /** Both nibbles are decimal digits. */
  predicate Packed(x: int) {
    0 <= x < 256 && x % 16 <= 9 && x / 16 <= 9
  }

  /** Byte `k` of the packing of digits `d`; digits past the end are zero. */
  function PackedByte(d: seq<int>, k: nat): int {
    (if 2 * k < |d| then d[2 * k] else 0) + 16 * (if 2 * k + 1 < |d| then d[2 * k + 1] else 0)
  }

  ghost predicate IsPacking(b: seq<int>, d: seq<int>) {
    forall k :: 0 <= k < |b| ==> b[k] == PackedByte(d, k)
  }

  /** The packed bytes denote the number modulo the digits they have room for. */
  lemma {:induction false} PackingDecodes(b: seq<int>, d: seq<int>)
    requires IsPacking(b, d) && AreDigits(d)
    ensures forall k :: 0 <= k < |b| ==> Packed(b[k])
    ensures Decoded(b) == Value(if |d| <= 2 * |b| then d else d[..2 * |b|])
  {
    hide Value, Packed, PackedByte, Decoded;
    DecodedStep(b);
    if |b| > 0 {
      var d' := if |d| <= 2 then [] else d[2..];
      forall k | 0 <= k < |b| - 1
        ensures b[1..][k] == PackedByte(d', k)
      {
        NextPackedByte(d, k);
      }
      PackingDecodes(b[1..], d');
      assert b[0] == PackedByte(d, 0);
      var u := if |d| <= 2 * |b| then d else d[..2 * |b|];
      var u' := if |d'| <= 2 * (|b| - 1) then d' else d'[..2 * (|b| - 1)];
      DropTwo(d, |b|);
      FirstPackedByte(d, u);
      TwoDigits(u, u', b[0]);
    } else {
      assert (if |d| <= 0 then d else d[..0]) == [];
      ValueStep([]);
    }
  }

  lemma DropTwo(d: seq<int>, n: nat)
    requires n > 0
    ensures var d' := if |d| <= 2 then [] else d[2..];
            var u := if |d| <= 2 * n then d else d[..2 * n];
            (if |d'| <= 2 * (n - 1) then d' else d'[..2 * (n - 1)]) == if |u| <= 2 then [] else u[2..]
  {
    if |d| > 2 * n {
      assert d[2..][..2 * (n - 1)] == d[..2 * n][2..];
    }
  }

  lemma DecodedStep(b: seq<int>)
    ensures Decoded(b) == if |b| == 0 then 0 else b[0] % 16 + 10 * (b[0] / 16) + 100 * Decoded(b[1..])
  {
  }

  lemma ValueStep(d: seq<int>)
    ensures Value(d) == if |d| == 0 then 0 else d[0] + 10 * Value(d[1..])
  {
  }

  lemma NextPackedByte(d: seq<int>, k: nat)
    ensures PackedByte(if |d| <= 2 then [] else d[2..], k) == PackedByte(d, k + 1)
  {
  }

  lemma FirstPackedByte(d: seq<int>, u: seq<int>)
    requires |u| <= |d| && u == d[..|u|] && (|u| < |d| ==> |u| >= 2)
    ensures PackedByte(u, 0) == PackedByte(d, 0)
  {
  }

  lemma TwoDigits(u: seq<int>, u': seq<int>, x: int)
    requires AreDigits(u) && u' == (if |u| <= 2 then [] else u[2..]) && x == PackedByte(u, 0)
    ensures Value(u) == x % 16 + 10 * (x / 16) + 100 * Value(u')
    ensures Packed(x)
  {
    hide Value;
    ValueStep(u);
    ValueStep([]);
    if |u| >= 2 {
      assert u[1..][1..] == u[2..];
      assert u' == u[2..];
      ValueStep(u[1..]);
      Nibbles(u[0], u[1]);
    } else if |u| == 1 {
      assert u[1..] == [];
      Nibbles(u[0], 0);
    }
  }

  lemma Nibbles(x: int, y: int)
    requires 0 <= x <= 9 && 0 <= y <= 9
    ensures (x + 16 * y) % 16 == x && (x + 16 * y) / 16 == y
  {
  }

  lemma {:induction false} ValueBound(d: seq<int>)
    requires AreDigits(d)
    ensures 0 <= Value(d) < Pow10(|d|)
  {
    if |d| > 0 {
      ValueBound(d[1..]);
    }
  }

  lemma {:induction false} Pow10Monotone(a: nat, b: nat)
    requires a <= b
    ensures Pow10(a) <= Pow10(b)
  {
    if a < b {
      Pow10Monotone(a, b - 1);
    }
  }

  /** Keeping the eighteen low digits is reduction modulo 10 to the 18. */
  lemma TruncationIsModulo(d: seq<int>)
    requires AreDigits(d)
    ensures Value(if |d| <= 18 then d else d[..18]) == Value(d) % Pow10(18)
  {
    hide Pow10, Value;
    if |d| <= 18 {
      ValueBound(d);
      Pow10Monotone(|d|, 18);
      DivModUnique(Value(d), Pow10(18), 0, Value(d));
    } else {
      ValueSplit(d, 18);
      ValueBound(d[..18]);
      DivModUnique(Value(d), Pow10(18), Value(d[18..]), Value(d[..18]));
    }
  }

  lemma LowStep(t: string)
    ensures Low(t) == if |t| == 0 then [] else Low(t[1..]) + if t[0] == '_' then [] else [DigitOf(t[0])]
  {
  }

  lemma SinglePackedByte(d: seq<int>, k: nat)
    requires AreDigits(d)
    ensures 2 * k + 1 == |d| ==> PackedByte(d, k) == d[2 * k]
    ensures 2 * k >= |d| ==> PackedByte(d, k) == 0
  {
  }

  /** The state of the backward scan after the digits `d`: `n` whole bytes written or
      dropped, `tv` an unpaired digit. */
  ghost predicate Scanned(d: seq<int>, n: int, tv: int, b: seq<int>) {
    && n == |d| / 2
    && tv == (if |d| % 2 == 1 then d[|d| - 1] else -1)
    && |b| == (if n < 9 then n else 9)
    && forall k :: 0 <= k < |b| ==> b[k] == PackedByte(d, k)
  }

  lemma ScannedDigit(d: seq<int>, x: int, n: int, tv: int, b: seq<int>)
    requires Scanned(d, n, tv, b) && AreDigits(d) && 0 <= x <= 9
    ensures tv < 0 ==> Scanned(d + [x], n, x, b)
    ensures tv >= 0 ==> Scanned(d + [x], n + 1, -1, if n < 9 then b + [tv + 16 * x] else b)
  {
  }

  /**
    Packs the digits of `t`, scanned from the end, into `result`.  Anything but digits and
    separators, or another format than the ten-byte one, is refused.
   */
  method ToPackedBcd(t: string, negative: bool, result: array<int>, bytes: nat) returns (ok: bool)
    requires result.Length >= 10
    modifies result
    ensures ok <==> bytes == 10 && Spelled(t)
    ensures bytes != 10 ==> result[..] == old(result[..])
    ensures ok ==> Decoded(result[..9]) == Number(t) % Pow10(18)
    ensures ok ==> forall k :: 0 <= k < 9 ==> Packed(result[k])
    ensures ok ==> result[9] == if negative then 0x80 else 0
    ensures result[10..] == old(result[10..])
  {
    hide Pow10, Value, Decoded, Number, Packed, PackedByte, Low;
    LowStep([]);
    if bytes != 10 {
      return false;
    }
    var n, tv, p, w := 0, -1, |t|, 0;
    ghost var d: seq<int> := [];
    while p > 0
      invariant 0 <= p <= |t| && 0 <= w <= 9
      invariant forall k :: p <= k < |t| ==> IsDigit(t[k]) || t[k] == '_'
      invariant d == Low(t[p..]) && AreDigits(d)
      invariant Scanned(d, n, tv, result[..w])
      invariant result[10..] == old(result[10..])
    {
      var c := t[p - 1];
      p := p - 1;
      assert t[p..][1..] == t[p + 1..];
      LowStep(t[p..]);
      if IsDigit(c) {
        ScannedDigit(d, DigitOf(c), n, tv, result[..w]);
        d := d + [DigitOf(c)];
        if tv < 0 {
          tv := DigitOf(c);
        } else {
          if n < 9 {
            result[w] := tv + 16 * DigitOf(c);
            w := w + 1;
          }
          n := n + 1;
          tv := -1;
        }
      } else if c != '_' {
        return false;
      }
    }
    assert t[0..] == t;
    if tv >= 0 {
      if n < 9 {
        SinglePackedByte(d, n);
        result[w] := tv;
        w := w + 1;
      }
      n := n + 1;
    }
    while n < 9
      invariant 0 <= n && |d| <= 2 * n && w == if n < 9 then n else 9
      invariant forall k :: 0 <= k < w ==> result[k] == PackedByte(d, k)
      invariant result[10..] == old(result[10..])
    {
      SinglePackedByte(d, n);
      result[w] := 0;
      w := w + 1;
      n := n + 1;
    }
    result[w] := if negative then 0x80 else 0;
    Finish(t, d, result[..9]);
    return true;
  }

  lemma Finish(t: string, d: seq<int>, b: seq<int>)
    requires |b| == 9 && d == Low(t) && AreDigits(d) && IsPacking(b, d)
    ensures Decoded(b) == Number(t) % Pow10(18)
    ensures forall k :: 0 <= k < 9 ==> Packed(b[k])
  {
    hide Decoded, Value, Pow10, Number, Low, PackedByte, Packed;
    PackingDecodes(b, d);
    TruncationIsModulo(d);
    ValueOfLow(t);
  }
}
