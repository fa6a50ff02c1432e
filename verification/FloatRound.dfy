/** ieee_round of float.c: rounding a mantissa off after a number of bits, in place. */
module FloatRound {
  import opened Powers
  import opened Limbs
  import opened FloatShift
  import Bits

  datatype Rounding = Near | Down | Up | Zero

  // ----- the specification, on whole numbers -----

  /** `s` without the bits below the half bit `half`. */
  function Chop(s: int, half: nat): int
    requires half > 0
  {
    s - s % half
  }

  /** Whether the code adds the half bit.  In nearest mode: the half bit is set and either
      something below it is, or the last kept bit is. */
  predicate AddsHalf(rc: Rounding, minus: bool, s: int, half: nat)
    requires half > 0
  {
    match rc
    case Near => s / half % 2 == 1 && (s % half != 0 || s / (2 * half) % 2 == 1)
    case Zero => false
    case Up => !minus && s % (2 * half) != 0
    case Down => minus && s % (2 * half) != 0
  }

  /** The whole mantissa after rounding; an overflow out of the top limb wraps to zero. */
  function RoundedMantissa(rc: Rounding, minus: bool, s: int, half: nat): int
    requires half > 0
  {
    (Chop(s, half) + if AddsHalf(rc, minus, s, half) then half else 0) % Weight(MANT_LIMBS)
  }

  /** The half bit's weight when `bits` bits are kept. */
  function Half(bits: nat): (h: nat)
    requires bits < 192
    ensures h > 0
  {
    Pow2(191 - bits)
  }

  /** A number rounded to a multiple of `d`, halves to even, as the multiple. */
  function RoundHalfEven(n: int, d: nat): int
    requires d > 0
  {
    var q, r := n / d, n % d;
    if 2 * r > d || (2 * r == d && q % 2 == 1) then q + 1 else q
  }

  /** It is the nearest multiple; when two are equally near it is the even one. */
  lemma RoundHalfEvenIsNearest(n: int, d: nat, k: int)
    requires d > 0 && k != RoundHalfEven(n, d)
    ensures Distance(n, RoundHalfEven(n, d) * d) <= Distance(n, k * d)
    ensures Distance(n, RoundHalfEven(n, d) * d) == Distance(n, k * d) ==> RoundHalfEven(n, d) % 2 == 0
  {
    NearerMultiple(n, d, n / d, n % d, RoundHalfEven(n, d), k);
  }

  lemma NearerMultiple(n: int, d: nat, q0: int, r: int, q: int, k: int)
    requires 0 <= r < d && k != q && n == q0 * d + r
    requires q == if 2 * r > d || (2 * r == d && q0 % 2 == 1) then q0 + 1 else q0
    ensures Distance(n, q * d) <= Distance(n, k * d)
    ensures Distance(n, q * d) == Distance(n, k * d) ==> q % 2 == 0
  {
    assert (q0 + 1) * d == q0 * d + d;
    if k > q {
      MulMonotone(d, q + 1, k);
      assert (q + 1) * d == q * d + d;
    } else {
      MulMonotone(d, k, q - 1);
      assert (q - 1) * d == q * d - d;
    }
    CompareDistances(n, d, q0 * d, r, q * d, k * d);
  }

  lemma CompareDistances(n: int, d: int, x: int, r: int, best: int, other: int)
    requires n == x + r && 0 <= r < d && (other >= best + d || other <= best - d)
    requires (best == x && 2 * r <= d) || (best == x + d && 2 * r >= d)
    ensures Distance(n, best) <= Distance(n, other)
    ensures Distance(n, best) == Distance(n, other) ==> 2 * r == d
  {
  }

  function Distance(a: int, b: int): nat {
    if a <= b then b - a else a - b
  }

  /** In nearest mode the kept bits become exactly the half-to-even rounding. */
  lemma NearestIsHalfEven(minus: bool, s: nat, half: nat)
    requires half > 0 && Chop(s, half) + half < Weight(MANT_LIMBS)
    ensures RoundedMantissa(Near, minus, s, half) / (2 * half) == RoundHalfEven(s, 2 * half)
  {
    hide Weight;
    var b, t := s / half % 2, s % half;
    RoundedQuotient(Near, minus, s, half);
    HalfSplit(s, half);
    assert b * half == if b == 1 then half else 0;
  }

  /** The kept part grows by one exactly when the half bit is set and one more is added. */
  lemma RoundedQuotient(rc: Rounding, minus: bool, s: nat, half: nat)
    requires half > 0 && Chop(s, half) + half < Weight(MANT_LIMBS)
    ensures RoundedMantissa(rc, minus, s, half) / (2 * half)
         == s / (2 * half) + if AddsHalf(rc, minus, s, half) && s / half % 2 == 1 then 1 else 0
  {
    hide Weight, AddsHalf;
    HalfSplit(s, half);
    var u := if AddsHalf(rc, minus, s, half) then 1 else 0;
    var v := Chop(s, half) + if AddsHalf(rc, minus, s, half) then half else 0;
    SmallMod(v, Weight(MANT_LIMBS));
    QuotientOfMultiple(s, half, u, v);
  }

  lemma QuotientOfMultiple(s: nat, half: nat, u: int, v: int)
    requires half > 0 && (u == 0 || u == 1) && v == s - s % half + if u == 1 then half else 0
    ensures v / (2 * half) == (s / half + u) / 2
  {
    assert s == (s / half) * half + s % half;
    var h := s / half + u;
    assert v == h * half by { assert (s / half + 1) * half == (s / half) * half + half; }
    var a, b := h / 2, h % 2;
    assert (2 * a + b) * half == a * (2 * half) + b * half;
    assert b * half == if b == 1 then half else 0;
    DivModUnique(v, 2 * half, a, b * half);
  }

  lemma SmallMod(v: int, w: nat)
    requires 0 <= v < w
    ensures v % w == v
  {
  }

  lemma HalfSplit(s: nat, half: nat)
    requires half > 0
    ensures s / half == 2 * (s / (2 * half)) + s / half % 2
    ensures s % (2 * half) == (s / half % 2) * half + s % half
  {
    var a, b := s / half / 2, s / half % 2;
    assert s == (s / half) * half + s % half;
    assert s == (2 * a + b) * half + s % half == a * (2 * half) + (b * half + s % half);
    DivModUnique(s, 2 * half, a, b * half + s % half);
  }

  /**
    Rounding away from zero adds only the half bit, so the kept part moves exactly when
    that bit was set.  It is the correct directed rounding if and only if the half bit is
    set or nothing below the kept part is.
   */
  lemma DirectedCorrectIff(rc: Rounding, minus: bool, s: nat, half: nat)
    requires half > 0 && Chop(s, half) + half < Weight(MANT_LIMBS)
    requires rc == if minus then Down else Up
    ensures RoundedMantissa(rc, minus, s, half) / (2 * half) == Ceiling(s, 2 * half)
       <==> (s / half % 2 == 1 || s % (2 * half) == 0)
  {
    hide Weight;
    RoundedQuotient(rc, minus, s, half);
    HalfSplit(s, half);
    assert s / half % 2 == 1 ==> (s / half % 2) * half == half;
  }

  function Ceiling(n: int, d: nat): int
    requires d > 0
  {
    if n % d == 0 then n / d else n / d + 1
  }

  /** Whether the mode rounds this sign away from zero. */
  predicate Away(rc: Rounding, minus: bool) {
    rc == if minus then Down else Up
  }

  /** The right multiple of `d` in every mode (sections 4.3.1 and 4.3.2 of IEEE 754-2008). */
  function RoundTo(rc: Rounding, minus: bool, n: int, d: nat): int
    requires d > 0
  {
    if rc == Near then RoundHalfEven(n, d) else if Away(rc, minus) then Ceiling(n, d) else n / d
  }

  /** The multiple of `2 * half` that the code arrives at. */
  function Reached(rc: Rounding, minus: bool, s: int, half: nat): int
    requires half > 0
  {
    s / (2 * half) + if AddsHalf(rc, minus, s, half) && s / half % 2 == 1 then 1 else 0
  }

  /** Neither a multiple nor what is one unit above it moves. */
  lemma ReachedNear(rc: Rounding, minus: bool, q: nat, r: nat, half: nat)
    requires half > 1 && r <= 1
    ensures Reached(rc, minus, q * (2 * half) + r, half) == q
    ensures (q * (2 * half) + r) / half % 2 == 0 && (q * (2 * half) + r) % (2 * half) == r
  {
    var s := q * (2 * half) + r;
    DivModUnique(s, 2 * half, q, r);
    HalfSplit(s, half);
    assert (s / half % 2) * half == if s / half % 2 == 1 then half else 0;
  }

  /** Which multiples are the right ones: all but those that `DirectedCorrectIff` excludes. */
  lemma ReachedIsRightIff(rc: Rounding, minus: bool, s: nat, half: nat)
    requires half > 0
    ensures Reached(rc, minus, s, half) == RoundTo(rc, minus, s, 2 * half)
       <==> (Away(rc, minus) ==> s / half % 2 == 1 || s % (2 * half) == 0)
  {
    HalfSplit(s, half);
    assert (s / half % 2) * half == if s / half % 2 == 1 then half else 0;
  }

  /**
    A family of failures in every format: one unit below the last kept bit, rounded up,
    leaves the kept bits `q` as they were.
   */
  lemma DirectedRoundingFails(bits: nat, q: nat)
    requires 0 < bits <= 128 && q < Pow2(bits)
    ensures var half := Half(bits);
            var s := q * (2 * half) + 1;
            RoundedMantissa(Up, false, s, half) / (2 * half) == q && Ceiling(s, 2 * half) == q + 1
  {
    hide Pow2, Weight, AddsHalf, RoundedMantissa, Half, Chop;
    var half := Half(bits);
    HalfRoom(bits, q);
    ReachedNear(Up, false, q, 1, half);
    ChopNear(q, half);
    RoundedQuotient(Up, false, q * (2 * half) + 1, half);
    DivModUnique(q * (2 * half) + 1, 2 * half, q, 1);
  }

  lemma ChopNear(q: nat, half: nat)
    requires half > 1
    ensures Chop(q * (2 * half) + 1, half) == q * (2 * half)
  {
    assert q * (2 * half) == 2 * q * half;
    DivModUnique(q * (2 * half) + 1, half, 2 * q, 1);
  }

  lemma HalfRoom(bits: nat, q: nat)
    requires 0 < bits <= 128 && q < Pow2(bits)
    ensures Half(bits) > 1 && q * (2 * Half(bits)) + Half(bits) < Weight(MANT_LIMBS)
  {
    hide Pow2, Weight;
    var half := Half(bits);
    Pow2Monotone(1, 191 - bits);
    PowOfOne();
    Pow2Add(bits, 192 - bits);
    TwicePow2(191 - bits);
    WeightIsPow2(6);
    MulMonotone(2 * half, q + 1, Pow2(bits));
    assert (q + 1) * (2 * half) == q * (2 * half) + 2 * half;
  }

  lemma PowOfOne()
    ensures Pow2(0) == 1 && Pow2(1) == 2 * Pow2(0)
  {
  }

  // ----- limbs and bits -----

  /** The mantissa around bit position 32 * i + p. */
  lemma SplitAt(s: seq<int>, i: nat, p: nat)
    requires |s| == MANT_LIMBS && i < MANT_LIMBS && p < 32
    requires forall k :: 0 <= k < MANT_LIMBS ==> 0 <= s[k] < BASE
    ensures var bit, half, w := Pow2(31 - p), Half(32 * i + p), Weight(5 - i);
            && half == bit * w
            && BigVal(s) % half == (s[i] % bit) * w + BigVal(s[i + 1..])
            && BigVal(s) / half == BigVal(s[..i]) * Pow2(p + 1) + s[i] / bit
  {
    hide BigVal, Weight, Pow2;
    HeadMiddleTail(s, i);
    BigValBounds(s[i + 1..]);
    Pow2Add(31 - p, p + 1);
    WeightIsPow2(1);
    WeightIsPow2(5 - i);
    Pow2Add(31 - p, 32 * (5 - i));
    assert 31 - p + 32 * (5 - i) == 191 - (32 * i + p);
    WeightStep(5 - i);
    Positive(31 - p);
    SplitArithmetic(BigVal(s), BigVal(s[..i]), s[i], BigVal(s[i + 1..]), Weight(5 - i), Pow2(31 - p), Pow2(p + 1),
                    BASE);
  }

  lemma WeightStep(n: nat)
    ensures Weight(n) > 0 && Weight(n + 1) == BASE * Weight(n) && Weight(1) == BASE
  {
    assert Weight(1) == BASE * Weight(0);
  }

  lemma HeadMiddleTail(s: seq<int>, i: nat)
    requires |s| == MANT_LIMBS && i < MANT_LIMBS
    ensures BigVal(s) == BigVal(s[..i]) * (BASE * Weight(5 - i)) + s[i] * Weight(5 - i) + BigVal(s[i + 1..])
  {
    hide BigVal, Weight;
    BigValSplit(s, i);
    HeadOf(s[i..]);
    assert s[i..][1..] == s[i + 1..];
    WeightStep(5 - i);
  }

  lemma HeadOf(s: seq<int>)
    requires |s| > 0
    ensures BigVal(s) == s[0] * Weight(|s| - 1) + BigVal(s[1..])
  {
    BigValSplit(s, 1);
    assert s[..1] == [s[0]] && [s[0]][..0] == [];
  }

  lemma SplitArithmetic(v: int, head: int, x: nat, low: nat, w: nat, bit: nat, top: nat, base: nat)
    requires v == head * (base * w) + x * w + low && low < w && bit > 0 && base == bit * top
    ensures bit * w > 0
    ensures v % (bit * w) == (x % bit) * w + low
    ensures v / (bit * w) == head * top + x / bit
  {
    var q, r := x / bit, x % bit;
    assert x == q * bit + r;
    MulMonotone(w, r, bit - 1);
    MulMonotone(w, 0, r);
    MulStrict(w, 0, bit);
    assert head * (base * w) == (head * top) * (bit * w);
    assert x * w == q * (bit * w) + r * w;
    DivModUnique(v, bit * w, head * top + q, r * w + low);
  }

  /** The bits tested by the code are the bits of the whole number. */
  lemma BitOfWhole(s: seq<int>, pos: nat)
    requires |s| == MANT_LIMBS && pos < 192
    requires forall k :: 0 <= k < MANT_LIMBS ==> 0 <= s[k] < BASE
    ensures s[pos / 32] / Pow2(31 - pos % 32) % 2 == BigVal(s) / Half(pos) % 2
  {
    hide BigVal, Weight, Pow2;
    var i, p := pos / 32, pos % 32;
    SplitAt(s, i, p);
    assert 32 * i + p == pos;
    TwicePow2(p);
    EvenPlus(BigVal(s[..i]), Pow2(p), s[i] / Pow2(31 - p));
  }

  lemma TwicePow2(p: nat)
    ensures Pow2(p + 1) == 2 * Pow2(p)
  {
  }

  lemma EvenPlus(a: int, b: int, x: int)
    ensures (a * (2 * b) + x) % 2 == x % 2
  {
    assert a * (2 * b) == 2 * (a * b);
  }

  /** Bit `pos` in big-endian numbering: `test_bit`. */
  method TestBit(mant: array<Limb>, pos: nat) returns (b: bool)
    requires mant.Length == MANT_LIMBS && pos < 192
    ensures b <==> BigVal(mant[..]) / Half(pos) % 2 == 1
  {
    hide BigVal, Half;
    BitOfWhole(mant[..], pos);
    Positive(31 - pos % 32);
    return mant[pos / 32] / Pow2(31 - pos % 32) % 2 == 1;
  }

  lemma {:induction false} OrNonZero(a: nat, b: nat)
    ensures Bits.Or(a, b) != 0 <==> a != 0 || b != 0
  {
    if a + b != 0 && a % 2 == 0 && b % 2 == 0 {
      OrNonZero(a / 2, b / 2);
    }
  }

  lemma {:induction false} ZeroIffAllZero(s: seq<int>)
    requires forall k :: 0 <= k < |s| ==> 0 <= s[k] < BASE
    ensures BigVal(s) == 0 <==> forall k :: 0 <= k < |s| ==> s[k] == 0
  {
    if |s| > 0 {
      BigValBounds(s[..|s| - 1]);
      ZeroIffAllZero(s[..|s| - 1]);
    }
  }

  /** ROUND_COLLECT_BITS: whether any bit below `2 * bit` of limb `i`, or of a later limb, is set. */
  method CollectBits(mant: array<Limb>, i: nat, mask: nat) returns (m: nat)
    requires mant.Length == MANT_LIMBS && i < MANT_LIMBS && mask > 0
    ensures m != 0 <==> mant[i] % mask != 0 || BigVal(mant[i + 1..]) != 0
  {
    hide BigVal, Bits.Or;
    m := mant[i] % mask;
    var j := i + 1;
    while j < MANT_LIMBS
      invariant i < j <= MANT_LIMBS
      invariant m != 0 <==> mant[i] % mask != 0 || exists k :: i < k < j && mant[k] != 0
    {
      OrNonZero(m, mant[j]);
      m := Bits.Or(m, mant[j]);
      j := j + 1;
    }
    ZeroIffAllZero(mant[i + 1..]);
    assert (exists k :: i < k < MANT_LIMBS && mant[k] != 0) ==> BigVal(mant[i + 1..]) != 0 by {
      if k :| i < k < MANT_LIMBS && mant[k] != 0 {
        assert mant[i + 1..][k - (i + 1)] != 0;
      }
    }
  }

  /** The number with limb `i` replaced by `y` and everything below it cleared. */
  ghost predicate Truncated(s': seq<int>, s: seq<int>, i: nat, y: int)
    requires |s| == MANT_LIMBS && i < MANT_LIMBS
  {
    |s'| == MANT_LIMBS && s'[..i] == s[..i] && s'[i] == y && forall k :: i < k < MANT_LIMBS ==> s'[k] == 0
  }

  method ClearFrom(mant: array<Limb>, i: nat, y: Limb)
    requires mant.Length == MANT_LIMBS && i < MANT_LIMBS
    modifies mant
    ensures Truncated(mant[..], old(mant[..]), i, y)
  {
    mant[i] := y;
    var j := i + 1;
    while j < MANT_LIMBS
      invariant i < j <= MANT_LIMBS
      invariant mant[..i] == old(mant[..i]) && mant[i] == y
      invariant forall k :: i < k < j ==> mant[k] == 0
    {
      mant[j] := 0;
      j := j + 1;
    }
  }

  lemma TruncatedValue(s': seq<int>, s: seq<int>, i: nat, p: nat, y: int, add: int)
    requires |s| == MANT_LIMBS && i < MANT_LIMBS && p < 32
    requires forall k :: 0 <= k < MANT_LIMBS ==> 0 <= s[k] < BASE
    requires Truncated(s', s, i, y)
    requires y == s[i] - s[i] % Pow2(31 - p) + add
    ensures BigVal(s') == Chop(BigVal(s), Half(32 * i + p)) + add * Weight(5 - i)
  {
    hide BigVal, Weight, Pow2, Half;
    SplitAt(s, i, p);
    HeadMiddleTail(s, i);
    HeadMiddleTail(s', i);
    AllZero(s'[i + 1..]);
    ChopArithmetic(BigVal(s[..i]) * (BASE * Weight(5 - i)), s[i], s[i] % Pow2(31 - p), add, Weight(5 - i));
  }

  lemma ChopArithmetic(h: int, x: int, r: int, add: int, w: int)
    ensures h + (x - r + add) * w == h + x * w - r * w + add * w
  {
  }

  /** ROUND_ABS_DOWN. */
  method AbsDown(mant: array<Limb>, i: nat, p: nat)
    requires mant.Length == MANT_LIMBS && i < MANT_LIMBS && p < 32
    modifies mant
    ensures BigVal(mant[..]) == Chop(old(BigVal(mant[..])), Half(32 * i + p))
  {
    hide BigVal, Pow2, Chop, Half;
    Positive(31 - p);
    ghost var s := mant[..];
    var x := mant[i];
    ModBounds(x, Pow2(31 - p));
    ClearFrom(mant, i, x - x % Pow2(31 - p));
    TruncatedValue(mant[..], s, i, p, x - x % Pow2(31 - p), 0);
  }

  lemma ModBounds(x: nat, d: nat)
    requires d > 0
    ensures 0 <= x % d <= x && x % d < d
  {
    assert x == (x / d) * d + x % d;
  }

  lemma BumpLimb(x: Limb, p: nat)
    requires p < 32
    ensures var bit := Pow2(31 - p); bit > 0 && 0 < x - x % bit + bit <= BASE
  {
    hide Pow2;
    Positive(31 - p);
    Positive(p + 1);
    Pow2Add(31 - p, p + 1);
    WeightIsPow2(1);
    var bit := Pow2(31 - p);
    BumpArithmetic(x, bit, Pow2(p + 1), BASE);
  }

  lemma BumpArithmetic(x: nat, bit: nat, top: nat, base: nat)
    requires bit > 0 && base == bit * top && x < base
    ensures 0 < x - x % bit + bit <= base
  {
    var q := x / bit;
    assert x - x % bit == q * bit;
    MulCancelBelow(q, bit, x % bit, top);
    MulMonotone(bit, q + 1, top);
    MulMonotone(bit, 0, q);
  }

  /** ROUND_ABS_UP, with its carry loop; the result tells whether the top limb is zero. */
  method AbsUp(mant: array<Limb>, i0: nat, p: nat) returns (carry: bool)
    requires mant.Length == MANT_LIMBS && i0 < MANT_LIMBS && p < 32
    modifies mant
    ensures BigVal(mant[..])
         == (Chop(old(BigVal(mant[..])), Half(32 * i0 + p)) + Half(32 * i0 + p)) % Weight(MANT_LIMBS)
    ensures carry <==> mant[0] == 0
  {
    hide BigVal, Pow2, Chop, Half, Weight;
    ghost var s := mant[..];
    var x, bit := mant[i0], Pow2(31 - p);
    BumpLimb(x, p);
    var y := (x - x % bit + bit) % BASE;
    ClearFrom(mant, i0, y);
    ghost var target := Chop(BigVal(s), Half(32 * i0 + p)) + Half(32 * i0 + p);
    BumpValue(mant[..], s, i0, p, y);
    var i := i0;
    while i > 0 && mant[i] == 0
      invariant 0 <= i < MANT_LIMBS
      invariant BigVal(mant[..]) + (if mant[i] == 0 then Weight(MANT_LIMBS - i) else 0) == target
    {
      ghost var t := mant[..];
      CarryValue(t, i - 1);
      i := i - 1;
      mant[i] := (mant[i] + 1) % BASE;
      assert mant[..] == t[i := (t[i] + 1) % BASE];
    }
    FinalCarry(mant[..], i, target);
    return mant[0] == 0;
  }

  lemma BumpValue(s': seq<int>, s: seq<int>, i: nat, p: nat, y: int)
    requires |s| == MANT_LIMBS && i < MANT_LIMBS && p < 32
    requires forall k :: 0 <= k < MANT_LIMBS ==> 0 <= s[k] < BASE
    requires y == (s[i] - s[i] % Pow2(31 - p) + Pow2(31 - p)) % BASE
    requires Truncated(s', s, i, y)
    ensures BigVal(s') + (if y == 0 then Weight(MANT_LIMBS - i) else 0)
         == Chop(BigVal(s), Half(32 * i + p)) + Half(32 * i + p)
  {
    hide BigVal, Pow2, Chop, Half, Weight;
    BumpLimb(s[i], p);
    SplitAt(s, i, p);
    WeightStep(5 - i);
    var bit := Pow2(31 - p);
    var full := s[i] - s[i] % bit + bit;
    if full == BASE {
      TruncatedValue(s', s, i, p, 0, bit - BASE);
      WrapArithmetic(bit, Weight(5 - i));
    } else {
      SmallMod(full, BASE);
      TruncatedValue(s', s, i, p, full, bit);
    }
  }

  lemma WrapArithmetic(bit: int, w: int)
    ensures (bit - BASE) * w + BASE * w == bit * w
  {
  }

  lemma CarryValue(t: seq<int>, k: nat)
    requires |t| == MANT_LIMBS && k < MANT_LIMBS && 0 <= t[k] < BASE
    ensures var y := (t[k] + 1) % BASE;
            BigVal(t[k := y]) + (if y == 0 then Weight(MANT_LIMBS - k) else 0) == BigVal(t) + Weight(5 - k)
  {
    hide BigVal, Weight;
    WeightStep(5 - k);
    var y := (t[k] + 1) % BASE;
    BigValUpdate(t, k, y - t[k]);
    if t[k] == BASE - 1 {
      assert y - t[k] == 1 - BASE;
      WrapArithmetic(1, Weight(5 - k));
    } else {
      assert y - t[k] == 1;
    }
  }

  lemma FinalCarry(s: seq<int>, i: nat, target: int)
    requires |s| == MANT_LIMBS && i < MANT_LIMBS && (i == 0 || s[i] != 0)
    requires forall k :: 0 <= k < MANT_LIMBS ==> 0 <= s[k] < BASE
    requires BigVal(s) + (if s[i] == 0 then Weight(MANT_LIMBS - i) else 0) == target
    ensures BigVal(s) == target % Weight(MANT_LIMBS)
  {
    hide BigVal, Weight;
    BigValBounds(s);
    WeightStep(5);
    if s[i] == 0 {
      DivModUnique(target, Weight(MANT_LIMBS), 1, BigVal(s));
    } else {
      DivModUnique(target, Weight(MANT_LIMBS), 0, BigVal(s));
    }
  }

  /** What the collected bits say about the number as a whole. */
  lemma CollectedTail(s: seq<int>, i: nat, p: nat)
    requires |s| == MANT_LIMBS && i < MANT_LIMBS && p < 32
    requires forall k :: 0 <= k < MANT_LIMBS ==> 0 <= s[k] < BASE
    ensures var bit, half := Pow2(31 - p), Half(32 * i + p);
            && bit > 0
            && s[i] / bit % 2 == BigVal(s) / half % 2
            && (BigVal(s) % half != 0 <==> s[i] % bit != 0 || BigVal(s[i + 1..]) != 0)
            && (BigVal(s) % (2 * half) != 0 <==> s[i] % (2 * bit) != 0 || BigVal(s[i + 1..]) != 0)
  {
    hide BigVal, Pow2, Half, Weight;
    var bit, half := Pow2(31 - p), Half(32 * i + p);
    Positive(31 - p);
    BigValBounds(s);
    BigValBounds(s[i + 1..]);
    WeightStep(5 - i);
    SplitAt(s, i, p);
    BitOfWhole(s, 32 * i + p);
    HalfSplit(BigVal(s), half);
    HalfSplit(s[i], bit);
    SumZero(s[i] % bit, Weight(5 - i), BigVal(s[i + 1..]));
    SumZero(s[i] / bit % 2, bit, s[i] % bit);
    SumZero(BigVal(s) / half % 2, half, BigVal(s) % half);
  }

  lemma SumZero(a: nat, w: nat, b: nat)
    requires w > 0
    ensures a * w + b == 0 <==> a == 0 && b == 0
  {
    if a > 0 { MulMonotone(w, 1, a); }
  }

  lemma ClearedBit(x: nat, bit: nat)
    requires bit > 0 && x / bit % 2 == 1
    ensures 0 <= x - bit && (x - bit) % (2 * bit) == x % bit
  {
    HalfSplit(x, bit);
    assert x == x / (2 * bit) * (2 * bit) + x % (2 * bit);
    DivModUnique(x - bit, 2 * bit, x / (2 * bit), x % bit);
  }
}
