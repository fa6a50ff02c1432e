/** ieee_shr of float.c: shifting a mantissa right in place. */
module FloatShift {
  import opened Powers
  import opened Limbs
  import Bits

  /** What one limb of the shifted mantissa is made of: `(m << sl) | n` in 32 bits. */
  function Joined(above: int, here: int, sr: nat): int
    requires 0 < sr < 32
  {
    (above * Pow2(32 - sr)) % BASE + here / Pow2(sr)
  }

  /** `r` is `o` moved right by `sr` bits, as far as the first `n` limbs go. */
  ghost predicate IsShifted(r: seq<int>, o: seq<int>, sr: nat, n: nat)
    requires 0 < sr < 32
  {
    && n <= |r| && n <= |o|
    && (n > 0 ==> r[0] == o[0] / Pow2(sr))
    && forall k :: 0 < k < n ==> r[k] == Joined(o[k - 1], o[k], sr)
  }

  lemma {:induction false} ShiftedValue(r: seq<int>, o: seq<int>, sr: nat, n: nat)
    requires 0 < sr < 32 && 0 < n && IsShifted(r, o, sr, n)
    requires forall k :: 0 <= k < |o| ==> 0 <= o[k] < BASE
    ensures BigVal(o[..n]) == BigVal(r[..n]) * Pow2(sr) + o[n - 1] % Pow2(sr)
  {
    hide Pow2, BigVal;
    BigValPrefixStep(r, n - 1);
    BigValPrefixStep(o, n - 1);
    Positive(sr);
    if n == 1 {
      Empty(r[..0]);
      Empty(o[..0]);
      assert BigVal(o[..n]) == o[0] && BigVal(r[..n]) == r[0] == o[0] / Pow2(sr);
      assert o[0] == (o[0] / Pow2(sr)) * Pow2(sr) + o[0] % Pow2(sr);
    } else {
      ShiftedValue(r, o, sr, n - 1);
      JoinedValue(o[n - 2], o[n - 1], sr);
      ShiftArithmetic(BigVal(r[..n - 1]), o[n - 2] % Pow2(sr), o[n - 1], o[n - 1] % Pow2(sr),
                      Pow2(sr), Joined(o[n - 2], o[n - 1], sr), BigVal(o[..n - 1]));
    }
  }

  lemma Positive(n: nat)
    ensures Pow2(n) > 0
  {
  }

  lemma Empty(s: seq<int>)
    requires s == []
    ensures BigVal(s) == 0
  {
  }

  lemma ShiftArithmetic(rv: int, rem: int, x: int, xrem: int, d: int, joined: int, ov: int)
    requires ov == rv * d + rem
    requires joined * d == rem * BASE + x - xrem
    ensures ov * BASE + x == (rv * BASE + joined) * d + xrem
  {
    assert (rv * BASE + joined) * d == BASE * (rv * d) + joined * d;
  }

  /** The low bits of the limb above move in at the top. */
  lemma JoinedValue(above: Limb, here: Limb, sr: nat)
    requires 0 < sr < 32
    ensures Joined(above, here, sr) * Pow2(sr) == (above % Pow2(sr)) * BASE + here - here % Pow2(sr)
    ensures 0 <= here / Pow2(sr) < Pow2(32 - sr)
    ensures (above * Pow2(32 - sr)) % BASE == (above % Pow2(sr)) * Pow2(32 - sr)
  {
    hide Pow2;
    Positive(sr);
    Positive(32 - sr);
    WeightIsPow2(1);
    Pow2Add(sr, 32 - sr);
    JoinedArithmetic(above, here, Pow2(sr), Pow2(32 - sr), BASE);
  }

  lemma JoinedArithmetic(above: nat, here: nat, a: nat, b: nat, base: nat)
    requires a > 0 && b > 0 && base == a * b && here < base
    ensures ((above * b) % base + here / a) * a == (above % a) * base + here - here % a
    ensures 0 <= here / a < b
    ensures (above * b) % base == (above % a) * b
  {
    var q, r := above / a, above % a;
    assert above == q * a + r;
    assert above * b == q * base + r * b;
    MulStrict(b, r, a);
    MulMonotone(b, 0, r);
    DivModUnique(above * b, base, q, r * b);
    assert here == (here / a) * a + here % a;
    assert (r * b) * a == r * base;
    MulCancelBelow(here / a, a, here % a, b);
  }

  lemma MulCancelBelow(q: int, a: nat, r: nat, b: nat)
    requires a > 0 && q * a + r < a * b && q * a + r >= 0 && r < a
    ensures 0 <= q < b
  {
    MulCancel(a, q, b);
    if q < 0 { MulMonotone(a, q, -1); }
  }

  /** Zero limbs in front do not count. */
  lemma {:induction false} LeadingZeroLimbs(s: seq<int>, n: nat)
    requires n <= |s| && forall k :: 0 <= k < n ==> s[k] == 0
    ensures BigVal(s) == BigVal(s[n..])
  {
    hide BigVal;
    BigValSplit(s, n);
    AllZero(s[..n]);
  }

  /** The new limbs: zeros, then the old ones moved right by `offs` places and `sr` bits. */
  ghost predicate ShiftedRight(r: seq<int>, o: seq<int>, offs: nat, sr: nat)
    requires offs < MANT_LIMBS && sr < 32
  {
    && |r| == |o| == MANT_LIMBS
    && (forall k :: 0 <= k < offs ==> r[k] == 0)
    && if sr == 0 then r[offs..] == o[..MANT_LIMBS - offs] else IsShifted(r[offs..], o, sr, MANT_LIMBS - offs)
  }

  lemma ShiftedRightValue(r: seq<int>, o: seq<int>, i: nat)
    requires 0 < i < 192 && ShiftedRight(r, o, i / 32, i % 32)
    requires forall k :: 0 <= k < |o| ==> 0 <= o[k] < BASE
    ensures BigVal(r) == BigVal(o) / Pow2(i)
  {
    hide BigVal, Weight, Pow2;
    var offs, sr := i / 32, i % 32;
    var n := MANT_LIMBS - offs;
    LeadingZeroLimbs(r, offs);
    BigValSplit(o, n);
    BigValBounds(o[n..]);
    WeightIsPow2(offs);
    Positive(32 * offs);
    DivModUnique(BigVal(o), Pow2(32 * offs), BigVal(o[..n]), BigVal(o[n..]));
    if sr != 0 {
      ShiftedValue(r[offs..], o, sr, n);
      assert r[offs..][..n] == r[offs..];
      Positive(sr);
      DivModUnique(BigVal(o[..n]), Pow2(sr), BigVal(r[offs..]), o[n - 1] % Pow2(sr));
      DivTwice(BigVal(o), Pow2(32 * offs), Pow2(sr));
      Pow2Add(32 * offs, sr);
      assert i == 32 * offs + sr;
    } else {
      assert i == 32 * offs;
    }
  }

  /** The loop that moves whole limbs. */
  method MoveLimbs(mant: array<Limb>, offs: nat) returns (j: int)
    requires mant.Length == MANT_LIMBS && 0 < offs
    modifies mant
    ensures j == (if offs < MANT_LIMBS then offs else MANT_LIMBS) - 1
    ensures mant[j + 1..] == old(mant[..MANT_LIMBS - 1 - j])
  {
    j := MANT_LIMBS - 1;
    while j >= offs
      invariant (if offs < MANT_LIMBS then offs else MANT_LIMBS) - 1 <= j < MANT_LIMBS
      invariant forall k :: 0 <= k <= j ==> mant[k] == old(mant[k])
      invariant forall k :: j < k < MANT_LIMBS ==> mant[k] == old(mant[k - offs])
    {
      mant[j] := mant[j - offs];
      j := j - 1;
    }
  }

  /** `(m << sl) | n` in 32 bits. */
  function Merged(m: Limb, n: nat, sr: nat): int
    requires 0 < sr < 32
  {
    Bits.Or(m * Pow2(32 - sr) % BASE, n)
  }

  /** The loop that joins neighbouring limbs. */
  method JoinLimbs(mant: array<Limb>, offs: nat, sr: nat) returns (j: int)
    requires mant.Length == MANT_LIMBS && offs < MANT_LIMBS && 0 < sr < 32
    modifies mant
    ensures j == offs - 1
    ensures IsShifted(mant[offs..], old(mant[..]), sr, MANT_LIMBS - offs)
  {
    hide Pow2, Joined, Merged;
    ghost var o := mant[..];
    ShiftFits(mant[MANT_LIMBS - 1 - offs], sr);
    var n: Limb := mant[MANT_LIMBS - 1 - offs] / Pow2(sr);
    j := MANT_LIMBS - 1;
    while j > offs
      invariant offs <= j < MANT_LIMBS
      invariant mant[..j + 1] == o[..j + 1]
      invariant n == o[j - offs] / Pow2(sr)
      invariant forall k :: j < k < MANT_LIMBS ==> mant[k] == Joined(o[k - offs - 1], o[k - offs], sr)
    {
      var m := mant[j - offs - 1];
      assert m == o[j - offs - 1];
      JoinFits(m, o[j - offs], sr);
      ShiftFits(m, sr);
      mant[j] := Merged(m, n, sr);
      n := m / Pow2(sr);
      j := j - 1;
    }
    mant[j] := n;
    j := j - 1;
    Collect(mant[..], o, offs, sr);
  }

  lemma Collect(r: seq<int>, o: seq<int>, offs: nat, sr: nat)
    requires |r| == |o| == MANT_LIMBS && offs < MANT_LIMBS && 0 < sr < 32
    requires r[offs] == o[0] / Pow2(sr)
    requires forall k :: offs < k < MANT_LIMBS ==> r[k] == Joined(o[k - offs - 1], o[k - offs], sr)
    ensures IsShifted(r[offs..], o, sr, MANT_LIMBS - offs)
  {
    hide Joined, Pow2;
    var t := r[offs..];
    forall k | 0 < k < MANT_LIMBS - offs
      ensures t[k] == Joined(o[k - 1], o[k], sr)
    {
      assert t[k] == r[offs + k];
    }
  }

  lemma ShiftFits(x: Limb, sr: nat)
    requires 0 < sr < 32
    ensures Pow2(sr) > 0 && Pow2(32 - sr) > 0 && 0 <= x / Pow2(sr) < BASE
  {
    JoinedValue(0, x, sr);
    WeightIsPow2(1);
    Pow2Monotone(32 - sr, 32);
  }

  lemma JoinFits(m: Limb, x: Limb, sr: nat)
    requires 0 < sr < 32
    ensures 0 <= x / Pow2(sr)
    ensures 0 <= Joined(m, x, sr) < BASE
    ensures Merged(m, x / Pow2(sr), sr) == Joined(m, x, sr)
  {
    hide Pow2, Bits.Or;
    JoinedValue(m, x, sr);
    Positive(sr);
    Positive(32 - sr);
    WeightIsPow2(1);
    Pow2Add(sr, 32 - sr);
    JoinFitsArithmetic(m % Pow2(sr), x / Pow2(sr), Pow2(sr), Pow2(32 - sr), BASE);
    Bits.OrDisjoint((m % Pow2(sr)) * Pow2(32 - sr), x / Pow2(sr), 32 - sr);
  }

  lemma JoinFitsArithmetic(r: nat, h: nat, a: nat, b: nat, base: nat)
    requires r < a && h < b && base == a * b
    ensures 0 <= r * b && r * b + h < base && (r * b) % b == 0
  {
    MulMonotone(b, r + 1, a);
    MulMonotone(b, 0, r);
    DivModUnique(r * b, b, r, 0);
  }

  /** Nothing is left after a shift by the whole mantissa. */
  lemma AllShiftedOut(r: seq<int>, o: seq<int>, i: nat)
    requires |r| == |o| == MANT_LIMBS && i >= 192
    requires forall k :: 0 <= k < MANT_LIMBS ==> r[k] == 0 && 0 <= o[k] < BASE
    ensures BigVal(r) == BigVal(o) / Pow2(i)
  {
    hide BigVal, Weight, Pow2;
    AllZero(r);
    BigValBounds(o);
    WeightIsPow2(MANT_LIMBS);
    Pow2Monotone(192, i);
    DivModUnique(BigVal(o), Pow2(i), 0, BigVal(o));
  }

  /** The counts for which ieee_shr stays inside the mantissa. */
  predicate Shiftable(i: int) {
    0 <= i < 192 || (i >= 192 && i % 32 == 0)
  }

  /**
    Shifts `mant` right by `i` bits.  A count of zero is not a shift in this code: it
    clears the top limb.  Counts above 192 that are not multiples of 32 read and write
    outside the mantissa.
   */
  method Shr(mant: array<Limb>, i: nat)
    requires mant.Length == MANT_LIMBS && Shiftable(i)
    modifies mant
    ensures i > 0 ==> BigVal(mant[..]) == old(BigVal(mant[..])) / Pow2(i)
    ensures i == 0 ==> mant[..] == [0] + old(mant[1..])
  {
    hide BigVal, Pow2, IsShifted;
    ghost var o := mant[..];
    var sr, offs := i % 32, i / 32;
    var j := 0;
    if sr == 0 {
      if offs != 0 {
        j := MoveLimbs(mant, offs);
      }
    } else {
      j := JoinLimbs(mant, offs, sr);
    }
    ghost var tail := mant[j + 1..];
    while j >= 0
      invariant -1 <= j < MANT_LIMBS - |tail|
      invariant forall k :: j < k < MANT_LIMBS - |tail| ==> mant[k] == 0
      invariant mant[MANT_LIMBS - |tail|..] == tail
    {
      mant[j] := 0;
      j := j - 1;
    }
    if 0 < i < 192 {
      ShiftedRightValue(mant[..], o, i);
    } else if i >= 192 {
      AllShiftedOut(mant[..], o, i);
    }
  }
}
