/** Big-endian multi-limb numbers: the representation of mantissas in float.c. */
module Limbs {
  import opened Powers

  const BASE := 0x1_0000_0000
  const MANT_LIMBS := 6

  type Limb = x: int | 0 <= x < BASE
  type uint64 = x: int | 0 <= x < 0x1_0000_0000_0000_0000

  /** The value of limb sequence `s`, most significant limb first.  Entries may exceed
      a limb, as they do in the accumulator of a multiplication. */
  function BigVal(s: seq<int>): int {
    if |s| == 0 then 0 else BigVal(s[..|s| - 1]) * BASE + s[|s| - 1]
  }

  /** The weight of a limb with `n` limbs below it. */
  function Weight(n: nat): (r: nat)
    ensures r > 0
  {
    if n == 0 then 1 else BASE * Weight(n - 1)
  }

  lemma WeightIsPow2(n: nat)
    ensures Weight(n) == Pow2(32 * n)
  {
    if n > 0 {
      WeightIsPow2(n - 1);
      Pow2Add(32, 32 * (n - 1));
      assert Pow2(32) == BASE by {
        Pow2Add(16, 16);
        Pow2Add(8, 8);
        assert Pow2(8) == 256;
      }
    }
  }

  lemma {:induction false} BigValAppend(s: seq<int>, t: seq<int>)
    ensures BigVal(s + t) == BigVal(s) * Weight(|t|) + BigVal(t)
  {
    if |t| == 0 {
      assert s + t == s;
    } else {
      var t' := t[..|t| - 1];
      BigValAppend(s, t');
      assert (s + t)[..|s + t| - 1] == s + t';
      assert BigVal(s) * Weight(|t|) == (BigVal(s) * Weight(|t'|)) * BASE;
    }
  }

  lemma {:induction false} BigValSplit(s: seq<int>, k: nat)
    requires k <= |s|
    ensures BigVal(s) == BigVal(s[..k]) * Weight(|s| - k) + BigVal(s[k..])
  {
    BigValAppend(s[..k], s[k..]);
    assert s[..k] + s[k..] == s;
  }

  lemma {:induction false} BigValBounds(s: seq<int>)
    requires forall k :: 0 <= k < |s| ==> 0 <= s[k] < BASE
    ensures 0 <= BigVal(s) < Weight(|s|)
  {
    if |s| > 0 {
      BigValBounds(s[..|s| - 1]);
    }
  }

  /** Adding `d` to one limb adds `d` at that limb's weight. */
  lemma {:induction false} BigValUpdate(s: seq<int>, k: nat, d: int)
    requires k < |s|
    ensures BigVal(s[k := s[k] + d]) == BigVal(s) + d * Weight(|s| - 1 - k)
  {
    var s' := s[k := s[k] + d];
    var n := |s| - 1;
    if k == n {
      assert s'[..n] == s[..n];
    } else {
      var t := s[..n];
      BigValUpdate(t, k, d);
      assert s'[..n] == t[k := t[k] + d];
      var w := Weight(n - 1 - k);
      assert Weight(n - k) == BASE * w;
      assert (BigVal(t) + d * w) * BASE == BigVal(t) * BASE + d * (BASE * w);
    }
  }

  /** Multiplying the single limb at `k` through: the limb is worth its value at its weight. */
  lemma {:induction false} BigValPrefixStep(s: seq<int>, k: nat)
    requires k < |s|
    ensures BigVal(s[..k + 1]) == BigVal(s[..k]) * BASE + s[k]
  {
    assert s[..k + 1][..k] == s[..k];
  }

  lemma {:induction false} AllZero(s: seq<int>)
    requires forall k :: 0 <= k < |s| ==> s[k] == 0
    ensures BigVal(s) == 0
  {
    if |s| > 0 {
      AllZero(s[..|s| - 1]);
    }
  }

  /** Sets every limb to zero. */
  method ClearLimbs(mant: array<Limb>)
    requires mant.Length == MANT_LIMBS
    modifies mant
    ensures forall k :: 0 <= k < MANT_LIMBS ==> mant[k] == 0
  {
    var i := 0;
    while i < MANT_LIMBS
      invariant 0 <= i <= MANT_LIMBS && forall k :: 0 <= k < i ==> mant[k] == 0
    {
      mant[i] := 0;
      i := i + 1;
    }
  }
}
