/** exprlib.c and the vectors of eval.c: sparse linear forms over registers and segment bases. */
module ExprVector {
  import opened Powers

  // ----- the numbering of terms -----

  /** Registers come first, then the special types, then one type for each segment base. */
  const EXPR_UNKNOWN := 241
  const EXPR_SIMPLE := 242
  const EXPR_SEGBASE := 245
  const SEG_ABS := 0x4000_0000
  const FAR_ABSOLUTE := EXPR_SEGBASE + SEG_ABS

  const TWO64 := 0x1_0000_0000_0000_0000
  const TWO63 := 0x8000_0000_0000_0000

  type int64 = x: int | -TWO63 <= x < TWO63

  /** Two's complement arithmetic of 64 bits. */
  function Wrap(x: int): int64 {
    var m := x % TWO64;
    if m >= TWO63 then m - TWO64 else m
  }

  datatype Term = Term(kind: int, value: int64)

  type Vector = seq<Term>

  /** An assignment of values to registers and segment bases. */
  type Assignment = int -> int

  function Weight(rho: Assignment, kind: int): int {
    if kind == EXPR_SIMPLE then 1 else rho(kind)
  }

  /** The value of a vector before it is cut to 64 bits. */
  function Value(rho: Assignment, v: Vector): int {
    if |v| == 0 then 0 else TermValue(rho, v[0]) + Value(rho, v[1..])
  }

  function TermValue(rho: Assignment, t: Term): int {
    t.value * Weight(rho, t.kind)
  }

  /** Equality of 64-bit values. */
  predicate Same(x: int, y: int) {
    (x - y) % TWO64 == 0
  }

  // ----- arithmetic modulo 2^64 -----

  lemma SameFromMultiple(x: int, y: int, k: int)
    requires x == y + k * TWO64
    ensures Same(x, y)
  {
    DivModUnique(x - y, TWO64, k, 0);
  }

  lemma MultipleFromSame(x: int, y: int) returns (k: int)
    requires Same(x, y)
    ensures x == y + k * TWO64
  {
    k := (x - y) / TWO64;
    assert x - y == ((x - y) / TWO64) * TWO64 + (x - y) % TWO64;
  }

  lemma WrapSame(x: int)
    ensures Same(Wrap(x), x)
  {
    var q := x / TWO64;
    assert x == q * TWO64 + x % TWO64;
    SameFromMultiple(Wrap(x), x, if x % TWO64 >= TWO63 then 0 - q - 1 else 0 - q);
  }

  lemma SameWraps(x: int, y: int)
    ensures Same(x, y) <==> Wrap(x) == Wrap(y)
  {
    if Same(x, y) {
      var k := MultipleFromSame(x, y);
      assert y == (y / TWO64) * TWO64 + y % TWO64;
      DivModUnique(x, TWO64, y / TWO64 + k, y % TWO64);
    } else if Wrap(x) == Wrap(y) {
      WrapSame(x);
      WrapSame(y);
      var a := MultipleFromSame(Wrap(x), x);
      var b := MultipleFromSame(Wrap(y), y);
      SameFromMultiple(x, y, b - a);
    }
  }

  lemma WrapSmall(x: int64)
    ensures Wrap(x) == x
  {
  }

  lemma SameSum(a: int, b: int, c: int, d: int)
    requires Same(a, b) && Same(c, d)
    ensures Same(a + c, b + d) && Same(a - c, b - d)
  {
    var j := MultipleFromSame(a, b);
    var k := MultipleFromSame(c, d);
    SameFromMultiple(a + c, b + d, j + k);
    SameFromMultiple(a - c, b - d, j - k);
  }

  lemma SameProduct(a: int, b: int, k: int)
    requires Same(a, b)
    ensures Same(a * k, b * k)
  {
    var j := MultipleFromSame(a, b);
    assert (b + j * TWO64) * k == b * k + (j * k) * TWO64;
    SameFromMultiple(a * k, b * k, j * k);
  }

  lemma SameTrans(a: int, b: int, c: int)
    requires Same(a, b) && Same(b, c)
    ensures Same(a, c) && Same(b, a)
  {
    var j := MultipleFromSame(a, b);
    var k := MultipleFromSame(b, c);
    SameFromMultiple(a, c, j + k);
    SameFromMultiple(b, a, 0 - j);
  }

  // ----- the tests of exprlib.c -----

  /** The terms that count. */
  function NonZero(v: Vector): Vector {
    if |v| == 0 then [] else (if v[0].value != 0 then [v[0]] else []) + NonZero(v[1..])
  }

  predicate IsSimple(v: Vector) {
    var z := NonZero(v);
    |z| == 0 || (z[0].kind == EXPR_SIMPLE && (|z| == 1 || z[1].kind >= FAR_ABSOLUTE))
  }

  predicate IsReallySimple(v: Vector) {
    var z := NonZero(v);
    |z| == 0 || (z[0].kind == EXPR_SIMPLE && |z| == 1)
  }

  predicate IsJustUnknown(v: Vector) {
    var z := NonZero(v);
    |z| > 0 && z[0].kind == EXPR_UNKNOWN
  }

  predicate IsUnknown(v: Vector) {
    if |v| == 0 then false
    else if v[0].kind < EXPR_UNKNOWN then IsUnknown(v[1..])
    else v[0].kind == EXPR_UNKNOWN
  }

  function RelocValue(v: Vector): int64 {
    var z := NonZero(v);
    if |z| > 0 && z[0].kind == EXPR_SIMPLE then z[0].value else 0
  }

  /** No unknown term and no far-absolute segment. */
  predicate Known(v: Vector) {
    forall k :: 0 <= k < |v| ==> v[k].kind != EXPR_UNKNOWN && v[k].kind < FAR_ABSOLUTE
  }

  /** The types ascend, so each occurs once. */
  predicate Sorted(v: Vector) {
    forall j, k :: 0 <= j < k < |v| ==> v[j].kind < v[k].kind
  }

  lemma {:induction false} NonZeroValue(rho: Assignment, v: Vector)
    ensures Value(rho, NonZero(v)) == Value(rho, v)
  {
    if |v| > 0 {
      NonZeroValue(rho, v[1..]);
      if v[0].value != 0 {
        assert NonZero(v)[0] == v[0] && NonZero(v)[1..] == NonZero(v[1..]);
      } else {
        assert NonZero(v) == NonZero(v[1..]);
        assert v[0].value * Weight(rho, v[0].kind) == 0;
      }
    }
  }

  lemma {:induction false} NonZeroTerms(v: Vector)
    ensures forall k :: 0 <= k < |NonZero(v)| ==> NonZero(v)[k] in v && NonZero(v)[k].value != 0
    ensures forall k :: 0 <= k < |v| && v[k].value != 0 ==> v[k] in NonZero(v)
  {
    if |v| > 0 {
      NonZeroTerms(v[1..]);
    }
  }

  lemma {:induction false} KnownMeansNotUnknown(v: Vector)
    requires Known(v)
    ensures !IsUnknown(v) && !IsJustUnknown(v) && (IsSimple(v) <==> IsReallySimple(v))
  {
    NonZeroTerms(v);
    NeverUnknown(v);
  }

  lemma {:induction false} NeverUnknown(v: Vector)
    requires Known(v)
    ensures !IsUnknown(v)
  {
    if |v| > 0 {
      NeverUnknown(v[1..]);
    }
  }

  /** A scalar's value is its simple term. */
  lemma ScalarValue(rho: Assignment, v: Vector)
    requires IsReallySimple(v)
    ensures Value(rho, v) == RelocValue(v)
  {
    NonZeroValue(rho, v);
    var z := NonZero(v);
    if |z| == 1 {
      assert z[1..] == [];
    }
  }

  /** The test is exact: a sorted vector is a scalar exactly when its value is the same
      under all assignments. */
  lemma ScalarIff(v: Vector)
    requires Sorted(v) && Known(v)
    ensures IsReallySimple(v) <==> forall rho: Assignment :: Same(Value(rho, v), Value(_ => 0, v))
  {
    if IsReallySimple(v) {
      forall rho: Assignment
        ensures Same(Value(rho, v), Value(_ => 0, v))
      {
        ScalarValue(rho, v);
        ScalarValue(_ => 0, v);
      }
    } else {
      var t := DependsOn(v);
      var rho := Indicator(t.kind);
      OneTerm(v, t);
      assert !Same(Value(rho, v), Value(_ => 0, v)) by { NotSame(Value(rho, v), Value(_ => 0, v), t.value); }
    }
  }

  /** One for the given type, zero elsewhere. */
  function Indicator(kind: int): Assignment {
    k => if k == kind then 1 else 0
  }

  lemma NotSame(x: int, y: int, d: int64)
    requires x == y + d && d != 0
    ensures !Same(x, y)
  {
  }

  /** A vector that is no scalar has a term that counts and is not simple. */
  lemma DependsOn(v: Vector) returns (t: Term)
    requires !IsReallySimple(v) && Sorted(v)
    ensures t in v && t.value != 0 && t.kind != EXPR_SIMPLE
  {
    NonZeroTerms(v);
    NonZeroSorted(v);
    var z := NonZero(v);
    if z[0].kind != EXPR_SIMPLE {
      t := z[0];
    } else {
      t := z[1];
    }
  }

  lemma {:induction false} NonZeroSorted(v: Vector)
    requires Sorted(v)
    ensures Sorted(NonZero(v))
  {
    if |v| > 0 {
      var t := v[1..];
      assert forall k :: 0 <= k < |t| ==> t[k] == v[k + 1];
      NonZeroSorted(t);
      NonZeroTerms(t);
      var z := NonZero(t);
      forall k | 0 <= k < |z|
        ensures v[0].kind < z[k].kind
      {
        assert z[k] in t;
      }
    }
  }

  /** With only one type switched on, the value moves by that type's coefficient. */
  lemma {:induction false} OneTerm(v: Vector, t: Term)
    requires Sorted(v) && t in v && t.kind != EXPR_SIMPLE
    ensures Value(Indicator(t.kind), v) == Value(_ => 0, v) + t.value
  {
    var rest := v[1..];
    assert forall k :: 0 <= k < |rest| ==> rest[k] == v[k + 1];
    assert Weight(_ => 0, v[0].kind) == if v[0].kind == EXPR_SIMPLE then 1 else 0;
    if v[0] == t {
      NoTerm(rest, t.kind);
    } else {
      var k :| 0 <= k < |v| && v[k] == t;
      assert v[0].kind < v[k].kind;
      assert t == rest[k - 1];
      OneTerm(rest, t);
    }
  }

  lemma {:induction false} NoTerm(v: Vector, kind: int)
    requires forall k :: 0 <= k < |v| ==> v[k].kind != kind
    ensures Value(Indicator(kind), v) == Value(_ => 0, v)
  {
    if |v| > 0 {
      assert v[0].kind != kind;
      NoTerm(v[1..], kind);
    }
  }

  // ----- add_vectors and scalar_mult as functions -----

  /** The part of a vector in front of the far-absolute segments. */
  function Keep(v: Vector, preserve: bool): Vector {
    if |v| == 0 || !(preserve || v[0].kind < FAR_ABSOLUTE) then [] else [v[0]] + Keep(v[1..], preserve)
  }

  function Merge(p: Vector, q: Vector, preserve: bool): Vector
    decreases |p| + |q|
  {
    if |p| == 0 || |q| == 0 || p[0].kind >= FAR_ABSOLUTE || q[0].kind >= FAR_ABSOLUTE then
      Keep(p, preserve) + Keep(q, preserve)
    else if p[0].kind > q[0].kind then
      [q[0]] + if q[0].kind == EXPR_UNKNOWN then [] else Merge(p, q[1..], preserve)
    else if p[0].kind < q[0].kind then
      [p[0]] + if p[0].kind == EXPR_UNKNOWN then [] else Merge(p[1..], q, preserve)
    else
      (if Wrap(p[0].value + q[0].value) != 0 then [Term(p[0].kind, Wrap(p[0].value + q[0].value))] else [])
      + if p[0].kind == EXPR_UNKNOWN then [] else Merge(p[1..], q[1..], preserve)
  }

  function AddVectors(p: Vector, q: Vector): Vector {
    Merge(p, q, IsReallySimple(p) || IsReallySimple(q))
  }

  function ScalarMult(v: Vector, k: int): Vector {
    if |v| == 0 || v[0].kind >= FAR_ABSOLUTE then []
    else [Term(v[0].kind, Wrap(k * v[0].value))] + ScalarMult(v[1..], k)
  }

  lemma {:induction false} KeepAll(v: Vector, preserve: bool)
    requires Known(v)
    ensures Keep(v, preserve) == v
  {
    if |v| > 0 {
      KeepAll(v[1..], preserve);
    }
  }

  lemma {:induction false} ValueAppend(rho: Assignment, p: Vector, q: Vector)
    ensures Value(rho, p + q) == Value(rho, p) + Value(rho, q)
  {
    if |p| > 0 {
      ValueAppend(rho, p[1..], q);
      assert (p + q)[1..] == p[1..] + q;
    } else {
      assert p + q == q;
    }
  }

  /** Adding vectors adds their values. */
  lemma {:induction false} MergeValue(rho: Assignment, p: Vector, q: Vector, preserve: bool)
    requires Known(p) && Known(q)
    ensures Same(Value(rho, Merge(p, q, preserve)), Value(rho, p) + Value(rho, q))
    decreases |p| + |q|
  {
    hide Same, TermValue, Known, Wrap;
    if |p| > 0 { KnownTail(p); }
    if |q| > 0 { KnownTail(q); }
    if |p| == 0 || |q| == 0 {
      KeepAll(p, preserve);
      KeepAll(q, preserve);
      ValueAppend(rho, p, q);
      SameFromMultiple(Value(rho, p) + Value(rho, q), Value(rho, p) + Value(rho, q), 0);
    } else if p[0].kind > q[0].kind {
      MergeValue(rho, p, q[1..], preserve);
      PrependValue(rho, q[0], Merge(p, q[1..], preserve), Value(rho, p) + Value(rho, q[1..]));
    } else if p[0].kind < q[0].kind {
      MergeValue(rho, p[1..], q, preserve);
      PrependValue(rho, p[0], Merge(p[1..], q, preserve), Value(rho, p[1..]) + Value(rho, q));
    } else {
      MergeValue(rho, p[1..], q[1..], preserve);
      SumTerm(rho, p[0], q[0], Merge(p[1..], q[1..], preserve), Value(rho, p[1..]) + Value(rho, q[1..]));
    }
  }

  lemma KnownTail(v: Vector)
    requires Known(v) && |v| > 0
    ensures Known(v[1..]) && v[0].kind < FAR_ABSOLUTE && v[0].kind != EXPR_UNKNOWN
  {
  }

  lemma PrependValue(rho: Assignment, t: Term, v: Vector, x: int)
    requires Same(Value(rho, v), x)
    ensures Same(Value(rho, [t] + v), TermValue(rho, t) + x)
  {
    hide Same, TermValue;
    assert ([t] + v)[1..] == v;
    var y := TermValue(rho, t);
    SameFromMultiple(y, y, 0);
    SameSum(y, y, Value(rho, v), x);
  }

  lemma SumTerm(rho: Assignment, a: Term, b: Term, v: Vector, x: int)
    requires a.kind == b.kind && Same(Value(rho, v), x)
    ensures var s := Wrap(a.value + b.value);
            Same(Value(rho, (if s != 0 then [Term(a.kind, s)] else []) + v),
                 TermValue(rho, a) + TermValue(rho, b) + x)
  {
    hide Same, Wrap;
    var s, w := Wrap(a.value + b.value), Weight(rho, a.kind);
    WrapSame(a.value + b.value);
    SameProduct(s, a.value + b.value, w);
    assert (a.value + b.value) * w == a.value * w + b.value * w;
    SameSum(s * w, (a.value + b.value) * w, Value(rho, v), x);
    if s != 0 {
      assert ([Term(a.kind, s)] + v)[1..] == v;
    } else {
      assert [] + v == v;
      assert s * w == 0;
    }
  }

  /** Sorted, known, and past the type `low`. */
  predicate Above(v: Vector, low: int) {
    Sorted(v) && Known(v) && forall k :: 0 <= k < |v| ==> low < v[k].kind
  }

  lemma AboveTail(v: Vector, low: int)
    requires Above(v, low) && |v| > 0
    ensures Above(v[1..], v[0].kind) && low < v[0].kind && v[0].kind < FAR_ABSOLUTE && v[0].kind != EXPR_UNKNOWN
  {
    assert forall k :: 0 <= k < |v| - 1 ==> v[1..][k] == v[k + 1];
  }

  lemma AboveLess(v: Vector, low: int)
    requires Above(v, low) && |v| > 0
    ensures forall x :: x < v[0].kind ==> Above(v, x)
  {
  }

  lemma PrependAbove(t: Term, m: Vector, low: int)
    requires Above(m, t.kind) && low < t.kind < FAR_ABSOLUTE && t.kind != EXPR_UNKNOWN
    ensures Above([t] + m, low) && Above(m, low)
  {
  }

  /** Adding keeps vectors sorted and known. */
  lemma {:induction false} MergeSorted(p: Vector, q: Vector, preserve: bool, low: int)
    requires Above(p, low) && Above(q, low)
    ensures Above(Merge(p, q, preserve), low)
    decreases |p| + |q|
  {
    hide Above, Wrap;
    if |p| == 0 || |q| == 0 {
      assert Known(p) && Known(q) by { AboveIsKnown(p, low); AboveIsKnown(q, low); }
      KeepAll(p, preserve);
      KeepAll(q, preserve);
      assert p + [] == p && [] + q == q;
    } else {
      AboveTail(p, low);
      AboveTail(q, low);
      AboveLess(p, low);
      AboveLess(q, low);
      if p[0].kind > q[0].kind {
        MergeSorted(p, q[1..], preserve, q[0].kind);
        PrependAbove(q[0], Merge(p, q[1..], preserve), low);
      } else if p[0].kind < q[0].kind {
        MergeSorted(p[1..], q, preserve, p[0].kind);
        PrependAbove(p[0], Merge(p[1..], q, preserve), low);
      } else {
        var m := Merge(p[1..], q[1..], preserve);
        MergeSorted(p[1..], q[1..], preserve, p[0].kind);
        PrependAbove(Term(p[0].kind, Wrap(p[0].value + q[0].value)), m, low);
        assert [] + m == m;
      }
    }
  }

  lemma AboveIsKnown(v: Vector, low: int)
    requires Above(v, low)
    ensures Known(v)
  {
  }

  lemma {:induction false} ScalarMultValue(rho: Assignment, v: Vector, k: int)
    requires Known(v)
    ensures Same(Value(rho, ScalarMult(v, k)), k * Value(rho, v))
    ensures Known(ScalarMult(v, k)) && |ScalarMult(v, k)| == |v|
    ensures forall i :: 0 <= i < |v| ==> ScalarMult(v, k)[i].kind == v[i].kind
  {
    hide Same, Wrap;
    if |v| > 0 {
      ScalarMultValue(rho, v[1..], k);
      var w, x := Weight(rho, v[0].kind), k * v[0].value;
      WrapSame(x);
      SameProduct(Wrap(x), x, w);
      assert x * w == k * (v[0].value * w);
      assert k * Value(rho, v) == k * (v[0].value * w) + k * Value(rho, v[1..]);
      var t := Term(v[0].kind, Wrap(x));
      assert ScalarMult(v, k) == [t] + ScalarMult(v[1..], k);
      assert ([t] + ScalarMult(v[1..], k))[1..] == ScalarMult(v[1..], k);
      SameSum(Wrap(x) * w, x * w, Value(rho, ScalarMult(v[1..], k)), k * Value(rho, v[1..]));
    } else {
      SameFromMultiple(0, 0, 0);
      assert k * 0 == 0;
    }
  }
}
