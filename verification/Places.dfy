/** The symbols of an expression: labels, `$` and `$$`, and their differences. */
module Places {
  import opened Wrappers
  import opened ExprVector
  import opened EvalSyntax
  import opened EvalMeaning

  /** The place that a token names: a label's, the position for `$`, the start of its segment
      for `$$`, and no segment for a number. */
  predicate Names(env: Env, t: Token, segment: int, offset: int64) {
    match t
    case Literal(v) => segment == -1 && offset == v
    case Identifier(name) => name in env.labels && env.labels[name] == Place(segment, offset)
    case Here => env.here == Place(segment, offset)
    case Base => env.here.segment == segment && offset == 0
    case _ => false
  }

  predicate Near(segment: int) {
    segment == -1 || 0 <= segment < 0x4000_0000
  }

  /** What merging gives for two places, the second one negated. */
  lemma PlacesMerge(p: Place, q: Place)
    requires Near(p.segment) && Near(q.segment)
    ensures var d := Difference(PlaceVector(p), PlaceVector(q));
            && (IsReallySimple(d) <==> p.segment == q.segment)
            && (p.segment == q.segment ==> RelocValue(d) == Wrap(p.offset - q.offset))
  {
    hide Wrap, RelocValue, IsReallySimple, Keep, ScalarMult;
    WrapMinus(p.offset, q.offset);
    var e, f := PlaceVector(p), ScalarMult(PlaceVector(q), -1);
    var x, y := Term(EXPR_SIMPLE, p.offset), Term(EXPR_SIMPLE, Wrap(-1 * q.offset));
    assert f == [y] + if q.segment == NO_SEG then [] else [Term(EXPR_SEGBASE + q.segment, -1)] by { Negated(q); }
    assert e[1..] == if p.segment == NO_SEG then [] else [Term(EXPR_SEGBASE + p.segment, 1)];
    assert f[1..] == if q.segment == NO_SEG then [] else [Term(EXPR_SEGBASE + q.segment, -1)];
    var preserve := IsReallySimple(e) || IsReallySimple(f);
    var z := Wrap(p.offset + y.value);
    var head := if z != 0 then [Term(EXPR_SIMPLE, z)] else [];
    assert Merge(e, f, preserve) == head + Merge(e[1..], f[1..], preserve);
    SegmentsMerge(p.segment, q.segment, preserve);
    HeadJoins(head, Merge(e[1..], f[1..], preserve));
  }

  lemma WrapMinus(a: int64, b: int64)
    ensures Wrap(a + Wrap(-1 * b)) == Wrap(a - b) && Wrap(-1) == -1 && Wrap(0) == 0
  {
  }

  lemma Negated(q: Place)
    requires Near(q.segment)
    ensures ScalarMult(PlaceVector(q), -1)
         == [Term(EXPR_SIMPLE, Wrap(-1 * q.offset))]
            + if q.segment == NO_SEG then [] else [Term(EXPR_SEGBASE + q.segment, -1)]
  {
    var v := PlaceVector(q);
    if q.segment != NO_SEG {
      assert v[1..] == [Term(EXPR_SEGBASE + q.segment, 1)] && v[1..][1..] == [];
      assert ScalarMult(v[1..], -1) == [Term(EXPR_SEGBASE + q.segment, -1)];
    } else {
      assert v[1..] == [];
    }
  }

  /** Segment bases cancel exactly where they are the same. */
  lemma SegmentsMerge(s: int, t: int, preserve: bool)
    requires Near(s) && Near(t)
    ensures var m := Merge(if s == NO_SEG then [] else [Term(EXPR_SEGBASE + s, 1)],
                           if t == NO_SEG then [] else [Term(EXPR_SEGBASE + t, -1)], preserve);
            && (s == t ==> m == [])
            && (s != t ==> |m| > 0 && forall k :: 0 <= k < |m| ==> m[k].value != 0 && m[k].kind > EXPR_SIMPLE)
  {
    assert Wrap(0) == 0;
    var a: Vector := if s == NO_SEG then [] else [Term(EXPR_SEGBASE + s, 1)];
    var b: Vector := if t == NO_SEG then [] else [Term(EXPR_SEGBASE + t, -1)];
    assert Keep([], preserve) == [];
    assert a != [] ==> a[1..] == [] && Keep(a, preserve) == a;
    assert b != [] ==> b[1..] == [] && Keep(b, preserve) == b;
  }

  lemma HeadJoins(head: Vector, m: Vector)
    requires head == [] || (|head| == 1 && head[0].kind == EXPR_SIMPLE && head[0].value != 0)
    requires m == [] || forall k :: 0 <= k < |m| ==> m[k].value != 0 && m[k].kind > EXPR_SIMPLE
    ensures var v := head + m;
            && (IsReallySimple(v) <==> m == [])
            && (m == [] ==> RelocValue(v) == if head == [] then 0 else head[0].value)
  {
    NonZeroStays(head + m);
  }

  lemma {:induction false} NonZeroStays(v: Vector)
    requires forall k :: 0 <= k < |v| ==> v[k].value != 0
    ensures NonZero(v) == v
  {
    if |v| > 0 {
      NonZeroStays(v[1..]);
    }
  }

  /**
    The difference of two places is a number exactly when their segments are the same, and
    then it is the distance of their offsets.  So `$ - $$` is the offset in the segment.
   */
  lemma DifferenceOfPlaces(env: Env, x: Token, s: int, o: int64, y: Token, t: int, q: int64)
    requires Names(env, x, s, o) && Names(env, y, t, q) && Near(s) && Near(t)
    ensures var d := VectorOf(env, Binary(Subtract, Leaf(x), Leaf(y)));
            && d.Some?
            && (IsReallySimple(d.value) <==> s == t)
            && (s == t ==> RelocValue(d.value) == Wrap(o - q))
  {
    hide Difference, IsReallySimple, RelocValue, Wrap;
    NamedVector(env, x, s, o);
    NamedVector(env, y, t, q);
    PlacesMerge(Place(s, o), Place(t, q));
  }

  lemma NamedVector(env: Env, x: Token, s: int, o: int64)
    requires Names(env, x, s, o)
    ensures LeafVector(env, x) == Some(PlaceVector(Place(s, o)))
  {
    assert [Term(EXPR_SIMPLE, o)] + [] == [Term(EXPR_SIMPLE, o)];
  }

  /** A name without a definition is an error where that matters, and unknown elsewhere, as is
      its distance from a place. */
  lemma UndefinedName(env: Env, name: string, y: Token, t: int, q: int64)
    requires name !in env.labels && Names(env, y, t, q) && Near(t)
    ensures var d := VectorOf(env, Binary(Subtract, Leaf(Identifier(name)), Leaf(y)));
            if env.critical then d.None? else d.Some? && IsUnknown(d.value)
  {
    if !env.critical {
      NamedVector(env, y, t, q);
      Negated(Place(t, q));
    }
  }
}
