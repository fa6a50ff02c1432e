/** eval.c as it runs: a recursive descent over the tokens, with vectors updated in place. */
module Evaluator {
  import opened Wrappers
  import opened ExprVector
  import opened EvalSyntax
  import opened EvalMeaning
  import opened Logarithm

  // ----- vectors -----

  /** A vector in storage. */
  class Expr {
    var terms: Vector

    constructor (v: Vector)
      ensures terms == v
    {
      terms := v;
    }

    /** The index of the first term that counts, from `i` on. */
    method SkipZeros(i: nat) returns (j: nat)
      requires i <= |terms|
      ensures i <= j <= |terms| && (j < |terms| ==> terms[j].value != 0)
      ensures NonZero(terms[i..]) == NonZero(terms[j..])
    {
      j := i;
      while j < |terms| && terms[j].value == 0
        invariant i <= j <= |terms| && NonZero(terms[i..]) == NonZero(terms[j..])
      {
        assert terms[j..][1..] == terms[j + 1..];
        assert [] + NonZero(terms[j + 1..]) == NonZero(terms[j + 1..]);
        j := j + 1;
      }
    }

    method TestSimple(farAbsolute: bool) returns (b: bool)
      ensures b == if farAbsolute then IsSimple(terms) else IsReallySimple(terms)
    {
      assert terms[0..] == terms;
      var i := SkipZeros(0);
      if i == |terms| {
        return true;
      }
      assert terms[i..][1..] == terms[i + 1..];
      if terms[i].kind != EXPR_SIMPLE {
        return false;
      }
      var j := SkipZeros(i + 1);
      if j < |terms| {
        assert terms[j..][0] == terms[j];
        return farAbsolute && terms[j].kind >= FAR_ABSOLUTE;
      }
      return true;
    }

    method TestJustUnknown() returns (b: bool)
      ensures b == IsJustUnknown(terms)
    {
      assert terms[0..] == terms;
      var i := SkipZeros(0);
      return i < |terms| && terms[i].kind == EXPR_UNKNOWN;
    }

    method TestUnknown() returns (b: bool)
      ensures b == IsUnknown(terms)
    {
      var i := 0;
      assert terms[0..] == terms;
      while i < |terms| && terms[i].kind < EXPR_UNKNOWN
        invariant 0 <= i <= |terms| && IsUnknown(terms) == IsUnknown(terms[i..])
      {
        assert terms[i..][1..] == terms[i + 1..];
        i := i + 1;
      }
      return i < |terms| && terms[i].kind == EXPR_UNKNOWN;
    }

    method SimpleValue() returns (x: int64)
      ensures x == RelocValue(terms)
    {
      assert terms[0..] == terms;
      var i := SkipZeros(0);
      return if i < |terms| && terms[i].kind == EXPR_SIMPLE then terms[i].value else 0;
    }

    /** scalar_mult: in place, and cut before any far-absolute segment. */
    method MultiplyBy(k: int)
      modifies this
      ensures terms == ScalarMult(old(terms), k)
    {
      hide Wrap;
      ghost var v := terms;
      var p := 0;
      assert v[0..] == v;
      while p < |terms| && terms[p].kind < FAR_ABSOLUTE
        invariant 0 <= p <= |terms| == |v| && terms[p..] == v[p..]
        invariant terms[..p] + ScalarMult(v[p..], k) == ScalarMult(v, k)
      {
        assert v[p..][1..] == v[p + 1..] && v[p..][0] == terms[p];
        terms := terms[p := Term(terms[p].kind, Wrap(k * terms[p].value))];
        p := p + 1;
      }
      terms := terms[..p];
    }
  }

  /** add_vectors: two cursors over the operands, a new vector for the sum. */
  method Sum(p: Expr, q: Expr) returns (r: Expr)
    ensures fresh(r) && r.terms == AddVectors(p.terms, q.terms)
  {
    hide Wrap, IsReallySimple, Merge, Keep, AddVectors;
    var ps := p.TestSimple(false);
    var qs := q.TestSimple(false);
    var preserve := ps || qs;
    var sum: Vector := [];
    var i, j := 0, 0;
    ghost var whole := Merge(p.terms, q.terms, preserve);
    AddIs(p.terms, q.terms, preserve);
    assert p.terms[0..] == p.terms && q.terms[0..] == q.terms;
    while i < |p.terms| && j < |q.terms| && p.terms[i].kind < FAR_ABSOLUTE && q.terms[j].kind < FAR_ABSOLUTE
      invariant 0 <= i <= |p.terms| && 0 <= j <= |q.terms|
      invariant sum + Merge(p.terms[i..], q.terms[j..], preserve) == whole
      decreases |p.terms| - i + |q.terms| - j
    {
      MergeStep(p.terms[i..], q.terms[j..], preserve);
      assert p.terms[i..][1..] == p.terms[i + 1..] && q.terms[j..][1..] == q.terms[j + 1..];
      var last;
      if p.terms[i].kind > q.terms[j].kind {
        Regroup(sum, q.terms[j], Merge(p.terms[i..], q.terms[j + 1..], preserve));
        last := q.terms[j].kind;
        sum := sum + [q.terms[j]];
        j := j + 1;
      } else if p.terms[i].kind < q.terms[j].kind {
        Regroup(sum, p.terms[i], Merge(p.terms[i + 1..], q.terms[j..], preserve));
        last := p.terms[i].kind;
        sum := sum + [p.terms[i]];
        i := i + 1;
      } else {
        Regroup(sum, Term(p.terms[i].kind, Wrap(p.terms[i].value + q.terms[j].value)),
                Merge(p.terms[i + 1..], q.terms[j + 1..], preserve));
        last := p.terms[i].kind;
        var s := Wrap(p.terms[i].value + q.terms[j].value);
        if s != 0 {
          sum := sum + [Term(last, s)];
        }
        i, j := i + 1, j + 1;
      }
      if last == EXPR_UNKNOWN {
        r := new Expr(sum);
        return;
      }
    }
    MergeEnds(p.terms[i..], q.terms[j..], preserve);
    var left := Rest(p.terms, i, preserve);
    var right := Rest(q.terms, j, preserve);
    assert sum + (left + right) == sum + left + right;
    r := new Expr(sum + left + right);
  }

  lemma AddIs(p: Vector, q: Vector, preserve: bool)
    requires preserve == (IsReallySimple(p) || IsReallySimple(q))
    ensures AddVectors(p, q) == Merge(p, q, preserve)
  {
  }

  lemma Regroup(a: Vector, t: Term, rest: Vector)
    ensures a + ([t] + rest) == a + [t] + rest && a + ([] + rest) == a + rest
    ensures a + ([t] + []) == a + [t] && a + [] == a && [] + rest == rest
  {
  }

  /** The loops of add_vectors that copy what is left of one operand. */
  method Rest(v: Vector, from: nat, preserve: bool) returns (r: Vector)
    requires from <= |v|
    ensures r == Keep(v[from..], preserve)
  {
    r := [];
    var i := from;
    while i < |v| && (preserve || v[i].kind < FAR_ABSOLUTE)
      invariant from <= i <= |v| && r + Keep(v[i..], preserve) == Keep(v[from..], preserve)
    {
      assert v[i..][1..] == v[i + 1..];
      r := r + [v[i]];
      i := i + 1;
    }
  }

  lemma MergeStep(p: Vector, q: Vector, preserve: bool)
    requires |p| > 0 && |q| > 0 && p[0].kind < FAR_ABSOLUTE && q[0].kind < FAR_ABSOLUTE
    ensures p[0].kind > q[0].kind ==>
              Merge(p, q, preserve) == [q[0]] + if q[0].kind == EXPR_UNKNOWN then [] else Merge(p, q[1..], preserve)
    ensures p[0].kind < q[0].kind ==>
              Merge(p, q, preserve) == [p[0]] + if p[0].kind == EXPR_UNKNOWN then [] else Merge(p[1..], q, preserve)
    ensures p[0].kind == q[0].kind ==>
              var s := Wrap(p[0].value + q[0].value);
              Merge(p, q, preserve) == (if s != 0 then [Term(p[0].kind, s)] else [])
                                       + if p[0].kind == EXPR_UNKNOWN then [] else Merge(p[1..], q[1..], preserve)
  {
    hide Wrap;
  }

  lemma MergeEnds(p: Vector, q: Vector, preserve: bool)
    requires |p| == 0 || |q| == 0 || p[0].kind >= FAR_ABSOLUTE || q[0].kind >= FAR_ABSOLUTE
    ensures Merge(p, q, preserve) == Keep(p, preserve) + Keep(q, preserve)
  {
  }

  // ----- the parser -----

  class Parser {
    const toks: seq<Token>
    const env: Env
    const start: nat
    var pos: nat
    var err: bool

    constructor (toks: seq<Token>, env: Env, relational: bool)
      ensures this.toks == toks && this.env == env && start == (if relational then 0 else 4)
      ensures pos == 0 && !err
    {
      this.toks, this.env, start := toks, env, if relational then 0 else 4;
      pos, err := 0, false;
    }

    /** A vector exactly when the text parses and evaluates without an error; a reported
        error may still leave some vector behind. */
    ghost predicate Delivers(p: Option<Parsed>, e: Expr?, before: bool)
      reads this, e
    {
      && (before ==> err)
      && (e == null ==> err && (p.None? || VectorOf(env, p.value.ast).None?))
      && (e != null ==> p.Some? && pos == p.value.next && Holds(p.value.ast, e, before))
    }

    ghost predicate Holds(a: Ast, e: Expr, before: bool)
      reads this, e
    {
      match VectorOf(env, a)
      case Some(v) => e.terms == v && err == before
      case None => err
    }

    /** nasm_error */
    method Error()
      modifies this`err
      ensures err
    {
      err := true;
    }

    /** The rexp and expr levels: one operand, then operators of this level. */
    method Level(n: nat) returns (e: Expr?)
      requires n <= UNARY && start <= UNARY && pos <= |toks|
      modifies this
      ensures e != null ==> fresh(e)
      ensures Delivers(ParseLevel(toks, old(pos), n, start), e, old(err))
      decreases |toks| - pos, 11 - n
    {
      hide VectorOf, Combine, ParseTail;
      LevelUnfolds(toks, pos, n, start);
      if n == UNARY {
        e := Primary();
        return;
      }
      var first := Level(n + 1);
      if first == null {
        var p := ParseLevel(toks, old(pos), n + 1, start);
        if p.Some? {
          TailUnresolvable(env, toks, p.value.next, n, start, p.value.ast);
        }
        return null;
      }
      var left: Expr := first;
      ghost var ast := ParseLevel(toks, old(pos), n + 1, start).value.ast;
      while OperatorAt(toks, pos, n)
        invariant old(pos) < pos <= |toks| && fresh(left) && (old(err) ==> err)
        invariant ParseLevel(toks, old(pos), n, start) == ParseTail(toks, pos, n, start, ast)
        invariant Holds(ast, left, old(err))
        decreases |toks| - pos
      {
        TailUnfolds(toks, pos, n, start, ast);
        var op := toks[pos].op;
        ghost var here, before := pos + 1, err;
        pos := pos + 1;
        var right := Level(n + 1);
        ghost var p := ParseLevel(toks, here, n + 1, start);
        if right == null {
          if p.Some? {
            BinaryUnresolvable(env, op, ast, p.value.ast);
            TailUnresolvable(env, toks, p.value.next, n, start, Binary(op, ast, p.value.ast));
          }
          return null;
        }
        ghost var mid := err;
        var r := CombineExprs(op, left, right);
        BinaryVector(env, op, ast, p.value.ast);
        if r == null {
          TailUnresolvable(env, toks, p.value.next, n, start, Binary(op, ast, p.value.ast));
          return null;
        }
        left := r;
        ast := Binary(op, ast, p.value.ast);
      }
      TailUnfolds(toks, pos, n, start, ast);
      e := left;
    }

    /** expr6 */
    method Primary() returns (e: Expr?)
      requires start <= UNARY && pos <= |toks|
      modifies this
      ensures e != null ==> fresh(e)
      ensures Delivers(ParseUnary(toks, old(pos), start), e, old(err))
      decreases |toks| - pos, 0
    {
      hide VectorOf, ParseLevel, Apply, LeafVector;
      var t := At(toks, pos);
      if UnaryAt(t).Some? {
        pos := pos + 1;
        var arg := Primary();
        ghost var p := ParseUnary(toks, old(pos) + 1, start);
        if p.Some? {
          UnaryVector(env, UnaryAt(t).value, p.value.ast);
        }
        if arg == null {
          return null;
        }
        e := ApplyTo(UnaryAt(t).value, arg);
      } else if t == Open {
        pos := pos + 1;
        e := Level(start);
        if e == null {
          return;
        }
        if At(toks, pos) != Close {
          Error();
          return null;
        }
        pos := pos + 1;
      } else if IsLeaf(t) {
        LeafHasVector(env, t);
        var v := LeafVector(env, t);
        if v.None? {
          Error();
          return null;
        }
        e := new Expr(v.value);
        pos := pos + 1;
      } else {
        Error();
        return null;
      }
    }

    /** The unary operators; the argument is negated in place. */
    method ApplyTo(op: UnaryOp, e: Expr) returns (r: Expr?)
      modifies this`err, e
      ensures r != null ==> fresh(r) || r == e
      ensures old(err) ==> err
      ensures match Apply(op, old(e.terms))
              case Some(v) => r != null && r.terms == v && err == old(err)
              case None => r == null && err
    {
      hide IsSimple, IsJustUnknown, RelocValue;
      if op == Identity {
        return e;
      }
      if op == Negate {
        e.MultiplyBy(-1);
        return e;
      }
      var unknown := e.TestJustUnknown();
      if unknown {
        r := new Expr(UnknownVector());
        return;
      }
      var simple := e.TestSimple(true);
      if !simple {
        Error();
        return null;
      }
      var x := e.SimpleValue();
      if op.Log? {
        var fits, n := EvalIfunc(op.kind, Unsigned(x));
        if !fits {
          Error();
          return null;
        }
        LogFits(op.kind, Unsigned(x));
        r := new Expr(Scalar(n));
      } else {
        r := new Expr(Scalar(if op == Complement then 0 - x - 1 else Flag(x == 0)));
      }
    }

    /** The body of a binary level's loop, for its operator. */
    method CombineExprs(op: BinaryOp, e: Expr, f: Expr) returns (r: Expr?)
      requires e != f
      modifies this`err, e, f
      ensures r != null ==> fresh(r) || r == e || r == f
      ensures old(err) ==> err
      ensures match Combine(op, old(e.terms), old(f.terms))
              case Some(v) => r != null && r.terms == v && err == old(err)
              case None => err
    {
      hide IsSimple, IsJustUnknown, IsReallySimple, IsUnknown, RelocValue, Operate, Verdict, Defined, AddVectors,
        ScalarMult;
      if IsRelation(op) {
        r := RelateExprs(op, e, f);
      } else if op == Add {
        r := Sum(e, f);
      } else if op == Subtract {
        f.MultiplyBy(-1);
        r := Sum(e, f);
      } else if op == Multiply {
        r := MultiplyExprs(e, f);
      } else {
        r := ScalarOperator(op, e, f);
      }
    }

    /** rexp3: subtract in place, then look at the difference. */
    method RelateExprs(op: BinaryOp, e: Expr, f: Expr) returns (r: Expr)
      requires IsRelation(op) && e != f
      modifies this`err, f
      ensures fresh(r) && (old(err) ==> err)
      ensures match Relate(op, old(e.terms), old(f.terms))
              case Some(v) => r.terms == v && err == old(err)
              case None => err
    {
      hide IsReallySimple, IsUnknown, RelocValue, AddVectors, ScalarMult;
      f.MultiplyBy(-1);
      var d := Sum(e, f);
      var unknown := d.TestUnknown();
      if unknown {
        r := new Expr(UnknownVector());
        return;
      }
      var simple := d.TestSimple(false);
      var vv := d.SimpleValue();
      var v := 0;
      if op == Equal || op == NotEqual {
        if !simple || vv != 0 {
          v := Flag(op == NotEqual);
        } else {
          v := Flag(op == Equal);
        }
      } else if !simple {
        Error();
      } else if vv == 0 {
        v := Flag(op == LessEqual || op == GreaterEqual);
      } else if vv > 0 {
        v := Flag(op == GreaterEqual || op == Greater);
      } else {
        v := Flag(op == LessEqual || op == Less);
      }
      r := new Expr(Scalar(v));
    }

    /** expr5 for `*`: one factor must be a scalar; the other is multiplied in place. */
    method MultiplyExprs(e: Expr, f: Expr) returns (r: Expr?)
      modifies this`err, e, f
      ensures r != null ==> fresh(r) || r == e || r == f
      ensures old(err) ==> err
      ensures match Combine(Multiply, old(e.terms), old(f.terms))
              case Some(v) => r != null && r.terms == v && err == old(err)
              case None => err
    {
      hide IsSimple, IsJustUnknown, RelocValue, ScalarMult;
      var es := e.TestSimple(true);
      if es {
        var k := e.SimpleValue();
        f.MultiplyBy(k);
        return f;
      }
      var fs := f.TestSimple(true);
      if fs {
        var k := f.SimpleValue();
        e.MultiplyBy(k);
        return e;
      }
      var eu := e.TestJustUnknown();
      var fu := f.TestJustUnknown();
      if eu && fu {
        r := new Expr(UnknownVector());
      } else {
        Error();
        r := null;
      }
    }

    /** The operators on scalars.  Most report a non-scalar and go on regardless; division
        stops, and what C leaves undefined is reported here. */
    method ScalarOperator(op: BinaryOp, e: Expr, f: Expr) returns (r: Expr?)
      requires !IsRelation(op) && op != Add && op != Subtract && op != Multiply
      modifies this`err
      ensures r != null ==> fresh(r) || r == e
      ensures old(err) ==> err
      ensures match Combine(op, e.terms, f.terms)
              case Some(v) => r != null && r.terms == v && err == old(err)
              case None => err
    {
      hide IsSimple, IsJustUnknown, IsUnknown, RelocValue, Operate, Defined, AddVectors, ScalarMult, Relate, Difference;
      var es := e.TestSimple(true);
      var eu := e.TestJustUnknown();
      var fs := f.TestSimple(true);
      var fu := f.TestJustUnknown();
      var x := e.SimpleValue();
      var y := f.SimpleValue();
      if !(es || eu) || !(fs || fu) {
        Error();
        if IsDivision(op) {
          return null;
        }
      }
      if IsDivision(op) {
        var unknown := f.TestUnknown();
        if !unknown && y == 0 {
          Error();
          return null;
        }
      }
      if (op == ShiftLeft || op == ShiftRight) && err && (!(es || eu) || !(fs || fu)) {
        return e;
      }
      if eu || fu {
        r := new Expr(UnknownVector());
      } else if !Defined(op, x, y) {
        Error();
        r := null;
      } else {
        r := new Expr(Scalar(Operate(op, x, y)));
      }
    }

    /**
      evaluate, without the WRT part: the far-absolute segment is stripped at the end.  So
      for an expression that is printed with the parentheses it needs, the vector delivered
      has the expression's value under every assignment.
     */
    method Evaluate() returns (e: Expr?)
      requires pos == 0 && start < UNARY
      modifies this
      ensures e != null && !err ==>
                && !old(err)
                && ParseLevel(toks, 0, start, start).Some?
                && pos == ParseLevel(toks, 0, start, start).value.next
                && VectorOf(env, ParseLevel(toks, 0, start, start).value.ast).Some?
                && e.terms == ScalarMult(VectorOf(env, ParseLevel(toks, 0, start, start).value.ast).value, 1)
      ensures (!old(err) && ParseLevel(toks, 0, start, start).Some?
               && VectorOf(env, ParseLevel(toks, 0, start, start).value.ast).Some?) ==> e != null && !err
      ensures forall a: Ast :: Legal(a, start) && Resolved(env, a) && toks == Print(a, start) && !old(err) ==>
                && (e != null && !err <==> VectorOf(env, a).Some?)
                && (e != null && !err ==> pos == |toks| && HasMeaning(env, a, e.terms))
    {
      hide ParseLevel, VectorOf, ScalarMult, Legal, Resolved, Print, HasMeaning;
      e := Level(start);
      if e != null {
        e.MultiplyBy(1);
      }
      forall a: Ast | Legal(a, start) && Resolved(env, a) && toks == Print(a, start)
        ensures ParseLevel(toks, 0, start, start) == Some(Parsed(a, |toks|))
        ensures VectorOf(env, a).Some? ==> HasMeaning(env, a, ScalarMult(VectorOf(env, a).value, 1))
      {
        RoundTrip(a, start);
        if VectorOf(env, a).Some? {
          StrippedMeans(env, a);
        }
      }
    }
  }

  /** The vector has the expression's value wherever its comparisons are faithful. */
  ghost predicate HasMeaning(env: Env, a: Ast, v: Vector) {
    forall rho: Assignment :: Faithful(env, rho, a) ==> Same(Value(rho, v), Meaning(env, rho, a))
  }

  lemma StrippedMeans(env: Env, a: Ast)
    requires Resolved(env, a) && VectorOf(env, a).Some?
    ensures HasMeaning(env, a, ScalarMult(VectorOf(env, a).value, 1))
  {
    hide VectorOf, Value, Same, Meaning, Faithful, ScalarMult;
    var v := VectorOf(env, a).value;
    VectorOfIsClean(env, a);
    forall rho: Assignment | Faithful(env, rho, a)
      ensures Same(Value(rho, ScalarMult(v, 1)), Meaning(env, rho, a))
    {
      EvaluationPreservesMeaning(env, rho, a);
      ScalarMultValue(rho, v, 1);
      SameTrans(Value(rho, ScalarMult(v, 1)), 1 * Value(rho, v), Meaning(env, rho, a));
    }
  }

  // ----- unfolding the grammar -----

  lemma LevelUnfolds(toks: seq<Token>, pos: nat, n: nat, start: nat)
    requires n <= UNARY && start <= UNARY
    ensures n == UNARY ==> ParseLevel(toks, pos, n, start) == ParseUnary(toks, pos, start)
    ensures n < UNARY && ParseLevel(toks, pos, n + 1, start).None? ==> ParseLevel(toks, pos, n, start) == None
    ensures n < UNARY && ParseLevel(toks, pos, n + 1, start).Some? ==>
              (var e := ParseLevel(toks, pos, n + 1, start).value;
               ParseLevel(toks, pos, n, start) == ParseTail(toks, e.next, n, start, e.ast))
  {
  }

  lemma TailUnfolds(toks: seq<Token>, pos: nat, n: nat, start: nat, left: Ast)
    requires n < UNARY && start <= UNARY && pos <= |toks|
    ensures !OperatorAt(toks, pos, n) ==> ParseTail(toks, pos, n, start, left) == Some(Parsed(left, pos))
    ensures OperatorAt(toks, pos, n) ==> pos < |toks|
    ensures OperatorAt(toks, pos, n) && ParseLevel(toks, pos + 1, n + 1, start).None? ==>
              ParseTail(toks, pos, n, start, left) == None
    ensures OperatorAt(toks, pos, n) && ParseLevel(toks, pos + 1, n + 1, start).Some? ==>
              (var f := ParseLevel(toks, pos + 1, n + 1, start).value;
               ParseTail(toks, pos, n, start, left)
               == ParseTail(toks, f.next, n, start, Binary(toks[pos].op, left, f.ast)))
  {
  }

  /** An expression that begins with an operand in error is in error. */
  lemma {:induction false} TailUnresolvable(env: Env, toks: seq<Token>, pos: nat, n: nat, start: nat, left: Ast)
    requires n < UNARY && start <= UNARY && pos <= |toks| && VectorOf(env, left).None?
    ensures ParseTail(toks, pos, n, start, left).Some? ==>
              VectorOf(env, ParseTail(toks, pos, n, start, left).value.ast).None?
    decreases |toks| - pos
  {
    TailUnfolds(toks, pos, n, start, left);
    if OperatorAt(toks, pos, n) {
      var p := ParseLevel(toks, pos + 1, n + 1, start);
      if p.Some? {
        TailUnresolvable(env, toks, p.value.next, n, start, Binary(toks[pos].op, left, p.value.ast));
      }
    }
  }

  lemma BinaryUnresolvable(env: Env, op: BinaryOp, l: Ast, r: Ast)
    requires VectorOf(env, r).None?
    ensures VectorOf(env, Binary(op, l, r)).None?
  {
  }

  lemma BinaryVector(env: Env, op: BinaryOp, l: Ast, r: Ast)
    ensures VectorOf(env, Binary(op, l, r))
         == if VectorOf(env, l).None? || VectorOf(env, r).None? then None
            else Combine(op, VectorOf(env, l).value, VectorOf(env, r).value)
  {
    hide Combine;
  }

  lemma UnaryVector(env: Env, op: UnaryOp, a: Ast)
    ensures VectorOf(env, Unary(op, a)) == if VectorOf(env, a).None? then None else Apply(op, VectorOf(env, a).value)
  {
    hide Apply;
  }

  lemma LeafHasVector(env: Env, t: Token)
    ensures VectorOf(env, Leaf(t)) == LeafVector(env, t)
  {
  }
}
