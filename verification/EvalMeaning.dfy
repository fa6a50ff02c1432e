/** What the vectors of eval.c mean: every operator preserves the value of the expression. */
module EvalMeaning {
  import opened Wrappers
  import opened ExprVector
  import opened EvalSyntax
  import opened Powers
  import opened Logarithm
  import Bits

  const NO_SEG := -1

  datatype Place = Place(segment: int, offset: int64)

  /** The label table, the assembly position, and whether unresolved symbols are errors. */
  datatype Env = Env(labels: map<string, Place>, here: Place, critical: bool)

  // ----- 64-bit arithmetic -----

  function Unsigned(x: int64): (u: nat)
    ensures u < TWO64
  {
    if x < 0 then x + TWO64 else x
  }

  function Flag(b: bool): int64 {
    if b then 1 else 0
  }

  function BitwiseOr(x: int64, y: int64): int64 {
    Wrap(Bits.Or(Unsigned(x), Unsigned(y)))
  }

  function BitwiseXor(x: int64, y: int64): int64 {
    Wrap(Bits.Xor(Unsigned(x), Unsigned(y)))
  }

  function BitwiseAnd(x: int64, y: int64): int64 {
    Wrap(Bits.And(Unsigned(x), Unsigned(y)))
  }

  /** Division that truncates toward zero. */
  function Truncated(x: int, y: int): int
    requires y != 0
  {
    if (x < 0) == (y < 0) then Abs(x) / Abs(y) else 0 - Abs(x) / Abs(y)
  }

  function Abs(x: int): nat {
    if x < 0 then 0 - x else x
  }

  /** Operands for which C defines the operator. */
  predicate Defined(op: BinaryOp, x: int64, y: int64) {
    match op
    case ShiftLeft => 0 <= y < 64
    case ShiftRight => 0 <= y < 64
    case Divide => y != 0
    case Modulo => y != 0
    case SignedDivide => y != 0 && !(x == -TWO63 && y == -1)
    case SignedModulo => y != 0 && !(x == -TWO63 && y == -1)
    case _ => true
  }

  /** The operators on 64-bit values. */
  function Operate(op: BinaryOp, x: int64, y: int64): int64
    requires Defined(op, x, y)
  {
    match op
    case LogicalOr => Flag(x != 0 || y != 0)
    case LogicalXor => Flag((x != 0) != (y != 0))
    case LogicalAnd => Flag(x != 0 && y != 0)
    case Equal => Flag(x == y)
    case NotEqual => Flag(x != y)
    case Less => Flag(x < y)
    case Greater => Flag(x > y)
    case LessEqual => Flag(x <= y)
    case GreaterEqual => Flag(x >= y)
    case BitOr => BitwiseOr(x, y)
    case BitXor => BitwiseXor(x, y)
    case BitAnd => BitwiseAnd(x, y)
    case ShiftLeft => Wrap(x * Pow2(y))
    case ShiftRight => Wrap(Unsigned(x) / Pow2(y))
    case Add => Wrap(x + y)
    case Subtract => Wrap(x - y)
    case Multiply => Wrap(x * y)
    case Divide => Wrap(Unsigned(x) / Unsigned(y))
    case Modulo => Wrap(Unsigned(x) % Unsigned(y))
    case SignedDivide => Wrap(Truncated(x, y))
    case SignedModulo => Wrap(x - y * Truncated(x, y))
  }

  // ----- the meaning of an expression -----

  function PlaceValue(rho: Assignment, p: Place): int64 {
    Wrap(p.offset + if p.segment == NO_SEG then 0 else rho(EXPR_SEGBASE + p.segment))
  }

  function LeafValue(env: Env, rho: Assignment, t: Token): int64 {
    match t
    case Literal(v) => v
    case RegisterName(k) => Wrap(rho(k))
    case Identifier(name) => if name in env.labels then PlaceValue(rho, env.labels[name]) else 0
    case Here => PlaceValue(rho, env.here)
    case Base => PlaceValue(rho, env.here.(offset := 0))
    case _ => 0
  }

  /** ilog2 of the unsigned value. */
  function LogValue(kind: LogKind, x: int64): int64 {
    LogFits(kind, Unsigned(x));
    LogOf(kind, Unsigned(x))
  }

  /** The value of an expression under an assignment; zero where C defines none. */
  function Meaning(env: Env, rho: Assignment, a: Ast): int64 {
    match a
    case Leaf(t) => LeafValue(env, rho, t)
    case Unary(op, e) =>
      var x := Meaning(env, rho, e);
      (match op
       case Negate => Wrap(0 - x)
       case Identity => x
       case Complement => 0 - x - 1
       case Not => Flag(x == 0)
       case Log(kind) => LogValue(kind, x))
    case Binary(op, l, r) =>
      var x, y := Meaning(env, rho, l), Meaning(env, rho, r);
      if Defined(op, x, y) then Operate(op, x, y) else 0
  }

  // ----- what the evaluator computes -----

  function Scalar(x: int64): Vector {
    [Term(EXPR_SIMPLE, x)]
  }

  function UnknownVector(): Vector {
    [Term(EXPR_UNKNOWN, 1)]
  }

  function PlaceVector(p: Place): Vector {
    [Term(EXPR_SIMPLE, p.offset)] + if p.segment == NO_SEG then [] else [Term(EXPR_SEGBASE + p.segment, 1)]
  }

  function LeafVector(env: Env, t: Token): Option<Vector> {
    match t
    case Literal(v) => Some(Scalar(v))
    case RegisterName(k) => Some([Term(k, 1)])
    case Identifier(name) =>
      if name in env.labels then Some(PlaceVector(env.labels[name]))
      else if env.critical then None else Some(UnknownVector())
    case Here => Some(PlaceVector(env.here))
    case Base => Some(PlaceVector(env.here.(offset := 0)))
    case _ => None
  }

  predicate ScalarOrUnknown(v: Vector) {
    IsSimple(v) || IsJustUnknown(v)
  }

  predicate IsRelation(op: BinaryOp) {
    LevelOf(op) == 3
  }

  /** The verdict of rexp3 on the difference of its operands. */
  function Verdict(op: BinaryOp, d: Vector): int64
    requires IsRelation(op)
  {
    var vv := RelocValue(d);
    if op == Equal then Flag(IsReallySimple(d) && vv == 0)
    else if op == NotEqual then Flag(!IsReallySimple(d) || vv != 0)
    else if vv == 0 then Flag(op == LessEqual || op == GreaterEqual)
    else if vv > 0 then Flag(op == GreaterEqual || op == Greater)
    else Flag(op == LessEqual || op == Less)
  }

  function Difference(e: Vector, f: Vector): Vector {
    AddVectors(e, ScalarMult(f, -1))
  }

  function Relate(op: BinaryOp, e: Vector, f: Vector): Option<Vector>
    requires IsRelation(op)
  {
    var d := Difference(e, f);
    if IsUnknown(d) then Some(UnknownVector())
    else if op != Equal && op != NotEqual && !IsReallySimple(d) then None
    else Some(Scalar(Verdict(op, d)))
  }

  predicate IsDivision(op: BinaryOp) {
    op == Divide || op == Modulo || op == SignedDivide || op == SignedModulo
  }

  /** One operator of a binary level; None stands for a reported error, and for operands on
      which C leaves the operator undefined. */
  function Combine(op: BinaryOp, e: Vector, f: Vector): Option<Vector> {
    if IsRelation(op) then Relate(op, e, f)
    else if op == Add then Some(AddVectors(e, f))
    else if op == Subtract then Some(Difference(e, f))
    else if op == Multiply then
      if IsSimple(e) then Some(ScalarMult(f, RelocValue(e)))
      else if IsSimple(f) then Some(ScalarMult(e, RelocValue(f)))
      else if IsJustUnknown(e) && IsJustUnknown(f) then Some(UnknownVector())
      else None
    else if !ScalarOrUnknown(e) || !ScalarOrUnknown(f) then None
    else if IsDivision(op) && !IsUnknown(f) && RelocValue(f) == 0 then None
    else if IsJustUnknown(e) || IsJustUnknown(f) then Some(UnknownVector())
    else if !Defined(op, RelocValue(e), RelocValue(f)) then None
    else Some(Scalar(Operate(op, RelocValue(e), RelocValue(f))))
  }

  function Apply(op: UnaryOp, e: Vector): Option<Vector> {
    match op
    case Negate => Some(ScalarMult(e, -1))
    case Identity => Some(e)
    case Complement =>
      if IsJustUnknown(e) then Some(UnknownVector())
      else if !IsSimple(e) then None else Some(Scalar(0 - RelocValue(e) - 1))
    case Not =>
      if IsJustUnknown(e) then Some(UnknownVector())
      else if !IsSimple(e) then None else Some(Scalar(Flag(RelocValue(e) == 0)))
    case Log(kind) =>
      if IsJustUnknown(e) then Some(UnknownVector())
      else if !IsSimple(e) || (kind == Exact && !IsPower2(Unsigned(RelocValue(e)))) then None
      else Some(Scalar(LogValue(kind, RelocValue(e))))
  }

  /** The vector that evaluation delivers, if no error is reported. */
  function VectorOf(env: Env, a: Ast): Option<Vector> {
    match a
    case Leaf(t) => LeafVector(env, t)
    case Unary(op, e) =>
      (match VectorOf(env, e)
       case None => None
       case Some(v) => Apply(op, v))
    case Binary(op, l, r) =>
      match VectorOf(env, l)
      case None => None
      case Some(e) =>
        match VectorOf(env, r)
        case None => None
        case Some(f) => Combine(op, e, f)
  }

  // ----- vectors of resolved expressions -----

  predicate NearPlace(p: Place) {
    p.segment == NO_SEG || 0 <= p.segment < SEG_ABS
  }

  /** Registers are registers, symbols are known, and nothing is far-absolute. */
  predicate Resolved(env: Env, a: Ast) {
    match a
    case Leaf(t) =>
      (match t
       case RegisterName(k) => k < EXPR_UNKNOWN
       case Identifier(name) => name in env.labels && NearPlace(env.labels[name])
       case Here => NearPlace(env.here)
       case Base => NearPlace(env.here)
       case _ => true)
    case Unary(_, e) => Resolved(env, e)
    case Binary(_, l, r) => Resolved(env, l) && Resolved(env, r)
  }

  predicate Clean(v: Vector) {
    Sorted(v) && Known(v)
  }

  lemma {:induction false} ScalarMultClean(v: Vector, k: int)
    requires Clean(v)
    ensures Clean(ScalarMult(v, k))
  {
    ScalarMultValue(_ => 0, v, k);
  }

  lemma AddClean(p: Vector, q: Vector)
    requires Clean(p) && Clean(q)
    ensures Clean(AddVectors(p, q))
  {
    hide Merge;
    var low := (if |p| > 0 && (|q| == 0 || p[0].kind <= q[0].kind) then p[0].kind
                else if |q| > 0 then q[0].kind else 0) - 1;
    assert forall k :: 0 < k < |p| ==> p[0].kind < p[k].kind;
    assert forall k :: 0 < k < |q| ==> q[0].kind < q[k].kind;
    MergeSorted(p, q, IsReallySimple(p) || IsReallySimple(q), low);
  }

  lemma CombineClean(op: BinaryOp, e: Vector, f: Vector)
    requires Clean(e) && Clean(f) && Combine(op, e, f).Some?
    ensures Clean(Combine(op, e, f).value)
  {
    hide Operate, Defined, Clean, AddVectors, ScalarMult, IsSimple, IsJustUnknown, IsUnknown, IsReallySimple, Verdict;
    ScalarMultClean(f, -1);
    AddClean(e, f);
    AddClean(e, ScalarMult(f, -1));
    ScalarMultClean(f, RelocValue(e));
    ScalarMultClean(e, RelocValue(f));
    CleanIsKnown(e);
    CleanIsKnown(f);
    CleanIsKnown(Difference(e, f));
    KnownMeansNotUnknown(e);
    KnownMeansNotUnknown(f);
    KnownMeansNotUnknown(Difference(e, f));
    ScalarsAreClean();
  }

  lemma CleanIsKnown(v: Vector)
    requires Clean(v)
    ensures Known(v)
  {
  }

  lemma ScalarsAreClean()
    ensures forall x: int64 :: Clean(Scalar(x))
  {
  }

  /** The vectors of resolved expressions are sorted and without unknown terms; so the
      evaluator's test for scalars is exact on them. */
  lemma {:induction false} VectorOfIsClean(env: Env, a: Ast)
    requires Resolved(env, a) && VectorOf(env, a).Some?
    ensures Clean(VectorOf(env, a).value)
    ensures IsSimple(VectorOf(env, a).value) <==>
              forall rho: Assignment :: Same(Value(rho, VectorOf(env, a).value), Value(_ => 0, VectorOf(env, a).value))
  {
    hide Combine, Apply, ScalarMult;
    match a {
      case Leaf(t) =>
      case Unary(op, e) =>
        VectorOfIsClean(env, e);
        ApplyClean(op, VectorOf(env, e).value);
      case Binary(op, l, r) =>
        VectorOfIsClean(env, l);
        VectorOfIsClean(env, r);
        CombineClean(op, VectorOf(env, l).value, VectorOf(env, r).value);
    }
    ScalarIff(VectorOf(env, a).value);
    KnownMeansNotUnknown(VectorOf(env, a).value);
  }

  lemma ApplyClean(op: UnaryOp, v: Vector)
    requires Clean(v) && Apply(op, v).Some?
    ensures Clean(Apply(op, v).value)
  {
    hide ScalarMult, IsSimple, IsJustUnknown, LogValue, IsPower2, Unsigned;
    ScalarMultClean(v, -1);
    KnownMeansNotUnknown(v);
    ScalarsAreClean();
  }

  // ----- comparisons through a wrapped difference -----

  /** The sign of the wrapped difference orders two numbers exactly when the difference
      fits; otherwise it orders them the wrong way round. */
  lemma DifferenceOrdersIff(x: int64, y: int64)
    ensures (Wrap(x - y) < 0 <==> x < y) <==> -TWO63 <= x - y < TWO63
    ensures (Wrap(x - y) > 0 <==> x > y) <==> -TWO63 <= x - y < TWO63
    ensures Wrap(x - y) == 0 <==> x == y
  {
  }

  /** Comparisons come out right: orderings when the difference fits, equality when it is a
      scalar or the values differ. */
  predicate Faithful(env: Env, rho: Assignment, a: Ast) {
    match a
    case Leaf(_) => true
    case Unary(_, e) => Faithful(env, rho, e)
    case Binary(op, l, r) =>
      && Faithful(env, rho, l) && Faithful(env, rho, r)
      && (IsRelation(op) && VectorOf(env, l).Some? && VectorOf(env, r).Some? ==>
            FaithfulRelation(op, VectorOf(env, l).value, VectorOf(env, r).value,
                             Meaning(env, rho, l), Meaning(env, rho, r)))
  }

  predicate FaithfulRelation(op: BinaryOp, e: Vector, f: Vector, x: int64, y: int64) {
    if op == Equal || op == NotEqual then IsReallySimple(Difference(e, f)) || x != y
    else -TWO63 <= x - y < TWO63
  }

  // ----- the operators preserve values -----

  lemma DifferenceValue(rho: Assignment, e: Vector, f: Vector)
    requires Clean(e) && Clean(f)
    ensures Same(Value(rho, Difference(e, f)), Value(rho, e) - Value(rho, f))
  {
    hide Same, Value, Merge, ScalarMult;
    ScalarMultValue(rho, f, -1);
    var g := ScalarMult(f, -1);
    MergeValue(rho, e, g, IsReallySimple(e) || IsReallySimple(g));
    SameFromMultiple(Value(rho, e), Value(rho, e), 0);
    SameSum(Value(rho, e), Value(rho, e), Value(rho, g), -1 * Value(rho, f));
    SameTrans(Value(rho, Difference(e, f)), Value(rho, e) + Value(rho, g), Value(rho, e) - Value(rho, f));
  }

  /** A vector that is a scalar with a value congruent to `x` holds `x` itself. */
  lemma ScalarIs(rho: Assignment, v: Vector, x: int64)
    requires IsReallySimple(v) && Same(Value(rho, v), x)
    ensures RelocValue(v) == x
  {
    ScalarValue(rho, v);
    SameWraps(RelocValue(v), x);
    WrapSmall(RelocValue(v));
    WrapSmall(x);
  }

  /** A comparison is answered rightly exactly when it is faithful, whatever its operands. */
  lemma RelateIff(rho: Assignment, op: BinaryOp, e: Vector, f: Vector, x: int64, y: int64)
    requires IsRelation(op) && Clean(e) && Clean(f) && Relate(op, e, f).Some?
    requires Same(Value(rho, e), x) && Same(Value(rho, f), y)
    ensures Relate(op, e, f) == Some(Scalar(Operate(op, x, y))) <==> FaithfulRelation(op, e, f, x, y)
  {
    hide Same, Wrap, Difference, IsReallySimple, Clean, RelocValue, Verdict, Operate;
    var d := Difference(e, f);
    assert Clean(d) by {
      DifferenceIs(e, f);
      ScalarMultClean(f, -1);
      AddClean(e, ScalarMult(f, -1));
    }
    CleanIsKnown(d);
    KnownMeansNotUnknown(d);
    DifferenceValue(rho, e, f);
    SameSum(Value(rho, e), x, Value(rho, f), y);
    SameTrans(Value(rho, d), Value(rho, e) - Value(rho, f), x - y);
    WrapSame(x - y);
    SameTrans(Wrap(x - y), x - y, x - y) by { SameFromMultiple(x - y, x - y, 0); }
    SameTrans(Value(rho, d), x - y, Wrap(x - y));
    DifferenceOrdersIff(x, y);
    if IsReallySimple(d) {
      ScalarIs(rho, d, Wrap(x - y));
    }
    VerdictIff(op, d, x, y);
  }

  lemma VerdictIff(op: BinaryOp, d: Vector, x: int64, y: int64)
    requires IsRelation(op)
    requires IsReallySimple(d) ==> RelocValue(d) == Wrap(x - y)
    requires op == Equal || op == NotEqual || IsReallySimple(d)
    ensures Verdict(op, d) == Operate(op, x, y)
       <==> if op == Equal || op == NotEqual then IsReallySimple(d) || x != y else -TWO63 <= x - y < TWO63
  {
    hide IsReallySimple, RelocValue, Wrap;
    DifferenceOrdersIff(x, y);
  }

  lemma DifferenceIs(e: Vector, f: Vector)
    ensures Difference(e, f) == AddVectors(e, ScalarMult(f, -1))
  {
  }

  lemma AddPreserves(rho: Assignment, e: Vector, f: Vector, x: int64, y: int64)
    requires Clean(e) && Clean(f) && Same(Value(rho, e), x) && Same(Value(rho, f), y)
    ensures Same(Value(rho, AddVectors(e, f)), Wrap(x + y))
    ensures Same(Value(rho, Difference(e, f)), Wrap(x - y))
  {
    hide Same, Wrap, Merge, Difference, Value;
    MergeValue(rho, e, f, IsReallySimple(e) || IsReallySimple(f));
    DifferenceValue(rho, e, f);
    SameSum(Value(rho, e), x, Value(rho, f), y);
    WrapSame(x + y);
    WrapSame(x - y);
    SameTrans(Value(rho, AddVectors(e, f)), Value(rho, e) + Value(rho, f), x + y);
    SameTrans(Value(rho, Difference(e, f)), Value(rho, e) - Value(rho, f), x - y);
    SameFlip(Wrap(x + y), x + y);
    SameFlip(Wrap(x - y), x - y);
    SameTrans(Value(rho, AddVectors(e, f)), x + y, Wrap(x + y));
    SameTrans(Value(rho, Difference(e, f)), x - y, Wrap(x - y));
  }

  lemma SameFlip(a: int, b: int)
    requires Same(a, b)
    ensures Same(b, a)
  {
    SameTrans(a, b, b) by { SameFromMultiple(b, b, 0); }
  }

  lemma ScalarMultPreserves(rho: Assignment, v: Vector, k: int64, y: int64)
    requires Clean(v) && Same(Value(rho, v), y)
    ensures Same(Value(rho, ScalarMult(v, k)), Wrap(k * y))
  {
    hide Same, Wrap, ScalarMult, Value;
    ScalarMultValue(rho, v, k);
    SameProduct(Value(rho, v), y, k);
    Commute(Value(rho, v), k);
    Commute(y, k);
    SameTrans(Value(rho, ScalarMult(v, k)), k * Value(rho, v), k * y);
    WrapSame(k * y);
    SameFlip(Wrap(k * y), k * y);
    SameTrans(Value(rho, ScalarMult(v, k)), k * y, Wrap(k * y));
  }

  lemma Commute(a: int, b: int)
    ensures a * b == b * a
  {
  }

  lemma ScalarHasValue(rho: Assignment, x: int64)
    ensures Same(Value(rho, Scalar(x)), x)
  {
    assert Scalar(x)[1..] == [];
    assert Value(rho, Scalar(x)) == x;
    SameFromMultiple(x, x, 0);
  }

  lemma CombinePreserves(rho: Assignment, op: BinaryOp, e: Vector, f: Vector, x: int64, y: int64)
    requires Clean(e) && Clean(f) && Combine(op, e, f).Some?
    requires Same(Value(rho, e), x) && Same(Value(rho, f), y)
    requires IsRelation(op) ==> FaithfulRelation(op, e, f, x, y)
    ensures Defined(op, x, y) && Same(Value(rho, Combine(op, e, f).value), Operate(op, x, y))
  {
    hide Same, Wrap, Value, Difference, AddVectors, ScalarMult, Clean, Scalar, RelocValue, Relate, FaithfulRelation,
      IsReallySimple, IsSimple, IsJustUnknown, IsUnknown, Unsigned, Truncated, BitwiseAnd, BitwiseOr, BitwiseXor;
    CleanIsKnown(e);
    CleanIsKnown(f);
    KnownMeansNotUnknown(e);
    KnownMeansNotUnknown(f);
    if IsRelation(op) {
      RelateIff(rho, op, e, f, x, y);
      ScalarHasValue(rho, Operate(op, x, y));
    } else if op == Add || op == Subtract {
      AddPreserves(rho, e, f, x, y);
    } else if op == Multiply {
      if IsSimple(e) {
        ScalarIs(rho, e, x);
        ScalarMultPreserves(rho, f, x, y);
      } else {
        ScalarIs(rho, f, y);
        ScalarMultPreserves(rho, e, y, x);
        Commute(x, y);
      }
    } else {
      ScalarIs(rho, e, x);
      ScalarIs(rho, f, y);
      ScalarHasValue(rho, Operate(op, x, y));
    }
  }

  lemma PlacePreserves(rho: Assignment, p: Place)
    requires NearPlace(p)
    ensures Same(Value(rho, PlaceVector(p)), PlaceValue(rho, p))
  {
    hide Same, Wrap;
    var x := p.offset + if p.segment == NO_SEG then 0 else rho(EXPR_SEGBASE + p.segment);
    var v := PlaceVector(p);
    OneTermValue(rho, Term(EXPR_SIMPLE, p.offset));
    if p.segment != NO_SEG {
      OneTermValue(rho, Term(EXPR_SEGBASE + p.segment, 1));
      ValueAppend(rho, [Term(EXPR_SIMPLE, p.offset)], [Term(EXPR_SEGBASE + p.segment, 1)]);
    } else {
      assert v == [Term(EXPR_SIMPLE, p.offset)];
    }
    assert Value(rho, v) == x;
    WrapSame(x);
    SameFlip(Wrap(x), x);
  }

  lemma OneTermValue(rho: Assignment, t: Term)
    ensures Value(rho, [t]) == t.value * if t.kind == EXPR_SIMPLE then 1 else rho(t.kind)
  {
    assert [t][1..] == [];
  }

  lemma LeafPreserves(env: Env, rho: Assignment, t: Token)
    requires Resolved(env, Leaf(t)) && LeafVector(env, t).Some?
    ensures Same(Value(rho, LeafVector(env, t).value), LeafValue(env, rho, t))
  {
    hide Same, Wrap, PlaceVector, Scalar;
    match t {
      case Literal(v) => ScalarHasValue(rho, v);
      case RegisterName(k) =>
        assert [Term(k, 1)][1..] == [];
        WrapSame(rho(k));
        SameFlip(Wrap(rho(k)), rho(k));
      case Identifier(name) => PlacePreserves(rho, env.labels[name]);
      case Here => PlacePreserves(rho, env.here);
      case Base => PlacePreserves(rho, env.here.(offset := 0));
    }
  }

  lemma ApplyPreserves(rho: Assignment, op: UnaryOp, v: Vector, x: int64)
    requires Clean(v) && Apply(op, v).Some? && Same(Value(rho, v), x)
    ensures Same(Value(rho, Apply(op, v).value),
                 match op
                 case Negate => Wrap(0 - x)
                 case Identity => x
                 case Complement => 0 - x - 1
                 case Not => Flag(x == 0)
                 case Log(kind) => LogValue(kind, x))
  {
    hide Same, Wrap, Value, ScalarMult, Scalar, IsSimple, IsReallySimple, RelocValue, IsJustUnknown, Clean,
      LogValue, IsPower2, Unsigned;
    CleanIsKnown(v);
    KnownMeansNotUnknown(v);
    match op {
      case Negate => ScalarMultPreserves(rho, v, -1, x);
      case Identity =>
      case Complement =>
        ScalarIs(rho, v, x);
        ScalarHasValue(rho, 0 - x - 1);
      case Not =>
        ScalarIs(rho, v, x);
        ScalarHasValue(rho, Flag(x == 0));
      case Log(kind) =>
        ScalarIs(rho, v, x);
        ScalarHasValue(rho, LogValue(kind, x));
    }
  }

  /**
    The evaluator preserves meaning: under every assignment of registers and segment bases
    the vector of an error-free expression has the expression's value modulo 2^64.
   */
  lemma {:induction false} EvaluationPreservesMeaning(env: Env, rho: Assignment, a: Ast)
    requires Resolved(env, a) && VectorOf(env, a).Some? && Faithful(env, rho, a)
    ensures Same(Value(rho, VectorOf(env, a).value), Meaning(env, rho, a))
  {
    hide Same, Wrap, Value, Combine, Apply, Clean, LeafVector, LeafValue, FaithfulRelation, Operate, Defined;
    match a {
      case Leaf(t) => LeafPreserves(env, rho, t);
      case Unary(op, e) =>
        EvaluationPreservesMeaning(env, rho, e);
        VectorOfIsClean(env, e);
        ApplyPreserves(rho, op, VectorOf(env, e).value, Meaning(env, rho, e));
      case Binary(op, l, r) =>
        EvaluationPreservesMeaning(env, rho, l);
        EvaluationPreservesMeaning(env, rho, r);
        VectorOfIsClean(env, l);
        VectorOfIsClean(env, r);
        CombinePreserves(rho, op, VectorOf(env, l).value, VectorOf(env, r).value,
                         Meaning(env, rho, l), Meaning(env, rho, r));
    }
  }

  /** A comparison whose difference overflows is answered wrongly: 2^63 - 1 < -1 holds here. */
  lemma OverflowingComparison()
    ensures var a := Binary(Less, Leaf(Literal(TWO63 - 1)), Leaf(Literal(-1)));
            var env := Env(map[], Place(NO_SEG, 0), true);
            VectorOf(env, a) == Some(Scalar(1)) && Meaning(env, _ => 0, a) == 0
  {
    var e, f := Scalar(TWO63 - 1), Scalar(-1);
    assert e[1..] == [] && f[1..] == [];
    assert ScalarMult(f, -1) == Scalar(1);
    assert Scalar(1)[1..] == [];
    assert Merge(e, Scalar(1), true) == Scalar(-TWO63);
    assert Scalar(-TWO63)[1..] == [];
  }

  /**
    Any vector minus itself is empty, and an unknown term cancels like any other: so the
    difference of two undefined symbols, both the unknown vector, counts as zero.
   */
  lemma {:induction false} SelfDifference(v: Vector)
    requires forall k :: 0 <= k < |v| ==> v[k].kind < FAR_ABSOLUTE
    ensures Difference(v, v) == []
  {
    Cancels(v, IsReallySimple(v) || IsReallySimple(ScalarMult(v, -1)));
  }

  lemma {:induction false} Cancels(v: Vector, preserve: bool)
    requires forall k :: 0 <= k < |v| ==> v[k].kind < FAR_ABSOLUTE
    ensures Merge(v, ScalarMult(v, -1), preserve) == []
  {
    if |v| > 0 {
      Cancels(v[1..], preserve);
      var w := ScalarMult(v, -1);
      assert w[0] == Term(v[0].kind, Wrap(-1 * v[0].value)) && w[1..] == ScalarMult(v[1..], -1);
    }
  }
}
