/** The grammar of eval.c: expressions, their printed form, and the recursive descent over it. */
module EvalSyntax {
  import opened Sequences
  import opened Wrappers
  import opened ExprVector
  import opened Logarithm

  datatype BinaryOp =
    | LogicalOr | LogicalXor | LogicalAnd
    | Equal | NotEqual | Less | Greater | LessEqual | GreaterEqual
    | BitOr | BitXor | BitAnd | ShiftLeft | ShiftRight
    | Add | Subtract
    | Multiply | Divide | Modulo | SignedDivide | SignedModulo

  /** The nonterminal that handles an operator: rexp0 to rexp3 are 0 to 3, expr0 to expr5
      are 4 to 9, and expr6 is 10. */
  function LevelOf(op: BinaryOp): nat {
    match op
    case LogicalOr => 0
    case LogicalXor => 1
    case LogicalAnd => 2
    case Equal => 3
    case NotEqual => 3
    case Less => 3
    case Greater => 3
    case LessEqual => 3
    case GreaterEqual => 3
    case BitOr => 4
    case BitXor => 5
    case BitAnd => 6
    case ShiftLeft => 7
    case ShiftRight => 7
    case Add => 8
    case Subtract => 8
    case _ => 9
  }

  const UNARY := 10

  datatype UnaryOp = Negate | Identity | Complement | Not | Log(kind: LogKind)

  datatype Token =
    | Literal(value: int64)
    | RegisterName(kind: int)
    | Identifier(name: string)
    | Here
    | Base
    | Operator(op: BinaryOp)
    | Tilde
    | Bang
    | IntegerFunction(log: LogKind)
    | Open
    | Close
    | Other

  datatype Ast =
    | Leaf(token: Token)
    | Unary(uop: UnaryOp, arg: Ast)
    | Binary(op: BinaryOp, left: Ast, right: Ast)

  predicate IsLeaf(t: Token) {
    t.Literal? || t.RegisterName? || t.Identifier? || t.Here? || t.Base?
  }

  /** An expression of the grammar that starts at level `start`. */
  predicate Legal(a: Ast, start: nat) {
    match a
    case Leaf(t) => IsLeaf(t)
    case Unary(_, e) => Legal(e, start)
    case Binary(op, l, r) => LevelOf(op) >= start && Legal(l, start) && Legal(r, start)
  }

  // ----- printing with the parentheses a level needs -----

  function Rank(a: Ast): nat {
    if a.Binary? then LevelOf(a.op) else UNARY
  }

  function UnaryToken(op: UnaryOp): Token {
    match op
    case Negate => Operator(Subtract)
    case Identity => Operator(Add)
    case Complement => Tilde
    case Not => Bang
    case Log(kind) => IntegerFunction(kind)
  }

  function Print(a: Ast, n: nat): seq<Token>
    decreases a, 1
  {
    if Rank(a) < n then [Open] + PrintBare(a) + [Close] else PrintBare(a)
  }

  function PrintBare(a: Ast): seq<Token>
    decreases a, 0
  {
    match a
    case Leaf(t) => [t]
    case Unary(op, e) => [UnaryToken(op)] + Print(e, UNARY)
    case Binary(op, l, r) => Print(l, LevelOf(op)) + [Operator(op)] + Print(r, LevelOf(op) + 1)
  }

  // ----- parsing -----

  datatype Parsed = Parsed(ast: Ast, next: nat)

  function At(toks: seq<Token>, pos: nat): Token {
    if pos < |toks| then toks[pos] else Other
  }

  /** The operator of level `n` at `pos`, if that is what stands there. */
  predicate OperatorAt(toks: seq<Token>, pos: nat, n: nat) {
    At(toks, pos).Operator? && LevelOf(At(toks, pos).op) == n
  }

  function UnaryAt(t: Token): Option<UnaryOp> {
    match t
    case Operator(op) => if op == Subtract then Some(Negate) else if op == Add then Some(Identity) else None
    case Tilde => Some(Complement)
    case Bang => Some(Not)
    case IntegerFunction(kind) => Some(Log(kind))
    case _ => None
  }

  /** rexp0 .. expr5: an operand of the next level, then operators of this one. */
  function ParseLevel(toks: seq<Token>, pos: nat, n: nat, start: nat): (r: Option<Parsed>)
    requires n <= UNARY && start <= UNARY
    ensures r.Some? ==> pos < r.value.next <= |toks|
    decreases |toks| - pos, 11 - n
  {
    if n == UNARY then ParseUnary(toks, pos, start)
    else
      match ParseLevel(toks, pos, n + 1, start)
      case None => None
      case Some(e) => ParseTail(toks, e.next, n, start, e.ast)
  }

  function ParseTail(toks: seq<Token>, pos: nat, n: nat, start: nat, left: Ast): (r: Option<Parsed>)
    requires n < UNARY && start <= UNARY && pos <= |toks|
    ensures r.Some? ==> pos <= r.value.next <= |toks|
    decreases |toks| - pos, 0
  {
    if !OperatorAt(toks, pos, n) then Some(Parsed(left, pos))
    else
      match ParseLevel(toks, pos + 1, n + 1, start)
      case None => None
      case Some(f) => ParseTail(toks, f.next, n, start, Binary(At(toks, pos).op, left, f.ast))
  }

  /** expr6 */
  function ParseUnary(toks: seq<Token>, pos: nat, start: nat): (r: Option<Parsed>)
    requires start <= UNARY
    ensures r.Some? ==> pos < r.value.next <= |toks|
    decreases |toks| - pos, 0
  {
    var t := At(toks, pos);
    if UnaryAt(t).Some? then
      match ParseUnary(toks, pos + 1, start)
      case None => None
      case Some(e) => Some(Parsed(Unary(UnaryAt(t).value, e.ast), e.next))
    else if t == Open then
      match ParseLevel(toks, pos + 1, start, start)
      case None => None
      case Some(e) => if At(toks, e.next) == Close then Some(Parsed(e.ast, e.next + 1)) else None
    else if IsLeaf(t) then Some(Parsed(Leaf(t), pos + 1))
    else None
  }

  // ----- the parser undoes the printer -----

  lemma StandsOne(toks: seq<Token>, pos: nat, t: Token)
    requires Stands(toks, pos, [t])
    ensures At(toks, pos) == t
  {
  }

  /** What follows does not continue an expression of level `n` or tighter. */
  predicate Ends(toks: seq<Token>, pos: nat, n: int) {
    At(toks, pos).Operator? ==> LevelOf(At(toks, pos).op) <= n
  }

  /** A printed expression is read back up to the operators that may still follow it. */
  lemma {:induction false} ReadsBack(toks: seq<Token>, pos: nat, a: Ast, n: nat, start: nat)
    requires n <= UNARY && start <= UNARY && Legal(a, start)
    requires Stands(toks, pos, Print(a, n)) && Ends(toks, pos + |Print(a, n)|, n)
    ensures ParseLevel(toks, pos, n, start)
         == if n < UNARY then ParseTail(toks, pos + |Print(a, n)|, n, start, a)
            else Some(Parsed(a, pos + |Print(a, n)|))
    decreases a, if Rank(a) < n then 1 else 0, UNARY - n
  {
    hide Print, PrintBare, LevelOf, ParseLevel, ParseTail, Stands, UnaryToken, IsLeaf;
    var end := pos + |Print(a, n)|;
    RankBound(a);
    StandsFits(toks, pos, Print(a, n));
    if n < UNARY && Rank(a) != n {
      SamePrint(a, n);
      ReadsBack(toks, pos, a, n + 1, start);
      if n + 1 < UNARY {
        TailStops(toks, end, n + 1, start, a);
      }
      LevelStep(toks, pos, n, start, Parsed(a, end));
    } else if n < UNARY {
      ReadsBackBinary(toks, pos, a, start);
    } else if Rank(a) < n {
      ReadsBackParenthesised(toks, pos, a, start);
    } else {
      PrintUnary(a);
      if a.Unary? {
        StandsSplit(toks, pos, [UnaryToken(a.uop)], Print(a.arg, UNARY));
        StandsOne(toks, pos, UnaryToken(a.uop));
        ReadsBack(toks, pos + 1, a.arg, UNARY, start);
        UnaryStep(toks, pos, start, a.uop, Parsed(a.arg, end));
      } else {
        StandsOne(toks, pos, a.token);
        LeafStep(toks, pos, start, a.token);
      }
    }
  }

  lemma UnaryStep(toks: seq<Token>, pos: nat, start: nat, op: UnaryOp, e: Parsed)
    requires start <= UNARY && At(toks, pos) == UnaryToken(op) && ParseLevel(toks, pos + 1, UNARY, start) == Some(e)
    ensures ParseLevel(toks, pos, UNARY, start) == Some(Parsed(Unary(op, e.ast), e.next))
  {
  }

  lemma LeafStep(toks: seq<Token>, pos: nat, start: nat, t: Token)
    requires start <= UNARY && At(toks, pos) == t && IsLeaf(t)
    ensures ParseLevel(toks, pos, UNARY, start) == Some(Parsed(Leaf(t), pos + 1))
  {
  }

  lemma LevelStep(toks: seq<Token>, pos: nat, n: nat, start: nat, e: Parsed)
    requires n < UNARY && start <= UNARY && ParseLevel(toks, pos, n + 1, start) == Some(e) && e.next <= |toks|
    ensures ParseLevel(toks, pos, n, start) == ParseTail(toks, e.next, n, start, e.ast)
  {
    hide ParseTail, ParseUnary;
  }

  lemma RankBound(a: Ast)
    ensures Rank(a) <= UNARY && (a.Binary? <==> Rank(a) < UNARY)
  {
  }

  lemma StandsFits(toks: seq<Token>, pos: nat, p: seq<Token>)
    requires Stands(toks, pos, p)
    ensures pos + |p| <= |toks|
  {
  }

  lemma PrintUnary(a: Ast)
    requires Rank(a) == UNARY
    ensures !a.Binary? && Print(a, UNARY) == if a.Unary? then [UnaryToken(a.uop)] + Print(a.arg, UNARY) else [a.token]
  {
  }

  lemma SamePrint(a: Ast, n: nat)
    requires Rank(a) != n
    ensures Print(a, n + 1) == Print(a, n)
  {
  }

  lemma {:induction false} ReadsBackBinary(toks: seq<Token>, pos: nat, a: Ast, start: nat)
    requires a.Binary? && start <= UNARY && Legal(a, start)
    requires Stands(toks, pos, Print(a, LevelOf(a.op))) && Ends(toks, pos + |Print(a, LevelOf(a.op))|, LevelOf(a.op))
    ensures ParseLevel(toks, pos, LevelOf(a.op), start)
         == ParseTail(toks, pos + |Print(a, LevelOf(a.op))|, LevelOf(a.op), start, a)
    decreases a, 0, 0
  {
    hide Print, PrintBare, LevelOf, ParseLevel, ParseTail, Stands;
    var n := LevelOf(a.op);
    var l, r := Print(a.left, n), Print(a.right, n + 1);
    PrintBinary(a);
    StandsSplit(toks, pos, l + [Operator(a.op)], r);
    StandsSplit(toks, pos, l, [Operator(a.op)]);
    StandsOne(toks, pos + |l|, Operator(a.op));
    var end := pos + |l| + 1 + |r|;
    ReadsBack(toks, pos, a.left, n, start);
    ReadsBack(toks, pos + |l| + 1, a.right, n + 1, start);
    if n + 1 < UNARY {
      TailStops(toks, end, n + 1, start, a.right);
    }
    TailSteps(toks, pos + |l|, n, start, a.left, Parsed(a.right, end));
  }

  lemma PrintBinary(a: Ast)
    requires a.Binary?
    ensures var n := LevelOf(a.op);
            n < UNARY && Print(a, n) == Print(a.left, n) + [Operator(a.op)] + Print(a.right, n + 1)
  {
    hide LevelOf, Print, PrintBare;
    RankBound(a);
    PrintTight(a, LevelOf(a.op));
    BareBinary(a);
  }

  lemma PrintTight(a: Ast, n: nat)
    requires Rank(a) >= n
    ensures Print(a, n) == PrintBare(a)
  {
  }

  lemma BareBinary(a: Ast)
    requires a.Binary?
    ensures PrintBare(a) == Print(a.left, LevelOf(a.op)) + [Operator(a.op)] + Print(a.right, LevelOf(a.op) + 1)
  {
    hide LevelOf, Print;
  }

  lemma TailStops(toks: seq<Token>, pos: nat, n: nat, start: nat, left: Ast)
    requires n < UNARY && start <= UNARY && pos <= |toks| && Ends(toks, pos, n - 1)
    ensures ParseTail(toks, pos, n, start, left) == Some(Parsed(left, pos))
  {
  }

  lemma TailSteps(toks: seq<Token>, pos: nat, n: nat, start: nat, left: Ast, f: Parsed)
    requires n < UNARY && start <= UNARY && pos <= |toks| && OperatorAt(toks, pos, n)
    requires ParseLevel(toks, pos + 1, n + 1, start) == Some(f)
    ensures ParseTail(toks, pos, n, start, left)
         == ParseTail(toks, f.next, n, start, Binary(At(toks, pos).op, left, f.ast))
  {
  }

  lemma {:induction false} ReadsBackParenthesised(toks: seq<Token>, pos: nat, a: Ast, start: nat)
    requires a.Binary? && start <= UNARY && Legal(a, start) && Stands(toks, pos, Print(a, UNARY))
    ensures ParseLevel(toks, pos, UNARY, start) == Some(Parsed(a, pos + |Print(a, UNARY)|))
    decreases a, 0, UNARY + 1
  {
    hide Print, PrintBare, LevelOf, ParseLevel, ParseTail, Stands;
    var p := PrintBare(a);
    PrintParenthesised(a, start);
    PrintTight(a, start);
    StandsSplit(toks, pos, [Open] + p, [Close]);
    StandsSplit(toks, pos, [Open], p);
    StandsOne(toks, pos, Open);
    StandsOne(toks, pos + 1 + |p|, Close);
    StandsFits(toks, pos + 1, p);
    ReadsBack(toks, pos + 1, a, start, start);
    if start < UNARY {
      TailStops(toks, pos + 1 + |p|, start, start, a);
    }
    ParenthesisStep(toks, pos, start, Parsed(a, pos + 1 + |p|));
  }

  lemma PrintParenthesised(a: Ast, start: nat)
    requires a.Binary? && Legal(a, start)
    ensures Print(a, UNARY) == [Open] + PrintBare(a) + [Close]
    ensures Rank(a) >= start
  {
    hide PrintBare;
  }

  lemma ParenthesisStep(toks: seq<Token>, pos: nat, start: nat, e: Parsed)
    requires start <= UNARY && At(toks, pos) == Open && ParseLevel(toks, pos + 1, start, start) == Some(e)
    requires At(toks, e.next) == Close
    ensures ParseLevel(toks, pos, UNARY, start) == Some(Parsed(e.ast, e.next + 1))
  {
  }

  /** Whole expressions: printing and parsing are inverse for both starting levels. */
  lemma RoundTrip(a: Ast, start: nat)
    requires start < UNARY && Legal(a, start)
    ensures ParseLevel(Print(a, start), 0, start, start) == Some(Parsed(a, |Print(a, start)|))
  {
    hide Print, ParseLevel, ParseTail;
    var toks := Print(a, start);
    assert toks[0..0 + |toks|] == toks;
    ReadsBack(toks, 0, a, start, start);
    TailStops(toks, |toks|, start, start, a);
  }

  /** What is parsed is an expression of the grammar. */
  lemma {:induction false} ParsedIsLegal(toks: seq<Token>, pos: nat, n: nat, start: nat)
    requires n <= UNARY && start <= n && ParseLevel(toks, pos, n, start).Some?
    ensures Legal(ParseLevel(toks, pos, n, start).value.ast, start)
    decreases |toks| - pos, 11 - n
  {
    if n == UNARY {
      var t := At(toks, pos);
      if UnaryAt(t).Some? {
        ParsedIsLegal(toks, pos + 1, UNARY, start);
      } else if t == Open {
        ParsedIsLegal(toks, pos + 1, start, start);
      }
    } else {
      ParsedIsLegal(toks, pos, n + 1, start);
      var e := ParseLevel(toks, pos, n + 1, start).value;
      TailIsLegal(toks, e.next, n, start, e.ast);
    }
  }

  lemma {:induction false} TailIsLegal(toks: seq<Token>, pos: nat, n: nat, start: nat, left: Ast)
    requires n < UNARY && start <= n && pos <= |toks| && Legal(left, start)
    requires ParseTail(toks, pos, n, start, left).Some?
    ensures Legal(ParseTail(toks, pos, n, start, left).value.ast, start)
    decreases |toks| - pos, 0
  {
    if OperatorAt(toks, pos, n) {
      ParsedIsLegal(toks, pos + 1, n + 1, start);
      var f := ParseLevel(toks, pos + 1, n + 1, start).value;
      TailIsLegal(toks, f.next, n, start, Binary(At(toks, pos).op, left, f.ast));
    }
  }
}
