/** Which operator of an expression binds tighter, class by class. */
module Precedence {
  import opened Wrappers
  import opened EvalSyntax

  /** The binary operators of each of the ten classes, loosest first. */
  function Class(k: nat): set<BinaryOp>
    requires k < 10
  {
    [{LogicalOr}, {LogicalXor}, {LogicalAnd},
     {Equal, NotEqual, Less, Greater, LessEqual, GreaterEqual},
     {BitOr}, {BitXor}, {BitAnd}, {ShiftLeft, ShiftRight},
     {Add, Subtract}, {Multiply, Divide, Modulo, SignedDivide, SignedModulo}][k]
  }

  /** `q` stands in a later class than `p`. */
  ghost predicate Tighter(q: BinaryOp, p: BinaryOp) {
    exists i: nat, j: nat :: i < j < 10 && p in Class(i) && q in Class(j)
  }

  lemma LevelIsClass(op: BinaryOp, k: nat)
    requires k < 10
    ensures op in Class(k) <==> LevelOf(op) == k
  {
  }

  lemma LaterClass(q: BinaryOp, p: BinaryOp, i: nat, j: nat)
    requires i < j < 10 && p in Class(i) && q in Class(j)
    ensures LevelOf(p) < LevelOf(q)
  {
    hide Class, LevelOf;
    LevelIsClass(p, i);
    LevelIsClass(q, j);
  }

  lemma LaterLevel(q: BinaryOp, p: BinaryOp)
    requires LevelOf(p) < LevelOf(q)
    ensures Tighter(q, p)
  {
    hide Class, LevelOf;
    LevelBound(q);
    LevelIsClass(p, LevelOf(p));
    LevelIsClass(q, LevelOf(q));
  }

  lemma TighterIff(q: BinaryOp, p: BinaryOp)
    ensures Tighter(q, p) <==> LevelOf(p) < LevelOf(q)
  {
    hide Class, LevelOf;
    if Tighter(q, p) {
      var i: nat, j: nat :| i < j < 10 && p in Class(i) && q in Class(j);
      LaterClass(q, p, i, j);
    } else if LevelOf(p) < LevelOf(q) {
      LaterLevel(q, p);
    }
  }

  /** The tokens are a whole expression, and this is its tree. */
  ghost predicate Means(toks: seq<Token>, a: Ast) {
    ParseLevel(toks, 0, 0, 0) == Some(Parsed(a, |toks|))
  }

  lemma Printed(toks: seq<Token>, a: Ast)
    requires Legal(a, 0) && Print(a, 0) == toks
    ensures Means(toks, a)
  {
    hide Legal, Print, ParseLevel;
    RoundTrip(a, 0);
  }

  lemma LeafForm(x: Token, n: nat)
    requires IsLeaf(x) && n <= UNARY
    ensures Print(Leaf(x), n) == [x] && Legal(Leaf(x), 0)
  {
  }

  lemma BinaryForm(op: BinaryOp, l: Ast, r: Ast, n: nat)
    requires Legal(l, 0) && Legal(r, 0)
    ensures var bare := Print(l, LevelOf(op)) + [Operator(op)] + Print(r, LevelOf(op) + 1);
            Print(Binary(op, l, r), n) == if LevelOf(op) < n then [Open] + bare + [Close] else bare
    ensures Legal(Binary(op, l, r), 0)
  {
    assert Rank(Binary(op, l, r)) == LevelOf(op);
    assert PrintBare(Binary(op, l, r)) == Print(l, LevelOf(op)) + [Operator(op)] + Print(r, LevelOf(op) + 1);
  }

  lemma UnaryForm(op: UnaryOp, e: Ast, n: nat)
    requires Legal(e, 0) && n <= UNARY
    ensures Print(Unary(op, e), n) == [UnaryToken(op)] + Print(e, UNARY) && Legal(Unary(op, e), 0)
  {
    assert PrintBare(Unary(op, e)) == [UnaryToken(op)] + Print(e, UNARY);
  }

  /** The leaves of three operands print alone at every level. */
  lemma Leaves(x: Token, y: Token, z: Token)
    requires IsLeaf(x) && IsLeaf(y) && IsLeaf(z)
    ensures forall n: nat :: n <= UNARY ==>
              Print(Leaf(x), n) == [x] && Print(Leaf(y), n) == [y] && Print(Leaf(z), n) == [z]
    ensures Legal(Leaf(x), 0) && Legal(Leaf(y), 0) && Legal(Leaf(z), 0)
  {
    forall n: nat | n <= UNARY
      ensures Print(Leaf(x), n) == [x] && Print(Leaf(y), n) == [y] && Print(Leaf(z), n) == [z]
    {
      LeafForm(x, n);
      LeafForm(y, n);
      LeafForm(z, n);
    }
    LeafForm(x, 0);
    LeafForm(y, 0);
    LeafForm(z, 0);
  }

  lemma LevelBound(op: BinaryOp)
    ensures LevelOf(op) < UNARY
  {
  }

  /** Two operators without parentheses: the second takes the middle operand exactly when its
      class is a later one; within a class the first does. */
  lemma Associates(x: Token, p: BinaryOp, y: Token, q: BinaryOp, z: Token)
    requires IsLeaf(x) && IsLeaf(y) && IsLeaf(z)
    ensures var toks := [x, Operator(p), y, Operator(q), z];
            if Tighter(q, p) then Means(toks, Binary(p, Leaf(x), Binary(q, Leaf(y), Leaf(z))))
            else Means(toks, Binary(q, Binary(p, Leaf(x), Leaf(y)), Leaf(z)))
  {
    hide Tighter, Means, Legal, Print, LevelOf;
    TighterIff(q, p);
    Leaves(x, y, z);
    LevelBound(p);
    LevelBound(q);
    var toks := [x, Operator(p), y, Operator(q), z];
    if LevelOf(p) < LevelOf(q) {
      BinaryForm(q, Leaf(y), Leaf(z), LevelOf(p) + 1);
      BinaryForm(p, Leaf(x), Binary(q, Leaf(y), Leaf(z)), 0);
      Printed(toks, Binary(p, Leaf(x), Binary(q, Leaf(y), Leaf(z))));
    } else {
      BinaryForm(p, Leaf(x), Leaf(y), LevelOf(q));
      BinaryForm(q, Binary(p, Leaf(x), Leaf(y)), Leaf(z), 0);
      Printed(toks, Binary(q, Binary(p, Leaf(x), Leaf(y)), Leaf(z)));
    }
  }

  /** Parentheses win over every class, on either side. */
  lemma Parenthesised(x: Token, p: BinaryOp, y: Token, q: BinaryOp, z: Token)
    requires IsLeaf(x) && IsLeaf(y) && IsLeaf(z)
    ensures Tighter(q, p) ==>
              Means([Open, x, Operator(p), y, Close, Operator(q), z], Binary(q, Binary(p, Leaf(x), Leaf(y)), Leaf(z)))
    ensures !Tighter(q, p) ==>
              Means([x, Operator(p), Open, y, Operator(q), z, Close], Binary(p, Leaf(x), Binary(q, Leaf(y), Leaf(z))))
  {
    hide Tighter, Means, Legal, Print, LevelOf;
    TighterIff(q, p);
    Leaves(x, y, z);
    LevelBound(p);
    LevelBound(q);
    if LevelOf(p) < LevelOf(q) {
      BinaryForm(p, Leaf(x), Leaf(y), LevelOf(q));
      BinaryForm(q, Binary(p, Leaf(x), Leaf(y)), Leaf(z), 0);
      Printed([Open, x, Operator(p), y, Close, Operator(q), z], Binary(q, Binary(p, Leaf(x), Leaf(y)), Leaf(z)));
    } else {
      BinaryForm(q, Leaf(y), Leaf(z), LevelOf(p) + 1);
      BinaryForm(p, Leaf(x), Binary(q, Leaf(y), Leaf(z)), 0);
      Printed([x, Operator(p), Open, y, Operator(q), z, Close], Binary(p, Leaf(x), Binary(q, Leaf(y), Leaf(z))));
    }
  }

  /** The tokens of the unary operators. */
  const UNARIES: seq<(Token, UnaryOp)> :=
    [(Operator(Subtract), Negate), (Operator(Add), Identity), (Tilde, Complement), (Bang, Not)]

  /** A unary operator binds tighter than every binary one. */
  lemma UnaryBindsTightest(u: (Token, UnaryOp), x: Token, p: BinaryOp, y: Token)
    requires IsLeaf(x) && IsLeaf(y)
    requires u in UNARIES || (u.0.IntegerFunction? && u.1 == Log(u.0.log))
    ensures Means([u.0, x, Operator(p), y], Binary(p, Unary(u.1, Leaf(x)), Leaf(y)))
    ensures Means([x, Operator(p), u.0, y], Binary(p, Leaf(x), Unary(u.1, Leaf(y))))
    ensures Means([u.0, Open, x, Operator(p), y, Close], Unary(u.1, Binary(p, Leaf(x), Leaf(y))))
  {
    assert UnaryToken(u.1) == u.0;
    hide Means, Legal, Print, LevelOf, UnaryToken;
    Leaves(x, y, y);
    LevelBound(p);
    UnaryForm(u.1, Leaf(x), LevelOf(p));
    BinaryForm(p, Unary(u.1, Leaf(x)), Leaf(y), 0);
    Printed([u.0, x, Operator(p), y], Binary(p, Unary(u.1, Leaf(x)), Leaf(y)));
    UnaryForm(u.1, Leaf(y), LevelOf(p) + 1);
    BinaryForm(p, Leaf(x), Unary(u.1, Leaf(y)), 0);
    Printed([x, Operator(p), u.0, y], Binary(p, Leaf(x), Unary(u.1, Leaf(y))));
    BinaryForm(p, Leaf(x), Leaf(y), UNARY);
    UnaryForm(u.1, Binary(p, Leaf(x), Leaf(y)), 0);
    Printed([u.0, Open, x, Operator(p), y, Close], Unary(u.1, Binary(p, Leaf(x), Leaf(y))));
  }
}
