/** What single-line macro expansion means: recursion under a set of masked macros. */
module SMacroSpec {
  import opened Wrappers

  /** A token of a line; an end marker says that a macro's expansion ends here. */
  datatype Token = Word(text: string) | Plain(text: string) | End(mac: nat)

  /** An element of a macro's body: a token, `%?` or `%??`. */
  datatype Piece = Text(token: Token) | CallName | OwnName

  /** A parameterless macro.  One with an empty body may be built in, with a value that is
      no identifier; otherwise its name is simply deleted. */
  datatype Definition = Definition(name: string, body: seq<Piece>, builtin: Option<string>)

  /** The macros, and the lookup of an identifier among them. */
  datatype Table = Table(defs: seq<Definition>, index: map<string, nat>)

  predicate IsMarker(t: Token) {
    t.End?
  }

  /** Bodies hold no end markers, and the index points into the table. */
  ghost predicate WellFormed(env: Table) {
    && (forall name :: name in env.index ==> env.index[name] < |env.defs|)
    && (forall m, k :: 0 <= m < |env.defs| && 0 <= k < |env.defs[m].body| && env.defs[m].body[k].Text? ==>
          !IsMarker(env.defs[m].body[k].token))
  }

  function Lookup(env: Table, t: Token): Option<nat> {
    match t
    case Word(name) => if name in env.index then Some(env.index[name]) else None
    case _ => None
  }

  /** The body with `%?` and `%??` filled in. */
  function Instance(d: Definition, call: Token): (r: seq<Token>)
    requires call.Word?
    ensures |r| == |d.body|
  {
    seq(|d.body|, k requires 0 <= k < |d.body| =>
      match d.body[k]
      case Text(t) => t
      case CallName => Word(call.text)
      case OwnName => Word(d.name))
  }

  /** What happens to a token under the masked set `hidden`. */
  datatype Fate = Stays | Vanishes | Becomes(token: Token) | Expands(mac: nat)

  function FateOf(env: Table, t: Token, hidden: set<nat>): Fate
    requires WellFormed(env)
  {
    match Lookup(env, t)
    case None => Stays
    case Some(m) =>
      var d := env.defs[m];
      if |d.body| == 0 then (if d.builtin.Some? then Becomes(Plain(d.builtin.value)) else Vanishes)
      else if m in hidden then Stays
      else Expands(m)
  }

  function Below(n: nat): (b: set<nat>)
    ensures forall k: nat :: k in b <==> k < n
  {
    if n == 0 then {} else Below(n - 1) + {n - 1}
  }

  /** How many macros are not masked. */
  function Free(env: Table, hidden: set<nat>): nat {
    var n := |env.defs|;
    var free := Below(n) - hidden;
    |free|
  }

  /** The recursive expansion. */
  function Expand(env: Table, toks: seq<Token>, hidden: set<nat>): seq<Token>
    requires WellFormed(env)
    decreases Free(env, hidden), |toks|
  {
    if |toks| == 0 then []
    else
      (match FateOf(env, toks[0], hidden)
       case Stays => [toks[0]]
       case Vanishes => []
       case Becomes(t) => [t]
       case Expands(m) =>
         Shrinks(env, hidden, m);
         Expand(env, Instance(env.defs[m], toks[0]), hidden + {m}))
      + Expand(env, toks[1..], hidden)
  }

  /** How many turns of the token loop that takes. */
  function Turns(env: Table, toks: seq<Token>, hidden: set<nat>): nat
    requires WellFormed(env)
    decreases Free(env, hidden), |toks|
  {
    if |toks| == 0 then 0
    else
      (match FateOf(env, toks[0], hidden)
       case Stays => 1
       case Vanishes => 1
       case Becomes(_) => 2
       case Expands(m) =>
         Shrinks(env, hidden, m);
         // the call, the body, and the end marker
         2 + Turns(env, Instance(env.defs[m], toks[0]), hidden + {m}))
      + Turns(env, toks[1..], hidden)
  }

  lemma Shrinks(env: Table, hidden: set<nat>, m: nat)
    requires m < |env.defs| && m !in hidden
    ensures Free(env, hidden + {m}) < Free(env, hidden)
  {
    var n := |env.defs|;
    var a, b := Below(n) - (hidden + {m}), Below(n) - hidden;
    assert a == b - {m} && m in b;
  }

  lemma InstanceHasNoMarkers(env: Table, m: nat, call: Token)
    requires WellFormed(env) && m < |env.defs| && call.Word?
    ensures forall k :: 0 <= k < |Instance(env.defs[m], call)| ==> !IsMarker(Instance(env.defs[m], call)[k])
  {
  }

  // ----- complete expansion -----

  /** Macros that only mention macros of lower rank. */
  ghost predicate Ranked(env: Table, rank: nat -> nat) {
    forall m, k, x | 0 <= m < |env.defs| && 0 <= k < |env.defs[m].body| && Mentions(env, m, env.defs[m].body[k], x) ::
      rank(x) < rank(m)
  }

  /** A piece of macro `m` that can turn into a call of macro `x`; `%?` is the called name. */
  predicate Mentions(env: Table, m: nat, p: Piece, x: nat)
    requires m < |env.defs|
  {
    match p
    case Text(t) => Lookup(env, t) == Some(x)
    case CallName => x == m
    case OwnName => Lookup(env, Word(env.defs[m].name)) == Some(x)
  }

  /** Without cycles nothing is left unexpanded. */
  lemma {:induction false} AcyclicExpandsFully(env: Table, toks: seq<Token>, hidden: set<nat>, rank: nat -> nat,
                                               top: nat)
    requires WellFormed(env) && Ranked(env, rank)
    requires forall k, x :: 0 <= k < |toks| && Lookup(env, toks[k]) == Some(x) ==> rank(x) < top
    requires forall x :: x in hidden ==> rank(x) >= top
    ensures forall k :: 0 <= k < |Expand(env, toks, hidden)| ==> Lookup(env, Expand(env, toks, hidden)[k]) == None
    decreases Free(env, hidden), |toks|
  {
    if |toks| > 0 {
      var t := toks[0];
      AcyclicExpandsFully(env, toks[1..], hidden, rank, top);
      match FateOf(env, t, hidden) {
        case Stays =>
        case Vanishes =>
        case Becomes(_) =>
        case Expands(m) =>
          Shrinks(env, hidden, m);
          var body := Instance(env.defs[m], t);
          forall k, x | 0 <= k < |body| && Lookup(env, body[k]) == Some(x)
            ensures rank(x) < rank(m)
          {
            assert Mentions(env, m, env.defs[m].body[k], x);
          }
          AcyclicExpandsFully(env, body, hidden + {m}, rank, rank(m));
      }
    }
  }

  // ----- one level, in the macro's own words -----

  /** A token that scanning leaves alone: no macro's name, or the name of one in progress. */
  predicate Inert(env: Table, t: Token, hidden: set<nat>)
    requires WellFormed(env)
  {
    t.Word? && t.text in env.index ==> env.index[t.text] in hidden && |env.defs[env.index[t.text]].body| > 0
  }

  lemma {:induction false} InertStays(env: Table, toks: seq<Token>, hidden: set<nat>)
    requires WellFormed(env) && forall k :: 0 <= k < |toks| ==> Inert(env, toks[k], hidden)
    ensures Expand(env, toks, hidden) == toks
    decreases |toks|
  {
    if |toks| > 0 {
      assert Inert(env, toks[0], hidden);
      InertStays(env, toks[1..], hidden);
      assert [toks[0]] + toks[1..] == toks;
    }
  }

  /** What stands for a piece of a body: the token itself, for `%?` the name as it was called,
      and for `%??` the name as it was defined. */
  predicate StandsFor(t: Token, p: Piece, own: string, called: string) {
    match p
    case Text(x) => t == x
    case CallName => t == Word(called)
    case OwnName => t == Word(own)
  }

  /** A call is its macro's body, piece by piece, expanded with the macro in progress. */
  lemma CallExpands(env: Table, called: string, hidden: set<nat>) returns (x: seq<Token>)
    requires WellFormed(env) && called in env.index
    requires env.index[called] !in hidden && |env.defs[env.index[called]].body| > 0
    ensures var d := env.defs[env.index[called]];
            |x| == |d.body| && forall k :: 0 <= k < |x| ==> StandsFor(x[k], d.body[k], d.name, called)
    ensures Expand(env, [Word(called)], hidden) == Expand(env, x, hidden + {env.index[called]})
  {
    var call := Word(called);
    x := Instance(env.defs[env.index[called]], call);
    assert [call][1..] == [] && Expand(env, [], hidden) == [];
  }

  /**
    A call of a macro, all of whose macro names are in progress by then, its own included:
    its body, piece by piece.  A macro without a body is deleted, or is its value.
   */
  lemma OneLevel(env: Table, called: string, hidden: set<nat>) returns (r: seq<Token>)
    requires WellFormed(env) && called in env.index
    requires env.index[called] !in hidden || |env.defs[env.index[called]].body| == 0
    requires var m := env.index[called];
             forall k, t :: 0 <= k < |env.defs[m].body|
                            && StandsFor(t, env.defs[m].body[k], env.defs[m].name, called) ==>
                              Inert(env, t, hidden + {m})
    ensures r == Expand(env, [Word(called)], hidden)
    ensures var d := env.defs[env.index[called]];
            if |d.body| == 0 then r == if d.builtin.Some? then [Plain(d.builtin.value)] else []
            else |r| == |d.body| && forall k :: 0 <= k < |r| ==> StandsFor(r[k], d.body[k], d.name, called)
  {
    var d := env.defs[env.index[called]];
    if |d.body| > 0 {
      r := CallExpands(env, called, hidden);
      InertStays(env, r, hidden + {env.index[called]});
    } else {
      r := if d.builtin.Some? then [Plain(d.builtin.value)] else [];
      assert [Word(called)][1..] == [] && Expand(env, [], hidden) == [] && r + [] == r;
    }
  }

  lemma ExpandFirst(env: Table, toks: seq<Token>, hidden: set<nat>)
    requires WellFormed(env) && |toks| > 0
    ensures Expand(env, toks, hidden) == Expand(env, [toks[0]], hidden) + Expand(env, toks[1..], hidden)
  {
    assert [toks[0]][1..] == [] && Expand(env, [], hidden) == [];
  }

  lemma ExpandNothing(env: Table, hidden: set<nat>)
    requires WellFormed(env)
    ensures Expand(env, [], hidden) == []
  {
  }

  /** Tokens expand one after the other. */
  lemma {:induction false} ExpandJoins(env: Table, a: seq<Token>, b: seq<Token>, hidden: set<nat>)
    requires WellFormed(env)
    ensures Expand(env, a + b, hidden) == Expand(env, a, hidden) + Expand(env, b, hidden)
    decreases |a|
  {
    hide *;
    if |a| == 0 {
      assert a == [] && a + b == b;
      ExpandNothing(env, hidden);
    } else {
      ExpandJoins(env, a[1..], b, hidden);
      ExpandFirst(env, a, hidden);
      ExpandFirst(env, a + b, hidden);
      assert (a + b)[1..] == a[1..] + b && [(a + b)[0]] == [a[0]];
    }
  }
}
