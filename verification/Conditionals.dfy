/** Conditional assembly in preproc.c: a flat stack of states against nested blocks. */
module Conditionals {
  import opened Wrappers

  // ----- lines and what happens to them -----

  datatype Line = Text(text: string) | If(cond: string) | Elif(cond: string) | Else | Endif

  /** What can be observed: a line is emitted, or a condition is evaluated. */
  datatype Event = Emit(text: string) | Eval(cond: string)

  /** if_condition: negative for an error, otherwise a truth value.  It may depend on all
      that has happened so far. */
  type Oracle = (seq<Event>, string) -> int

  datatype Cond = IfTrue | IfFalse | ElseTrue | ElseFalse | Done | Never

  predicate Emitting(c: Cond) {
    c == IfTrue || c == ElseTrue
  }

  /** The stack has its top in front.  `fatal` stops everything. */
  datatype State = State(conds: seq<Cond>, events: seq<Event>, fatal: bool)

  /** The test the code makes: the top of the stack alone. */
  predicate Live(s: State) {
    |s.conds| == 0 || Emitting(s.conds[0])
  }

  function Verdict(r: int): Cond {
    if r < 0 then Never else if r > 0 then IfTrue else IfFalse
  }

  function SetTop(s: State, c: Cond): State
    requires |s.conds| > 0
  {
    s.(conds := [c] + s.conds[1..])
  }

  function Evaluate(o: Oracle, s: State, cond: string): (State, Cond) {
    (s.(events := s.events + [Eval(cond)]), Verdict(o(s.events, cond)))
  }

  /** One line. */
  function Step(o: Oracle, s: State, l: Line): State {
    if s.fatal then s
    else
      match l
      case Text(t) => if Live(s) then s.(events := s.events + [Emit(t)]) else s
      case If(c) =>
        if !Live(s) then s.(conds := [Never] + s.conds)
        else
          var (s1, v) := Evaluate(o, s, c);
          s1.(conds := [v] + s1.conds)
      case Elif(c) =>
        if |s.conds| == 0 then s.(fatal := true)
        else
          (match s.conds[0]
           case IfTrue => SetTop(s, Done)
           case IfFalse =>
             var (s1, v) := Evaluate(o, s, c);
             SetTop(s1, v)
           case ElseTrue => SetTop(s, Never)
           case ElseFalse => SetTop(s, Never)
           case _ => s)
      case Else =>
        if |s.conds| == 0 then s.(fatal := true)
        else
          (match s.conds[0]
           case IfTrue => SetTop(s, ElseFalse)
           case Done => SetTop(s, ElseFalse)
           case IfFalse => SetTop(s, ElseTrue)
           case Never => s
           case _ => SetTop(s, Never))
      case Endif => if |s.conds| == 0 then s.(fatal := true) else s.(conds := s.conds[1..])
  }

  function Run(o: Oracle, s: State, ls: seq<Line>): State
    decreases |ls|
  {
    if |ls| == 0 then s else Run(o, Step(o, s, ls[0]), ls[1..])
  }

  // ----- the invariant of every run -----

  /** Every frame above one that does not emit is Never. */
  predicate Shadowed(conds: seq<Cond>) {
    forall j, k :: 0 <= j < k < |conds| && !Emitting(conds[k]) ==> conds[j] == Never
  }

  lemma StepKeepsShadowed(o: Oracle, s: State, l: Line)
    requires Shadowed(s.conds)
    ensures Shadowed(Step(o, s, l).conds)
  {
    hide Verdict;
    var t := Step(o, s, l).conds;
    if |s.conds| > 0 {
      assert forall k :: 0 < k < |s.conds| ==> s.conds[1..][k - 1] == s.conds[k];
    }
    assert forall k :: 0 < k < |t| ==>
        (if |t| == |s.conds| then t[k] == s.conds[k]
         else if |t| > |s.conds| then t[k] == s.conds[k - 1]
         else t[k] == s.conds[k + 1]);
  }

  /** For any lines at all, well nested or not. */
  lemma {:induction false} RunKeepsShadowed(o: Oracle, s: State, ls: seq<Line>)
    requires Shadowed(s.conds)
    ensures Shadowed(Run(o, s, ls).conds)
    decreases |ls|
  {
    if |ls| > 0 {
      StepKeepsShadowed(o, s, ls[0]);
      RunKeepsShadowed(o, Step(o, s, ls[0]), ls[1..]);
    }
  }

  /** So the top alone tells whether every enclosing branch emits. */
  lemma TopIsEnough(s: State)
    requires Shadowed(s.conds)
    ensures Live(s) <==> forall k :: 0 <= k < |s.conds| ==> Emitting(s.conds[k])
  {
  }

  // ----- nested blocks and their meaning -----

  /** Lines and conditional blocks, one after another. */
  datatype Nest = Empty | Leaf(text: string, next: Nest) | Block(first: Case, next: Nest)

  /** A condition, its branch, and the rest of the chain. */
  datatype Case = Case(cond: string, body: Nest, rest: Chain)

  datatype Chain = Elifs(next: Case) | Otherwise(body: Nest, stray: Stray) | NoElse

  /** What may follow an else branch by mistake: more branches, which are ignored. */
  datatype Stray = Ended | SecondElse(body: Nest, next: Stray) | LateElif(cond: string, body: Nest, next: Stray)

  /** The meaning: at most one branch of a chain, conditions tried in order until one holds;
      a condition in error silences the rest of its chain. */
  function Meaning(o: Oracle, n: Nest, ev: seq<Event>): seq<Event> {
    match n
    case Empty => ev
    case Leaf(t, next) => Meaning(o, next, ev + [Emit(t)])
    case Block(c, next) => Meaning(o, next, CaseMeaning(o, c, ev))
  }

  function CaseMeaning(o: Oracle, c: Case, ev: seq<Event>): seq<Event> {
    var r, ev1 := o(ev, c.cond), ev + [Eval(c.cond)];
    if r < 0 then ev1 else if r > 0 then Meaning(o, c.body, ev1) else ChainMeaning(o, c.rest, ev1)
  }

  function ChainMeaning(o: Oracle, c: Chain, ev: seq<Event>): seq<Event> {
    match c
    case NoElse => ev
    case Otherwise(body, _) => Meaning(o, body, ev)
    case Elifs(next) => CaseMeaning(o, next, ev)
  }

  /** The lines of a nest. */
  function Lines(n: Nest): seq<Line> {
    match n
    case Empty => []
    case Leaf(t, next) => [Text(t)] + Lines(next)
    case Block(c, next) => [If(c.cond)] + CaseLines(c) + Lines(next)
  }

  /** From a branch to the `%endif`. */
  function CaseLines(c: Case): seq<Line> {
    Lines(c.body) + ChainLines(c.rest)
  }

  function ChainLines(c: Chain): seq<Line> {
    match c
    case NoElse => [Endif]
    case Otherwise(body, stray) => [Else] + Lines(body) + StrayLines(stray)
    case Elifs(next) => [Elif(next.cond)] + CaseLines(next)
  }

  function StrayLines(x: Stray): seq<Line> {
    match x
    case Ended => [Endif]
    case SecondElse(body, next) => [Else] + Lines(body) + StrayLines(next)
    case LateElif(cond, body, next) => [Elif(cond)] + Lines(body) + StrayLines(next)
  }

  // ----- the stack computes the meaning -----

  lemma {:induction false} RunAppend(o: Oracle, s: State, a: seq<Line>, b: seq<Line>)
    ensures Run(o, s, a + b) == Run(o, Run(o, s, a), b)
    decreases |a|
  {
    hide Step;
    if |a| == 0 {
      assert a + b == b;
    } else {
      assert (a + b)[1..] == a[1..] + b;
      RunAppend(o, Step(o, s, a[0]), a[1..], b);
    }
  }

  /** A first line, then the rest. */
  lemma RunFirst(o: Oracle, s: State, l: Line, rest: seq<Line>)
    ensures Run(o, s, [l] + rest) == Run(o, Step(o, s, l), rest)
  {
    assert ([l] + rest)[1..] == rest;
  }

  lemma RunNone(o: Oracle, s: State)
    ensures Run(o, s, []) == s
  {
  }

  /** A nest leaves the stack as it was; in a live place it does what it means, elsewhere
      nothing at all. */
  lemma {:induction false} RunsNest(o: Oracle, n: Nest, s: State)
    requires !s.fatal
    ensures Run(o, s, Lines(n)) == if Live(s) then s.(events := Meaning(o, n, s.events)) else s
    decreases n, 0
  {
    hide Step, Run;
    match n {
      case Empty => RunNone(o, s);
      case Leaf(t, next) =>
        RunFirst(o, s, Text(t), Lines(next));
        TextStep(o, s, t);
        RunsNest(o, next, if Live(s) then s.(events := s.events + [Emit(t)]) else s);
      case Block(c, next) =>
        assert Lines(n) == [If(c.cond)] + (CaseLines(c) + Lines(next));
        RunFirst(o, s, If(c.cond), CaseLines(c) + Lines(next));
        IfStep(o, s, c.cond);
        var s1 := Step(o, s, If(c.cond));
        RunAppend(o, s1, CaseLines(c), Lines(next));
        RunsCase(o, c, s1, s.conds);
        RunsNest(o, next, if Live(s) then s.(events := CaseMeaning(o, c, s.events)) else s);
    }
  }

  lemma TextStep(o: Oracle, s: State, t: string)
    requires !s.fatal
    ensures Step(o, s, Text(t)) == if Live(s) then s.(events := s.events + [Emit(t)]) else s
  {
  }

  lemma IfStep(o: Oracle, s: State, c: string)
    requires !s.fatal
    ensures Step(o, s, If(c)) == if Live(s) then State([Verdict(o(s.events, c))] + s.conds, s.events + [Eval(c)], false)
                                 else State([Never] + s.conds, s.events, false)
  {
  }

  /** A branch whose condition has just been settled, and the rest of its chain. */
  lemma {:induction false} RunsCase(o: Oracle, c: Case, s: State, below: seq<Cond>)
    requires !s.fatal && |s.conds| > 0 && s.conds[1..] == below && s.conds[0] in {IfTrue, IfFalse, Done, Never}
    ensures Run(o, s, CaseLines(c))
         == State(below, if s.conds[0] == IfTrue then Meaning(o, c.body, s.events)
                         else if s.conds[0] == IfFalse then ChainMeaning(o, c.rest, s.events)
                         else s.events, false)
    decreases c
  {
    hide Step, Run, Meaning, Lines, ChainMeaning, ChainLines;
    RunAppend(o, s, Lines(c.body), ChainLines(c.rest));
    RunsNest(o, c.body, s);
    RunsRest(o, c.rest, if s.conds[0] == IfTrue then s.(events := Meaning(o, c.body, s.events)) else s, below);
  }

  /** The rest of a chain, from its next `%elif`, `%else` or `%endif` on. */
  lemma {:induction false} RunsRest(o: Oracle, c: Chain, s: State, below: seq<Cond>)
    requires !s.fatal && |s.conds| > 0 && s.conds[1..] == below && s.conds[0] in {IfTrue, IfFalse, Done, Never}
    ensures Run(o, s, ChainLines(c))
         == State(below, if s.conds[0] == IfFalse then ChainMeaning(o, c, s.events) else s.events, false)
    decreases c
  {
    hide Step, Run, Meaning, Lines, CaseLines;
    match c {
      case NoElse =>
        assert [Endif] == [Endif] + [];
        RunFirst(o, s, Endif, []);
        EndifStep(o, s);
        RunNone(o, Step(o, s, Endif));
      case Otherwise(body, stray) =>
        assert ChainLines(c) == [Else] + (Lines(body) + StrayLines(stray));
        RunFirst(o, s, Else, Lines(body) + StrayLines(stray));
        ElseStep(o, s);
        var s1 := Step(o, s, Else);
        RunAppend(o, s1, Lines(body), StrayLines(stray));
        RunsNest(o, body, s1);
        RunsStray(o, stray, if Live(s1) then s1.(events := Meaning(o, body, s1.events)) else s1);
      case Elifs(next) =>
        RunFirst(o, s, Elif(next.cond), CaseLines(next));
        ElifStep(o, s, next.cond);
        RunsCase(o, next, Step(o, s, Elif(next.cond)), below);
    }
  }

  /** Branches behind an else branch are passed over, and their conditions with them. */
  lemma {:induction false} RunsStray(o: Oracle, x: Stray, s: State)
    requires !s.fatal && |s.conds| > 0 && s.conds[0] in {ElseTrue, ElseFalse, Never}
    ensures Run(o, s, StrayLines(x)) == s.(conds := s.conds[1..])
    decreases x
  {
    hide Step, Run, Meaning, Lines;
    match x {
      case Ended =>
        assert [Endif] == [Endif] + [];
        RunFirst(o, s, Endif, []);
        EndifStep(o, s);
        RunNone(o, Step(o, s, Endif));
      case SecondElse(body, next) =>
        RunsIgnored(o, Else, body, next, s);
        RunsStray(o, next, SetTop(s, Never));
      case LateElif(cond, body, next) =>
        RunsIgnored(o, Elif(cond), body, next, s);
        RunsStray(o, next, SetTop(s, Never));
    }
  }

  lemma {:induction false} RunsIgnored(o: Oracle, l: Line, body: Nest, next: Stray, s: State)
    requires !s.fatal && |s.conds| > 0 && s.conds[0] in {ElseTrue, ElseFalse, Never} && (l.Else? || l.Elif?)
    ensures Run(o, s, [l] + Lines(body) + StrayLines(next)) == Run(o, SetTop(s, Never), StrayLines(next))
    decreases body, 1
  {
    hide Step, Run, Meaning, Lines, StrayLines;
    assert [l] + Lines(body) + StrayLines(next) == [l] + (Lines(body) + StrayLines(next));
    RunFirst(o, s, l, Lines(body) + StrayLines(next));
    LateStep(o, s, l);
    RunAppend(o, SetTop(s, Never), Lines(body), StrayLines(next));
    RunsNest(o, body, SetTop(s, Never));
  }

  lemma LateStep(o: Oracle, s: State, l: Line)
    requires !s.fatal && |s.conds| > 0 && s.conds[0] in {ElseTrue, ElseFalse, Never} && (l.Else? || l.Elif?)
    ensures Step(o, s, l) == SetTop(s, Never)
  {
    assert [s.conds[0]] + s.conds[1..] == s.conds;
  }

  // ----- lines that do not nest -----

  /** How many conditionals are open after the lines; None when one is closed, or continued,
      that is not open. */
  function Open(d: nat, ls: seq<Line>): Option<nat>
    decreases |ls|
  {
    if |ls| == 0 then Some(d)
    else
      match ls[0]
      case Text(_) => Open(d, ls[1..])
      case If(_) => Open(d + 1, ls[1..])
      case Endif => if d == 0 then None else Open(d - 1, ls[1..])
      case _ => if d == 0 then None else Open(d, ls[1..])
  }

  /** The fatal error is reported exactly for such a line, wherever it stands, and the stack
      has one entry for each open conditional. */
  lemma {:induction false} FatalIff(o: Oracle, s: State, ls: seq<Line>)
    requires !s.fatal
    ensures Run(o, s, ls).fatal <==> Open(|s.conds|, ls).None?
    ensures !Run(o, s, ls).fatal ==> Open(|s.conds|, ls) == Some(|Run(o, s, ls).conds|)
    decreases |ls|
  {
    if |ls| > 0 {
      var t := Step(o, s, ls[0]);
      if t.fatal {
        FatalStays(o, t, ls[1..]);
      } else {
        FatalIff(o, t, ls[1..]);
      }
    }
  }

  lemma {:induction false} FatalStays(o: Oracle, s: State, ls: seq<Line>)
    requires s.fatal
    ensures Run(o, s, ls) == s
    decreases |ls|
  {
    if |ls| > 0 {
      FatalStays(o, s, ls[1..]);
    }
  }

  lemma EndifStep(o: Oracle, s: State)
    requires !s.fatal && |s.conds| > 0
    ensures Step(o, s, Endif) == s.(conds := s.conds[1..])
  {
  }

  lemma ElseStep(o: Oracle, s: State)
    requires !s.fatal && |s.conds| > 0 && s.conds[0] in {IfTrue, IfFalse, Done, Never}
    ensures Step(o, s, Else)
         == SetTop(s, if s.conds[0] == IfFalse then ElseTrue else if s.conds[0] == Never then Never else ElseFalse)
  {
    assert [s.conds[0]] + s.conds[1..] == s.conds;
  }

  lemma ElifStep(o: Oracle, s: State, c: string)
    requires !s.fatal && |s.conds| > 0 && s.conds[0] in {IfTrue, IfFalse, Done, Never}
    ensures Step(o, s, Elif(c))
         == if s.conds[0] == IfFalse then State([Verdict(o(s.events, c))] + s.conds[1..], s.events + [Eval(c)], false)
            else SetTop(s, if s.conds[0] == Never then Never else Done)
  {
    assert [s.conds[0]] + s.conds[1..] == s.conds;
  }

  // ----- as it runs -----

  class Preprocessor {
    const oracle: Oracle
    var conds: seq<Cond>
    var events: seq<Event>
    var fatal: bool

    constructor (oracle: Oracle)
      ensures this.oracle == oracle && Now() == State([], [], false)
    {
      this.oracle, conds, events, fatal := oracle, [], [], false;
    }

    ghost function Now(): State
      reads this
    {
      State(conds, events, fatal)
    }

    method Condition(c: string) returns (v: Cond)
      modifies this`events
      ensures events == old(events) + [Eval(c)] && v == Verdict(oracle(old(events), c))
    {
      var j := oracle(events, c);
      events := events + [Eval(c)];
      v := if j < 0 then Never else if j > 0 then IfTrue else IfFalse;
    }

    /** The condition directives of do_directive, and the test in pp_getline. */
    method Process(l: Line)
      modifies this
      ensures Now() == Step(oracle, old(Now()), l)
    {
      if fatal {
        return;
      }
      match l {
        case Text(t) =>
          if !(|conds| > 0 && !Emitting(conds[0])) {
            events := events + [Emit(t)];
          }
        case If(c) =>
          var v := Never;
          if !(|conds| > 0 && !Emitting(conds[0])) {
            v := Condition(c);
          }
          conds := [v] + conds;
        case Elif(c) =>
          if |conds| == 0 {
            fatal := true;
            return;
          }
          match conds[0] {
            case IfTrue => conds := [Done] + conds[1..];
            case IfFalse =>
              var v := Condition(c);
              conds := [v] + conds[1..];
            case ElseTrue => conds := [Never] + conds[1..];
            case ElseFalse => conds := [Never] + conds[1..];
            case _ =>
          }
        case Else =>
          if |conds| == 0 {
            fatal := true;
            return;
          }
          match conds[0] {
            case IfTrue => conds := [ElseFalse] + conds[1..];
            case Done => conds := [ElseFalse] + conds[1..];
            case IfFalse => conds := [ElseTrue] + conds[1..];
            case Never =>
            case _ => conds := [Never] + conds[1..];
          }
        case Endif =>
          if |conds| == 0 {
            fatal := true;
            return;
          }
          conds := conds[1..];
      }
    }

    /** A file of lines.  Whatever they are, the stack stays shadowed; when they are the
        lines of a nest, what happens is what the nest means. */
    method ProcessFile(ls: seq<Line>, ghost n: Nest)
      requires Now() == State([], [], false)
      modifies this
      ensures Now() == Run(oracle, State([], [], false), ls) && Shadowed(conds)
      ensures ls == Lines(n) ==> Now() == State([], Meaning(oracle, n, []), false)
      ensures fatal <==> Open(0, ls).None?
    {
      hide Step, Run, Meaning, Lines, Open;
      var i := 0;
      assert ls[0..] == ls;
      while i < |ls|
        invariant 0 <= i <= |ls| && Shadowed(conds)
        invariant Run(oracle, Now(), ls[i..]) == Run(oracle, State([], [], false), ls)
      {
        StepKeepsShadowed(oracle, Now(), ls[i]);
        RunMore(oracle, Now(), ls, i);
        Process(ls[i]);
        i := i + 1;
      }
      RunMore(oracle, Now(), ls, i);
      FatalIff(oracle, State([], [], false), ls);
      if ls == Lines(n) {
        RunsNest(oracle, n, State([], [], false));
      }
    }
  }

  lemma RunMore(o: Oracle, s: State, ls: seq<Line>, i: nat)
    requires i <= |ls|
    ensures i < |ls| ==> Run(o, s, ls[i..]) == Run(o, Step(o, s, ls[i]), ls[i + 1..])
    ensures i == |ls| ==> Run(o, s, ls[i..]) == s
  {
    hide Step;
    if i < |ls| {
      assert ls[i..][1..] == ls[i + 1..];
    }
  }
}
