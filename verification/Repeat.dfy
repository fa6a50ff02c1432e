/** %rep blocks and parameterless multi-line macros: what they mean, and a worklist with
    end markers that computes it. */
module Repeat {

  /** `INT64_C(1) << 62` */
  const REP_LIMIT := 0x4000_0000_0000_0000

  datatype Line = Text(text: string) | Call(name: string) | Rep(count: int) | EndRep

  // ----- nests of blocks and calls, and their meaning -----

  datatype Nest =
    | Empty
    | Leaf(text: string, next: Nest)
    | Use(name: string, next: Nest)
    | Block(count: int, body: Nest, next: Nest)

  /** Multi-line macros by name. */
  type Macros = map<string, Nest>

  /** `defining->in_progress` for a repeat count. */
  function InProgress(count: int): int {
    if count >= REP_LIMIT then 0 else count + 1
  }

  function Copies(count: int): nat {
    if 0 <= count < REP_LIMIT then count else 0
  }

  function Times<T>(n: nat, s: seq<T>): seq<T> {
    if n == 0 then [] else s + Times(n - 1, s)
  }

  /** How many macros are not active; an active macro is not expanded again. */
  function Free(env: Macros, active: set<string>): nat {
    var free := env.Keys - active;
    |free|
  }

  lemma FreeShrinks(env: Macros, active: set<string>, name: string)
    requires name in env && name !in active
    ensures Free(env, active + {name}) < Free(env, active)
  {
    var a, b := env.Keys - (active + {name}), env.Keys - active;
    assert a == b - {name} && name in b;
  }

  /** The lines a nest stands for. */
  function Unroll(env: Macros, n: Nest, active: set<string>): seq<string>
    decreases Free(env, active), n
  {
    match n
    case Empty => []
    case Leaf(t, next) => [t] + Unroll(env, next, active)
    case Use(name, next) =>
      (if name in env && name !in active then
         FreeShrinks(env, active, name);
         Unroll(env, env[name], active + {name})
       else [name])
      + Unroll(env, next, active)
    case Block(count, body, next) => Times(Copies(count), Unroll(env, body, active)) + Unroll(env, next, active)
  }

  /** The source lines of a nest. */
  function Lines(n: Nest): seq<Line> {
    match n
    case Empty => []
    case Leaf(t, next) => [Text(t)] + Lines(next)
    case Use(name, next) => [Call(name)] + Lines(next)
    case Block(count, body, next) => [Rep(count)] + Lines(body) + [EndRep] + Lines(next)
  }

  /** What a nest leaves in the body of the block being defined: inner blocks are unrolled
      at once, calls are kept. */
  function Flat(n: Nest): seq<Line> {
    match n
    case Empty => []
    case Leaf(t, next) => [Text(t)] + Flat(next)
    case Use(name, next) => [Call(name)] + Flat(next)
    case Block(count, body, next) => Times(Copies(count), Flat(body)) + Flat(next)
  }

  predicate IsFlat(ls: seq<Line>) {
    forall k :: 0 <= k < |ls| ==> ls[k].Text? || ls[k].Call?
  }

  lemma {:induction false} TimesFlat(k: nat, ls: seq<Line>)
    requires IsFlat(ls)
    ensures IsFlat(Times(k, ls))
  {
    if k > 0 {
      TimesFlat(k - 1, ls);
    }
  }

  lemma {:induction false} FlatIsFlat(n: Nest)
    ensures IsFlat(Flat(n))
  {
    match n {
      case Empty =>
      case Leaf(_, next) => FlatIsFlat(next);
      case Use(_, next) => FlatIsFlat(next);
      case Block(count, body, next) =>
        FlatIsFlat(body);
        FlatIsFlat(next);
        TimesFlat(Copies(count), Flat(body));
    }
  }

  // ----- the worklist machine -----

  /** A line to come, or the end of a macro call, or the end of a block that still has
      `left - 1` copies to go. */
  datatype Item = Source(line: Line) | MacroEnd(name: string) | BlockEnd(left: int, body: seq<Line>)

  /** A block whose lines are being collected. */
  datatype Definition = Definition(left: int, body: seq<Line>)

  datatype State = State(work: seq<Item>, defs: seq<Definition>, active: set<string>, out: seq<string>, failed: bool)

  function Sources(ls: seq<Line>): seq<Item> {
    if |ls| == 0 then [] else [Source(ls[0])] + Sources(ls[1..])
  }

  function Collect(s: State, l: Line): State
    requires |s.defs| > 0
  {
    s.(defs := [s.defs[0].(body := s.defs[0].body + [l])] + s.defs[1..])
  }

  function Step(env: Macros, s: State): State {
    if |s.work| == 0 || s.failed then s
    else
      var rest := s.(work := s.work[1..]);
      match s.work[0]
      case MacroEnd(name) =>
        // a block begun in a macro must end there
        if |s.defs| > 0 then s.(failed := true) else rest.(active := s.active - {name})
      case BlockEnd(left, body) =>
        if left > 1 then s.(work := Sources(body) + [BlockEnd(left - 1, body)] + s.work[1..]) else rest
      case Source(l) =>
        match l
        case Rep(count) => rest.(defs := [Definition(InProgress(count), [])] + s.defs)
        case EndRep =>
          if |s.defs| == 0 then rest
          else rest.(work := [BlockEnd(s.defs[0].left, s.defs[0].body)] + s.work[1..], defs := s.defs[1..])
        case Text(t) => if |s.defs| > 0 then Collect(rest, l) else rest.(out := s.out + [t])
        case Call(name) =>
          if |s.defs| > 0 then Collect(rest, l)
          else if name in env && name !in s.active then
            rest.(work := Sources(Lines(env[name])) + [MacroEnd(name)] + s.work[1..], active := s.active + {name})
          else rest.(out := s.out + [name])
  }

  function Iterate(env: Macros, s: State, k: nat): State
    decreases k
  {
    if k == 0 then s else Iterate(env, Step(env, s), k - 1)
  }

  lemma {:induction false} IterateAdd(env: Macros, s: State, a: nat, b: nat)
    ensures Iterate(env, s, a + b) == Iterate(env, Iterate(env, s, a), b)
    decreases a
  {
    if a > 0 {
      IterateAdd(env, Step(env, s), a - 1, b);
    }
  }

  lemma {:induction false} SourcesAppend(a: seq<Line>, b: seq<Line>)
    ensures Sources(a + b) == Sources(a) + Sources(b)
  {
    if |a| == 0 {
      assert a + b == b;
    } else {
      assert (a + b)[1..] == a[1..] + b;
      SourcesAppend(a[1..], b);
    }
  }

  // ----- collecting a definition -----

  /** The turns that collecting takes. */
  function DefTurns(n: Nest): nat {
    match n
    case Empty => 0
    case Leaf(_, next) => 1 + DefTurns(next)
    case Use(_, next) => 1 + DefTurns(next)
    case Block(count, body, next) =>
      1 + DefTurns(body) + 1 + CopyTurns(Copies(count), |Flat(body)|) + DefTurns(next)
  }

  /** For each copy its marker and its lines, and the marker once more at the end. */
  function CopyTurns(copies: nat, each: nat): nat {
    if copies == 0 then 1 else 1 + each + CopyTurns(copies - 1, each)
  }

  function WithBody(s: State, ls: seq<Line>): State
    requires |s.defs| > 0
  {
    s.(defs := [s.defs[0].(body := s.defs[0].body + ls)] + s.defs[1..])
  }

  lemma WithBodyTwice(s: State, a: seq<Line>, b: seq<Line>)
    requires |s.defs| > 0
    ensures WithBody(WithBody(s, a), b) == WithBody(s, a + b)
  {
    assert s.defs[0].body + a + b == s.defs[0].body + (a + b);
  }

  lemma WithNothing(s: State)
    requires |s.defs| > 0
    ensures WithBody(s, []) == s
  {
    assert s.defs[0].body + [] == s.defs[0].body;
    assert [s.defs[0]] + s.defs[1..] == s.defs;
  }

  /** One line that is no directive goes into the definition. */
  lemma CollectsLine(env: Macros, s: State, l: Line, rest: seq<Item>)
    requires |s.defs| > 0 && !s.failed && (l.Text? || l.Call?)
    ensures Iterate(env, s.(work := [Source(l)] + rest), 1) == WithBody(s.(work := rest), [l])
  {
    var t := s.(work := [Source(l)] + rest);
    assert t.work[1..] == rest;
    assert Iterate(env, t, 1) == Iterate(env, Step(env, t), 0);
  }

  lemma {:induction false} CollectsFlat(env: Macros, s: State, ls: seq<Line>, rest: seq<Item>)
    requires |s.defs| > 0 && !s.failed && IsFlat(ls)
    ensures Iterate(env, s.(work := Sources(ls) + rest), |ls|) == WithBody(s.(work := rest), ls)
    decreases |ls|
  {
    hide Step, Iterate, WithBody;
    if |ls| == 0 {
      assert Sources(ls) + rest == rest;
      IterateNone(env, s.(work := rest));
      WithNothing(s.(work := rest));
      assert ls == [];
    } else {
      assert IsFlat(ls[1..]);
      assert Sources(ls) + rest == [Source(ls[0])] + (Sources(ls[1..]) + rest);
      var s1 := s.(work := Sources(ls[1..]) + rest);
      CollectsLine(env, s, ls[0], Sources(ls[1..]) + rest);
      IterateAdd(env, s.(work := Sources(ls) + rest), 1, |ls| - 1);
      WithBodyKeeps(s, [ls[0]], Sources(ls[1..]) + rest);
      CollectsFlat(env, WithBody(s, [ls[0]]), ls[1..], rest);
      WithBodyKeeps(s, [ls[0]], rest);
      WithBodyTwice(s.(work := rest), [ls[0]], ls[1..]);
      assert [ls[0]] + ls[1..] == ls;
    }
  }

  lemma IterateNone(env: Macros, s: State)
    ensures Iterate(env, s, 0) == s
  {
  }

  lemma WithBodyKeeps(s: State, ls: seq<Line>, work: seq<Item>)
    requires |s.defs| > 0
    ensures WithBody(s.(work := work), ls) == WithBody(s, ls).(work := work)
    ensures |WithBody(s, ls).defs| > 0 && WithBody(s, ls).failed == s.failed
  {
  }

  /** A block's marker at the front: its copies go into the definition around it. */
  lemma {:induction false} CollectsCopies(env: Macros, s: State, copies: nat, body: seq<Line>, rest: seq<Item>)
    requires |s.defs| > 0 && !s.failed && IsFlat(body)
    ensures Iterate(env, s.(work := [BlockEnd(copies + 1, body)] + rest), CopyTurns(copies, |body|))
         == WithBody(s.(work := rest), Times(copies, body))
    decreases copies
  {
    hide Step, Iterate, WithBody;
    var front := [BlockEnd(copies + 1, body)] + rest;
    MarkerTurn(env, s, copies + 1, body, rest);
    if copies == 0 {
      WithNothing(s.(work := rest));
    } else {
      var rest1 := [BlockEnd(copies, body)] + rest;
      var s1 := s.(work := Sources(body) + rest1);
      assert Sources(body) + [BlockEnd(copies, body)] + rest == Sources(body) + rest1;
      CollectsFlat(env, s, body, rest1);
      var s2 := WithBody(s, body);
      WithBodyKeeps(s, body, rest1);
      WithBodyKeeps(s, body, rest);
      CollectsCopies(env, s2, copies - 1, body, rest);
      WithBodyTwice(s.(work := rest), body, Times(copies - 1, body));
      WithBodyKeeps(s.(work := rest), body, rest);
      IterateAdd(env, s.(work := front), 1, |body| + CopyTurns(copies - 1, |body|));
      IterateAdd(env, s1, |body|, CopyTurns(copies - 1, |body|));
    }
  }

  /** A block's marker either pushes another copy in front of itself or goes away. */
  lemma MarkerTurn(env: Macros, s: State, left: int, body: seq<Line>, rest: seq<Item>)
    requires !s.failed
    ensures Iterate(env, s.(work := [BlockEnd(left, body)] + rest), 1)
         == s.(work := if left > 1 then Sources(body) + [BlockEnd(left - 1, body)] + rest else rest)
  {
    var t := s.(work := [BlockEnd(left, body)] + rest);
    assert t.work[1..] == rest;
    assert Iterate(env, t, 1) == Iterate(env, Step(env, t), 0);
  }

  /** A marker with nothing to repeat, for zero, negative and excessive counts alike. */
  lemma IdleMarker(env: Macros, s: State, count: int, body: seq<Line>, rest: seq<Item>)
    requires !s.failed && Copies(count) == 0
    ensures Iterate(env, s.(work := [BlockEnd(InProgress(count), body)] + rest), CopyTurns(0, |body|))
         == s.(work := rest)
  {
    MarkerTurn(env, s, InProgress(count), body, rest);
  }

  lemma DirectiveTurn(env: Macros, s: State, l: Line, rest: seq<Item>)
    requires !s.failed && (l.Rep? || (l.EndRep? && |s.defs| > 0))
    ensures Iterate(env, s.(work := [Source(l)] + rest), 1)
         == if l.Rep? then s.(work := rest, defs := [Definition(InProgress(l.count), [])] + s.defs)
            else s.(work := [BlockEnd(s.defs[0].left, s.defs[0].body)] + rest, defs := s.defs[1..])
  {
    var t := s.(work := [Source(l)] + rest);
    assert t.work[1..] == rest;
    assert Iterate(env, t, 1) == Iterate(env, Step(env, t), 0);
  }

  /** From `%rep` to just after its `%endrep`: the marker with the flattened body. */
  lemma {:induction false} DefinesBlock(env: Macros, s: State, count: int, body: Nest, rest: seq<Item>)
    requires !s.failed
    ensures Iterate(env, s.(work := [Source(Rep(count))] + Sources(Lines(body)) + [Source(EndRep)] + rest),
                    2 + DefTurns(body))
         == s.(work := [BlockEnd(InProgress(count), Flat(body))] + rest)
    decreases body, 1
  {
    hide Step, Iterate, WithBody;
    var inner := Sources(Lines(body)) + ([Source(EndRep)] + rest);
    var start := s.(work := [Source(Rep(count))] + inner);
    assert [Source(Rep(count))] + Sources(Lines(body)) + [Source(EndRep)] + rest == [Source(Rep(count))] + inner;
    DirectiveTurn(env, s, Rep(count), inner);
    var s1 := s.(defs := [Definition(InProgress(count), [])] + s.defs);
    Collects(env, s1, body, [Source(EndRep)] + rest);
    var s2 := WithBody(s1, Flat(body));
    FreshBody(s, InProgress(count), Flat(body));
    WithBodyKeeps(s1, Flat(body), [Source(EndRep)] + rest);
    DirectiveTurn(env, s2, EndRep, rest);
    IterateAdd(env, start, 1, DefTurns(body) + 1);
    IterateAdd(env, s1.(work := inner), DefTurns(body), 1);
  }

  lemma FreshBody(s: State, left: int, ls: seq<Line>)
    ensures var s1 := s.(defs := [Definition(left, [])] + s.defs);
            WithBody(s1, ls) == s.(defs := [Definition(left, ls)] + s.defs)
            && WithBody(s1, ls).defs[1..] == s.defs
  {
    var s1 := s.(defs := [Definition(left, [])] + s.defs);
    assert s1.defs[1..] == s.defs;
    assert [] + ls == ls;
  }

  /** Inside a definition a nest adds its flat lines. */
  lemma {:induction false} Collects(env: Macros, s: State, n: Nest, rest: seq<Item>)
    requires |s.defs| > 0 && !s.failed
    ensures Iterate(env, s.(work := Sources(Lines(n)) + rest), DefTurns(n)) == WithBody(s.(work := rest), Flat(n))
    decreases n, 0
  {
    hide Step, Iterate, WithBody;
    match n {
      case Empty =>
        assert Sources(Lines(n)) + rest == rest;
        IterateNone(env, s.(work := rest));
        WithNothing(s.(work := rest));
      case Leaf(t, next) => CollectsThen(env, s, Text(t), next, rest);
      case Use(name, next) => CollectsThen(env, s, Call(name), next, rest);
      case Block(count, body, next) =>
        var tail := Sources(Lines(next)) + rest;
        BlockSources(count, body, next, rest);
        DefinesBlock(env, s, count, body, tail);
        FlatIsFlat(body);
        var s1 := s.(work := [BlockEnd(InProgress(count), Flat(body))] + tail);
        var copied := Times(Copies(count), Flat(body));
        if Copies(count) == 0 {
          IdleMarker(env, s, count, Flat(body), tail);
          WithNothing(s.(work := tail));
        } else {
          CollectsCopies(env, s, Copies(count), Flat(body), tail);
        }
        WithBodyKeeps(s, copied, tail);
        WithBodyKeeps(s, copied, rest);
        Collects(env, WithBody(s, copied), next, rest);
        WithBodyTwice(s.(work := rest), copied, Flat(next));
        var turns := CopyTurns(Copies(count), |Flat(body)|);
        IterateAdd(env, s.(work := Sources(Lines(n)) + rest), 2 + DefTurns(body), turns + DefTurns(next));
        IterateAdd(env, s1, turns, DefTurns(next));
    }
  }

  lemma BlockSources(count: int, body: Nest, next: Nest, rest: seq<Item>)
    ensures Sources(Lines(Block(count, body, next))) + rest
         == [Source(Rep(count))] + Sources(Lines(body)) + [Source(EndRep)] + (Sources(Lines(next)) + rest)
  {
    SourcesAppend([Rep(count)] + Lines(body) + [EndRep], Lines(next));
    SourcesAppend([Rep(count)] + Lines(body), [EndRep]);
    SourcesAppend([Rep(count)], Lines(body));
    OneSource(Rep(count));
    OneSource(EndRep);
  }

  lemma OneSource(l: Line)
    ensures Sources([l]) == [Source(l)]
  {
    assert [l][1..] == [];
  }

  lemma {:induction false} CollectsThen(env: Macros, s: State, l: Line, next: Nest, rest: seq<Item>)
    requires |s.defs| > 0 && !s.failed && (l.Text? || l.Call?)
    ensures Iterate(env, s.(work := Sources([l] + Lines(next)) + rest), 1 + DefTurns(next))
         == WithBody(s.(work := rest), [l] + Flat(next))
    decreases next, 1
  {
    hide Step, Iterate, WithBody;
    var tail := Sources(Lines(next)) + rest;
    SourcesAppend([l], Lines(next));
    OneSource(l);
    assert Sources([l] + Lines(next)) + rest == [Source(l)] + tail;
    CollectsLine(env, s, l, tail);
    WithBodyKeeps(s, [l], tail);
    WithBodyKeeps(s, [l], rest);
    Collects(env, WithBody(s, [l]), next, rest);
    WithBodyTwice(s.(work := rest), [l], Flat(next));
    IterateAdd(env, s.(work := [Source(l)] + tail), 1, DefTurns(next));
  }

  // ----- running -----

  /** What flat lines emit. */
  function FlatOut(env: Macros, ls: seq<Line>, active: set<string>): seq<string> {
    if |ls| == 0 then [] else LineOut(env, ls[0], active) + FlatOut(env, ls[1..], active)
  }

  function LineOut(env: Macros, l: Line, active: set<string>): seq<string> {
    match l
    case Text(t) => [t]
    case Call(name) => if name in env && name !in active then Unroll(env, env[name], active + {name}) else [name]
    case _ => []
  }

  lemma {:induction false} FlatOutAppend(env: Macros, a: seq<Line>, b: seq<Line>, active: set<string>)
    ensures FlatOut(env, a + b, active) == FlatOut(env, a, active) + FlatOut(env, b, active)
  {
    hide LineOut;
    if |a| == 0 {
      assert a + b == b;
    } else {
      assert (a + b)[1..] == a[1..] + b;
      FlatOutAppend(env, a[1..], b, active);
    }
  }

  lemma {:induction false} FlatOutTimes(env: Macros, k: nat, ls: seq<Line>, active: set<string>)
    ensures FlatOut(env, Times(k, ls), active) == Times(k, FlatOut(env, ls, active))
  {
    if k > 0 {
      FlatOutTimes(env, k - 1, ls, active);
      FlatOutAppend(env, ls, Times(k - 1, ls), active);
    }
  }

  lemma FlatOutOne(env: Macros, l: Line, rest: seq<Line>, active: set<string>)
    ensures FlatOut(env, [l] + rest, active) == LineOut(env, l, active) + FlatOut(env, rest, active)
  {
    assert ([l] + rest)[1..] == rest;
  }

  /** Unrolling inner blocks while the outer one is being defined changes nothing. */
  lemma {:induction false} FlatMeans(env: Macros, n: Nest, active: set<string>)
    ensures FlatOut(env, Flat(n), active) == Unroll(env, n, active)
    decreases n
  {
    hide FlatOut;
    match n {
      case Empty => assert FlatOut(env, [], active) == [] by { NothingOut(env, active); }
      case Leaf(t, next) =>
        FlatMeans(env, next, active);
        FlatOutOne(env, Text(t), Flat(next), active);
      case Use(name, next) =>
        FlatMeans(env, next, active);
        FlatOutOne(env, Call(name), Flat(next), active);
      case Block(count, body, next) =>
        FlatMeans(env, body, active);
        FlatMeans(env, next, active);
        FlatOutAppend(env, Times(Copies(count), Flat(body)), Flat(next), active);
        FlatOutTimes(env, Copies(count), Flat(body), active);
    }
  }

  lemma NothingOut(env: Macros, active: set<string>)
    ensures FlatOut(env, [], active) == []
  {
  }

  /** The turns that running takes. */
  function NestTurns(env: Macros, n: Nest, active: set<string>): nat
    decreases Free(env, active), 1, n
  {
    match n
    case Empty => 0
    case Leaf(_, next) => 1 + NestTurns(env, next, active)
    case Use(name, next) =>
      (if name in env && name !in active then
         FreeShrinks(env, active, name);
         1 + NestTurns(env, env[name], active + {name}) + 1
       else 1)
      + NestTurns(env, next, active)
    case Block(count, body, next) =>
      2 + DefTurns(body) + CopyTurns(Copies(count), FlatTurns(env, Flat(body), active)) + NestTurns(env, next, active)
  }

  function FlatTurns(env: Macros, ls: seq<Line>, active: set<string>): nat
    decreases Free(env, active), 0, |ls|
  {
    if |ls| == 0 then 0
    else
      (if ls[0].Call? && ls[0].name in env && ls[0].name !in active then
         FreeShrinks(env, active, ls[0].name);
         1 + NestTurns(env, env[ls[0].name], active + {ls[0].name}) + 1
       else 1)
      + FlatTurns(env, ls[1..], active)
  }

  function Emits(s: State, out: seq<string>): State {
    s.(out := s.out + out)
  }

  lemma EmitsTwice(s: State, a: seq<string>, b: seq<string>)
    ensures Emits(Emits(s, a), b) == Emits(s, a + b)
  {
    assert s.out + a + b == s.out + (a + b);
  }

  /** A line that is no directive and no expandable call is emitted. */
  lemma EmitsLine(env: Macros, s: State, l: Line, rest: seq<Item>)
    requires s.defs == [] && !s.failed && (l.Text? || l.Call?)
    requires l.Call? ==> !(l.name in env && l.name !in s.active)
    ensures Iterate(env, s.(work := [Source(l)] + rest), 1) == Emits(s.(work := rest), LineOut(env, l, s.active))
  {
    var t := s.(work := [Source(l)] + rest);
    assert t.work[1..] == rest;
    assert Iterate(env, t, 1) == Iterate(env, Step(env, t), 0);
  }

  lemma CallTurn(env: Macros, s: State, name: string, rest: seq<Item>)
    requires s.defs == [] && !s.failed && name in env && name !in s.active
    ensures Iterate(env, s.(work := [Source(Call(name))] + rest), 1)
         == s.(work := Sources(Lines(env[name])) + ([MacroEnd(name)] + rest), active := s.active + {name})
  {
    hide Lines;
    var t := s.(work := [Source(Call(name))] + rest);
    assert t.work[1..] == rest;
    assert Sources(Lines(env[name])) + [MacroEnd(name)] + rest == Sources(Lines(env[name])) + ([MacroEnd(name)] + rest);
    assert Iterate(env, t, 1) == Iterate(env, Step(env, t), 0);
  }

  lemma MacroEndTurn(env: Macros, s: State, name: string, rest: seq<Item>)
    requires s.defs == [] && !s.failed
    ensures Iterate(env, s.(work := [MacroEnd(name)] + rest), 1) == s.(work := rest, active := s.active - {name})
  {
    var t := s.(work := [MacroEnd(name)] + rest);
    assert t.work[1..] == rest;
    assert Iterate(env, t, 1) == Iterate(env, Step(env, t), 0);
  }

  /** A macro call runs the macro's nest under its name, and gives the name free again. */
  lemma {:induction false} RunsCall(env: Macros, s: State, name: string, rest: seq<Item>)
    requires s.defs == [] && !s.failed && name in env && name !in s.active
    ensures Iterate(env, s.(work := [Source(Call(name))] + rest), 1 + NestTurns(env, env[name], s.active + {name}) + 1)
         == Emits(s.(work := rest), Unroll(env, env[name], s.active + {name}))
    decreases Free(env, s.active), 0, 0
  {
    hide Step, Iterate, Unroll, NestTurns, Lines;
    var inner := s.(active := s.active + {name});
    var turns := NestTurns(env, env[name], inner.active);
    FreeShrinks(env, s.active, name);
    CallTurn(env, s, name, rest);
    RunsNest(env, inner, env[name], [MacroEnd(name)] + rest);
    MacroEndTurn(env, Emits(inner, Unroll(env, env[name], inner.active)), name, rest);
    assert s.active + {name} - {name} == s.active;
    IterateAdd(env, s.(work := [Source(Call(name))] + rest), 1, turns + 1);
    IterateAdd(env, inner.(work := Sources(Lines(env[name])) + ([MacroEnd(name)] + rest)), turns, 1);
  }

  lemma {:induction false} RunsFlat(env: Macros, s: State, ls: seq<Line>, rest: seq<Item>)
    requires s.defs == [] && !s.failed && IsFlat(ls)
    ensures Iterate(env, s.(work := Sources(ls) + rest), FlatTurns(env, ls, s.active))
         == Emits(s.(work := rest), FlatOut(env, ls, s.active))
    decreases Free(env, s.active), 1, |ls|
  {
    hide Step, Iterate, Unroll, NestTurns, LineOut, LineTurns, FlatOut, FlatTurns, Emits;
    FlatStep(env, ls, s.active);
    if |ls| == 0 {
      assert Sources(ls) + rest == rest;
      IterateNone(env, s.(work := rest));
      EmitsNothing(s.(work := rest));
    } else {
      var l, tail := ls[0], Sources(ls[1..]) + rest;
      assert IsFlat(ls[1..]);
      assert Sources(ls) + rest == [Source(l)] + tail;
      var first := LineTurns(env, l, s.active);
      RunsLine(env, s, l, tail);
      EmitsKeeps(s, LineOut(env, l, s.active), tail);
      EmitsKeeps(s, LineOut(env, l, s.active), rest);
      RunsFlat(env, Emits(s, LineOut(env, l, s.active)), ls[1..], rest);
      EmitsTwice(s.(work := rest), LineOut(env, l, s.active), FlatOut(env, ls[1..], s.active));
      IterateAdd(env, s.(work := [Source(l)] + tail), first, FlatTurns(env, ls[1..], s.active));
    }
  }

  lemma FlatStep(env: Macros, ls: seq<Line>, active: set<string>)
    ensures |ls| == 0 ==> FlatOut(env, ls, active) == [] && FlatTurns(env, ls, active) == 0
    ensures |ls| > 0 ==> FlatOut(env, ls, active) == LineOut(env, ls[0], active) + FlatOut(env, ls[1..], active)
    ensures |ls| > 0 ==> FlatTurns(env, ls, active) == LineTurns(env, ls[0], active) + FlatTurns(env, ls[1..], active)
  {
    hide Unroll, NestTurns, LineOut;
  }

  lemma EmitsKeeps(s: State, out: seq<string>, work: seq<Item>)
    ensures Emits(s, out).(work := work) == Emits(s.(work := work), out)
    ensures Emits(s, out).defs == s.defs && Emits(s, out).active == s.active && Emits(s, out).failed == s.failed
  {
  }

  lemma EmitsNothing(s: State)
    ensures Emits(s, []) == s
  {
    assert s.out + [] == s.out;
  }

  function LineTurns(env: Macros, l: Line, active: set<string>): nat {
    if l.Call? && l.name in env && l.name !in active then 1 + NestTurns(env, env[l.name], active + {l.name}) + 1 else 1
  }

  lemma {:induction false} RunsLine(env: Macros, s: State, l: Line, rest: seq<Item>)
    requires s.defs == [] && !s.failed && (l.Text? || l.Call?)
    ensures Iterate(env, s.(work := [Source(l)] + rest), LineTurns(env, l, s.active))
         == Emits(s.(work := rest), LineOut(env, l, s.active))
    decreases Free(env, s.active), 0, 1
  {
    hide Step, Iterate, Unroll, NestTurns;
    if l.Call? && l.name in env && l.name !in s.active {
      RunsCall(env, s, l.name, rest);
    } else {
      EmitsLine(env, s, l, rest);
    }
  }

  lemma {:induction false} RunsCopies(env: Macros, s: State, copies: nat, body: seq<Line>, rest: seq<Item>)
    requires s.defs == [] && !s.failed && IsFlat(body)
    ensures Iterate(env, s.(work := [BlockEnd(copies + 1, body)] + rest),
                    CopyTurns(copies, FlatTurns(env, body, s.active)))
         == Emits(s.(work := rest), Times(copies, FlatOut(env, body, s.active)))
    decreases Free(env, s.active), 2, copies
  {
    hide Step, Iterate, FlatOut, FlatTurns, Emits, Sources, Times, CopyTurns;
    MarkerTurn(env, s, copies + 1, body, rest);
    CopyStep(copies, FlatTurns(env, body, s.active), FlatOut(env, body, s.active));
    if copies == 0 {
      EmitsNothing(s.(work := rest));
    } else {
      var each, out := FlatTurns(env, body, s.active), FlatOut(env, body, s.active);
      var rest1 := [BlockEnd(copies, body)] + rest;
      var s1 := s.(work := Sources(body) + rest1);
      assert Sources(body) + [BlockEnd(copies, body)] + rest == Sources(body) + rest1;
      RunsFlat(env, s, body, rest1);
      EmitsKeeps(s, out, rest1);
      EmitsKeeps(s, out, rest);
      RunsCopies(env, Emits(s, out), copies - 1, body, rest);
      EmitsTwice(s.(work := rest), out, Times(copies - 1, out));
      IterateAdd(env, s.(work := [BlockEnd(copies + 1, body)] + rest), 1, each + CopyTurns(copies - 1, each));
      IterateAdd(env, s1, each, CopyTurns(copies - 1, each));
    }
  }

  lemma CopyStep(copies: nat, each: nat, out: seq<string>)
    ensures copies == 0 ==> CopyTurns(copies, each) == 1 && Times(copies, out) == []
    ensures copies > 0 ==> CopyTurns(copies, each) == 1 + (each + CopyTurns(copies - 1, each))
                           && Times(copies, out) == out + Times(copies - 1, out)
  {
  }

  /** The worklist yields exactly the unrolled lines, and is left as it was. */
  lemma {:induction false} RunsNest(env: Macros, s: State, n: Nest, rest: seq<Item>)
    requires s.defs == [] && !s.failed
    ensures Iterate(env, s.(work := Sources(Lines(n)) + rest), NestTurns(env, n, s.active))
         == Emits(s.(work := rest), Unroll(env, n, s.active))
    decreases Free(env, s.active), 3, n, 0
  {
    hide Step, Iterate, FlatOut, FlatTurns, Unroll, NestTurns, LineOut, LineTurns, BlockTurns, Emits;
    match n {
      case Empty =>
        assert Sources(Lines(n)) + rest == rest;
        IterateNone(env, s.(work := rest));
        EmitsNothing(s.(work := rest));
      case Leaf(t, next) =>
        RunsThen(env, s, Text(t), next, rest);
      case Use(name, next) =>
        RunsThen(env, s, Call(name), next, rest);
      case Block(count, body, next) =>
        var tail := Sources(Lines(next)) + rest;
        var out := Times(Copies(count), Unroll(env, body, s.active));
        BlockSources(count, body, next, rest);
        RunsBlock(env, s, count, body, tail);
        EmitsKeeps(s, out, tail);
        EmitsKeeps(s, out, rest);
        RunsNest(env, Emits(s, out), next, rest);
        EmitsTwice(s.(work := rest), out, Unroll(env, next, s.active));
        IterateAdd(env, s.(work := Sources(Lines(n)) + rest), BlockTurns(env, count, body, s.active),
                   NestTurns(env, next, s.active));
    }
    NestStep(env, n, s.active);
  }

  function BlockTurns(env: Macros, count: int, body: Nest, active: set<string>): nat {
    2 + DefTurns(body) + CopyTurns(Copies(count), FlatTurns(env, Flat(body), active))
  }

  lemma NestStep(env: Macros, n: Nest, active: set<string>)
    ensures match n
            case Empty => NestTurns(env, n, active) == 0 && Unroll(env, n, active) == []
            case Leaf(t, next) =>
              NestTurns(env, n, active) == LineTurns(env, Text(t), active) + NestTurns(env, next, active)
              && Unroll(env, n, active) == LineOut(env, Text(t), active) + Unroll(env, next, active)
            case Use(name, next) =>
              NestTurns(env, n, active) == LineTurns(env, Call(name), active) + NestTurns(env, next, active)
              && Unroll(env, n, active) == LineOut(env, Call(name), active) + Unroll(env, next, active)
            case Block(count, body, next) =>
              NestTurns(env, n, active) == BlockTurns(env, count, body, active) + NestTurns(env, next, active)
              && Unroll(env, n, active) == Times(Copies(count), Unroll(env, body, active)) + Unroll(env, next, active)
  {
    hide FlatTurns, CopyTurns, DefTurns;
  }

  /** A block outside any definition. */
  lemma {:induction false} RunsBlock(env: Macros, s: State, count: int, body: Nest, rest: seq<Item>)
    requires s.defs == [] && !s.failed
    ensures Iterate(env, s.(work := [Source(Rep(count))] + Sources(Lines(body)) + [Source(EndRep)] + rest),
                    BlockTurns(env, count, body, s.active))
         == Emits(s.(work := rest), Times(Copies(count), Unroll(env, body, s.active)))
    decreases Free(env, s.active), 2, Copies(count) + 1
  {
    hide Step, Iterate, FlatOut, FlatTurns, Unroll, DefTurns, CopyTurns, Lines, Flat, Sources, Emits;
    var ls, copies := Flat(body), Copies(count);
    DefinesBlock(env, s, count, body, rest);
    FlatIsFlat(body);
    FlatMeans(env, body, s.active);
    var turns := CopyTurns(copies, FlatTurns(env, ls, s.active));
    if copies == 0 {
      IdleMarker(env, s, count, ls, rest);
      EmitsNothing(s.(work := rest));
      NoCopyTurns(|ls|, FlatTurns(env, ls, s.active));
      assert Times(0, Unroll(env, body, s.active)) == [];
    } else {
      RunsCopies(env, s, copies, ls, rest);
    }
    IterateAdd(env, s.(work := [Source(Rep(count))] + Sources(Lines(body)) + [Source(EndRep)] + rest),
               2 + DefTurns(body), turns);
  }

  lemma NoCopyTurns(a: nat, b: nat)
    ensures CopyTurns(0, a) == CopyTurns(0, b)
  {
  }

  lemma {:induction false} RunsThen(env: Macros, s: State, l: Line, next: Nest, rest: seq<Item>)
    requires s.defs == [] && !s.failed && (l.Text? || l.Call?)
    ensures Iterate(env, s.(work := Sources([l] + Lines(next)) + rest),
                    LineTurns(env, l, s.active) + NestTurns(env, next, s.active))
         == Emits(s.(work := rest), LineOut(env, l, s.active) + Unroll(env, next, s.active))
    decreases Free(env, s.active), 3, next, 1
  {
    hide Step, Iterate, LineOut, LineTurns, Unroll, NestTurns, Emits;
    var tail := Sources(Lines(next)) + rest;
    SourcesAppend([l], Lines(next));
    OneSource(l);
    assert Sources([l] + Lines(next)) + rest == [Source(l)] + tail;
    RunsLine(env, s, l, tail);
    EmitsKeeps(s, LineOut(env, l, s.active), tail);
    EmitsKeeps(s, LineOut(env, l, s.active), rest);
    RunsNest(env, Emits(s, LineOut(env, l, s.active)), next, rest);
    EmitsTwice(s.(work := rest), LineOut(env, l, s.active), Unroll(env, next, s.active));
    IterateAdd(env, s.(work := [Source(l)] + tail), LineTurns(env, l, s.active), NestTurns(env, next, s.active));
  }

  /** A whole file: after that many turns nothing is left to do, no macro is active, and
      the output is the unrolled nest. */
  lemma FileUnrolls(env: Macros, n: Nest)
    ensures Iterate(env, State(Sources(Lines(n)), [], {}, [], false), NestTurns(env, n, {}))
         == State([], [], {}, Unroll(env, n, {}), false)
  {
    hide Step, Iterate, Unroll, NestTurns, Lines;
    var s := State([], [], {}, [], false);
    RunsNest(env, s, n, []);
    assert Sources(Lines(n)) + [] == Sources(Lines(n));
    assert [] + Unroll(env, n, {}) == Unroll(env, n, {});
  }
}
