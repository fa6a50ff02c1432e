/** The token loop of expand_smacro in preproc.c: a worklist with in-list end markers. */
module SMacro {
  import opened Wrappers
  import opened SMacroSpec

  const DEADMAN_LIMIT: nat := 0x10_0000

  // ----- worklists -----

  /** What is still to come out of a worklist; a marker ends the hiding of its macro. */
  function Pending(env: Table, work: seq<Token>, hidden: set<nat>): seq<Token>
    requires WellFormed(env)
    decreases |work|
  {
    if |work| == 0 then []
    else if work[0].End? then Pending(env, work[1..], hidden - {work[0].mac})
    else Expand(env, [work[0]], hidden) + Pending(env, work[1..], hidden)
  }

  /** The turns a worklist still takes: the weight that shows termination. */
  function Weight(env: Table, work: seq<Token>, hidden: set<nat>): nat
    requires WellFormed(env)
    decreases |work|
  {
    if |work| == 0 then 0
    else if work[0].End? then 1 + Weight(env, work[1..], hidden - {work[0].mac})
    else Turns(env, [work[0]], hidden) + Weight(env, work[1..], hidden)
  }

  predicate NoMarkers(toks: seq<Token>) {
    forall k :: 0 <= k < |toks| ==> !IsMarker(toks[k])
  }

  /** The macros whose end markers are in the worklist. */
  function Marked(work: seq<Token>): set<nat> {
    if |work| == 0 then {}
    else (if work[0].End? then {work[0].mac} else {}) + Marked(work[1..])
  }

  /** No macro is marked twice. */
  predicate Once(work: seq<Token>) {
    |work| == 0 || ((work[0].End? ==> work[0].mac !in Marked(work[1..])) && Once(work[1..]))
  }

  lemma SingleStep(env: Table, toks: seq<Token>, hidden: set<nat>)
    requires WellFormed(env) && |toks| > 0
    ensures Expand(env, toks, hidden) == Expand(env, [toks[0]], hidden) + Expand(env, toks[1..], hidden)
    ensures Turns(env, toks, hidden) == Turns(env, [toks[0]], hidden) + Turns(env, toks[1..], hidden)
  {
    OneToken(env, toks[0], hidden);
    hide Expand, Turns;
    ExpandStep(env, toks, hidden);
  }

  lemma ExpandStep(env: Table, toks: seq<Token>, hidden: set<nat>)
    requires WellFormed(env) && |toks| > 0
    ensures Expand(env, toks, hidden) == OneExpansion(env, toks[0], hidden) + Expand(env, toks[1..], hidden)
    ensures Turns(env, toks, hidden) == OneCount(env, toks[0], hidden) + Turns(env, toks[1..], hidden)
  {
    hide FateOf, Instance;
  }

  /** What becomes of one token, and how many turns that takes. */
  function OneExpansion(env: Table, t: Token, hidden: set<nat>): seq<Token>
    requires WellFormed(env)
  {
    match FateOf(env, t, hidden)
    case Stays => [t]
    case Vanishes => []
    case Becomes(x) => [x]
    case Expands(m) => Expand(env, Instance(env.defs[m], t), hidden + {m})
  }

  function OneCount(env: Table, t: Token, hidden: set<nat>): nat
    requires WellFormed(env)
  {
    match FateOf(env, t, hidden)
    case Stays => 1
    case Vanishes => 1
    case Becomes(_) => 2
    case Expands(m) => 2 + Turns(env, Instance(env.defs[m], t), hidden + {m})
  }

  lemma OneToken(env: Table, t: Token, hidden: set<nat>)
    requires WellFormed(env)
    ensures Expand(env, [t], hidden) == OneExpansion(env, t, hidden)
    ensures Turns(env, [t], hidden) == OneCount(env, t, hidden)
  {
    hide OneExpansion, OneCount, FateOf, Instance;
    ExpandStep(env, [t], hidden);
    assert [t][1..] == [];
    assert Expand(env, [], hidden) == [] && Turns(env, [], hidden) == 0;
    assert OneExpansion(env, t, hidden) + [] == OneExpansion(env, t, hidden);
  }

  /** In front of anything, tokens without markers expand as they do alone. */
  lemma {:induction false} Segment(env: Table, toks: seq<Token>, rest: seq<Token>, hidden: set<nat>)
    requires WellFormed(env) && NoMarkers(toks)
    ensures Pending(env, toks + rest, hidden) == Expand(env, toks, hidden) + Pending(env, rest, hidden)
    ensures Weight(env, toks + rest, hidden) == Turns(env, toks, hidden) + Weight(env, rest, hidden)
    decreases |toks|
  {
    if |toks| == 0 {
      assert toks + rest == rest;
    } else {
      assert !IsMarker(toks[0]);
      assert (toks + rest)[0] == toks[0] && (toks + rest)[1..] == toks[1..] + rest;
      SingleStep(env, toks, hidden);
      Segment(env, toks[1..], rest, hidden);
      hide Expand, Turns;
    }
  }

  lemma {:induction false} MarkedSegment(toks: seq<Token>, rest: seq<Token>)
    requires NoMarkers(toks)
    ensures Marked(toks + rest) == Marked(rest) && (Once(toks + rest) <==> Once(rest))
  {
    if |toks| == 0 {
      assert toks + rest == rest;
    } else {
      assert !IsMarker(toks[0]);
      assert (toks + rest)[1..] == toks[1..] + rest;
      MarkedSegment(toks[1..], rest);
    }
  }

  /** Pushing an expansion: the body, then its end marker, then what followed the call. */
  lemma PushExpansion(env: Table, work: seq<Token>, hidden: set<nat>, m: nat)
    requires WellFormed(env) && |work| > 0 && FateOf(env, work[0], hidden) == Expands(m)
    requires hidden == Marked(work) && Once(work)
    ensures var next := Instance(env.defs[m], work[0]) + ([End(m)] + work[1..]);
            && Pending(env, next, hidden + {m}) == Pending(env, work, hidden)
            && Weight(env, next, hidden + {m}) + 1 == Weight(env, work, hidden)
            && Marked(next) == hidden + {m} && Once(next)
  {
    var body, rest := Instance(env.defs[m], work[0]), work[1..];
    InstanceHasNoMarkers(env, m, work[0]);
    Segment(env, body, [End(m)] + rest, hidden + {m});
    MarkedSegment(body, [End(m)] + rest);
    assert ([End(m)] + rest)[1..] == rest;
    assert hidden + {m} - {m} == hidden;
    OneToken(env, work[0], hidden);
    hide Expand, Turns, FateOf, Instance;
    WorkStep(env, work, hidden);
    WorkStep(env, [End(m)] + rest, hidden + {m});
  }

  lemma WorkStep(env: Table, work: seq<Token>, hidden: set<nat>)
    requires WellFormed(env) && |work| > 0
    ensures work[0].End? ==> Pending(env, work, hidden) == Pending(env, work[1..], hidden - {work[0].mac})
    ensures work[0].End? ==> Weight(env, work, hidden) == 1 + Weight(env, work[1..], hidden - {work[0].mac})
    ensures !work[0].End? ==>
              Pending(env, work, hidden) == Expand(env, [work[0]], hidden) + Pending(env, work[1..], hidden)
    ensures !work[0].End? ==>
              Weight(env, work, hidden) == Turns(env, [work[0]], hidden) + Weight(env, work[1..], hidden)
  {
    hide Expand, Turns;
  }

  /** A token that is no call moves to the output, disappears or is replaced. */
  lemma TakeToken(env: Table, work: seq<Token>, hidden: set<nat>)
    requires WellFormed(env) && |work| > 0 && !work[0].End? && hidden == Marked(work) && Once(work)
    ensures hidden == Marked(work[1..]) && Once(work[1..])
    ensures match FateOf(env, work[0], hidden)
            case Stays => Pending(env, work, hidden) == [work[0]] + Pending(env, work[1..], hidden)
                          && Weight(env, work, hidden) == 1 + Weight(env, work[1..], hidden)
            case Vanishes => Pending(env, work, hidden) == Pending(env, work[1..], hidden)
                             && Weight(env, work, hidden) == 1 + Weight(env, work[1..], hidden)
            case Becomes(t) => Pending(env, work, hidden) == [t] + Pending(env, work[1..], hidden)
                               && Weight(env, work, hidden) == 2 + Weight(env, work[1..], hidden)
            case Expands(_) => true
  {
    hide Expand, Turns, FateOf, Pending, Weight;
    WorkStep(env, work, hidden);
    OneToken(env, work[0], hidden);
  }

  /** An end marker gives its macro free. */
  lemma TakeMarker(env: Table, work: seq<Token>, hidden: set<nat>)
    requires WellFormed(env) && |work| > 0 && work[0].End? && hidden == Marked(work) && Once(work)
    ensures var freed := hidden - {work[0].mac};
            && Pending(env, work, hidden) == Pending(env, work[1..], freed)
            && Weight(env, work, hidden) == 1 + Weight(env, work[1..], freed)
            && freed == Marked(work[1..]) && Once(work[1..]) && work[0].mac in hidden
  {
  }

  /** A replaced token stays what it is. */
  lemma Replaced(env: Table, work: seq<Token>, t: Token, hidden: set<nat>)
    requires WellFormed(env) && |work| > 0 && t.Plain? && !work[0].End? && hidden == Marked(work) && Once(work)
    ensures Marked(work[0 := t]) == hidden && Once(work[0 := t])
    ensures Pending(env, work[0 := t], hidden) == [t] + Pending(env, work[1..], hidden)
    ensures Weight(env, work[0 := t], hidden) == 1 + Weight(env, work[1..], hidden)
  {
    var next := work[0 := t];
    assert next[1..] == work[1..];
    OneToken(env, t, hidden);
    hide Expand, Turns, Pending, Weight;
    WorkStep(env, next, hidden);
  }

  // ----- macros as objects -----

  class Macro {
    const def: Definition
    var inProgress: bool

    constructor (def: Definition)
      ensures this.def == def && !inProgress
    {
      this.def, inProgress := def, false;
    }
  }

  class Expander {
    const env: Table
    const macros: seq<Macro>

    constructor (env: Table, macros: seq<Macro>)
      ensures this.env == env && this.macros == macros
    {
      this.env, this.macros := env, macros;
    }

    /** The macro objects stand for the table, and are all different. */
    ghost predicate Valid() {
      && WellFormed(env) && |macros| == |env.defs|
      && (forall m :: 0 <= m < |macros| ==> macros[m].def == env.defs[m])
      && (forall j, k :: 0 <= j < k < |macros| ==> macros[j] != macros[k])
    }

    /** A macro is in progress exactly while its end marker is in the worklist. */
    ghost predicate FlagsAre(hidden: set<nat>)
      reads macros
    {
      && (forall m: nat :: m < |macros| ==> (macros[m].inProgress <==> m in hidden))
      && forall m :: m in hidden ==> m < |macros|
    }

    method SetFlag(m: nat, value: bool, ghost hidden: set<nat>)
      requires Valid() && m < |macros| && FlagsAre(hidden)
      modifies macros
      ensures FlagsAre(if value then hidden + {m} else hidden - {m})
    {
      macros[m].inProgress := value;
    }

    /** The loop that pushes the body, piece by piece from its end, on to the worklist. */
    method PushBody(d: Definition, call: Token, work: seq<Token>) returns (r: seq<Token>)
      requires call.Word?
      ensures r == Instance(d, call) + work
    {
      r := work;
      var k := |d.body|;
      assert Instance(d, call)[k..] == [];
      while k > 0
        invariant 0 <= k <= |d.body| && r == Instance(d, call)[k..] + work
      {
        k := k - 1;
        var t := match d.body[k]
                 case Text(t) => t
                 case CallName => Word(call.text)
                 case OwnName => Word(d.name);
        assert Instance(d, call)[k..] == [t] + Instance(d, call)[k + 1..];
        r := [t] + r;
      }
    }

    /**
      One scan.  It succeeds exactly when the expansion takes fewer turns than the limit;
      then the output is the recursive expansion and no macro is left in progress.
     */
    method ExpandLine(line: seq<Token>) returns (ok: bool, out: seq<Token>)
      requires Valid() && FlagsAre({}) && NoMarkers(line)
      modifies macros
      ensures ok <==> Turns(env, line, {}) < DEADMAN_LIMIT
      ensures ok ==> out == Expand(env, line, {}) && FlagsAre({})
    {
      hide Pending, Weight, Expand, Turns, Marked, Once, FateOf, FlagsAre;
      var work := line;
      out := [];
      var deadman := DEADMAN_LIMIT;
      ghost var masked: set<nat> := {};
      StartLine(env, line);
      while |work| > 0
        invariant FlagsAre(masked) && masked == Marked(work) && Once(work)
        invariant out + Pending(env, work, masked) == Expand(env, line, {})
        invariant 0 < deadman <= DEADMAN_LIMIT
        invariant DEADMAN_LIMIT - deadman + Weight(env, work, masked) == Turns(env, line, {})
        decreases Weight(env, work, masked)
      {
        EveryTurnCounts(env, work, masked);
        deadman := deadman - 1;
        if deadman == 0 {
          return false, out;
        }
        var t := work[0];
        if t.End? {
          TakeMarker(env, work, masked);
          MarkedMacros(masked, t.mac);
          SetFlag(t.mac, false, masked);
          masked := masked - {t.mac};
          work := work[1..];
        } else {
          TakeToken(env, work, masked);
          var m := Lookup(env, t);
          FateIs(env, t, masked);
          if m.Some? && |macros[m.value].def.body| == 0 {
            if macros[m.value].def.builtin.Some? {
              Replaced(env, work, Plain(macros[m.value].def.builtin.value), masked);
              work := work[0 := Plain(macros[m.value].def.builtin.value)];
            } else {
              work := work[1..];
            }
          } else {
            FlagOf(m, masked);
            if m.Some? && !macros[m.value].inProgress {
              PushExpansion(env, work, masked, m.value);
              SetFlag(m.value, true, masked);
              masked := masked + {m.value};
              work := PushBody(macros[m.value].def, t, [End(m.value)] + work[1..]);
            } else {
              Associate(out, t, Pending(env, work[1..], masked));
              out := out + [t];
              work := work[1..];
            }
          }
        }
      }
      NothingPending(env);
      assert work == [];
      ok := true;
    }

    lemma FlagOf(m: Option<nat>, hidden: set<nat>)
      requires FlagsAre(hidden)
      ensures m.Some? && m.value < |macros| ==> (macros[m.value].inProgress <==> m.value in hidden)
    {
    }

    lemma MarkedMacros(hidden: set<nat>, m: nat)
      requires FlagsAre(hidden) && m in hidden
      ensures m < |macros|
    {
    }
  }

  lemma Associate(out: seq<Token>, t: Token, rest: seq<Token>)
    ensures out + ([t] + rest) == out + [t] + rest
  {
  }

  lemma StartLine(env: Table, line: seq<Token>)
    requires WellFormed(env) && NoMarkers(line)
    ensures Marked(line) == {} && Once(line)
    ensures [] + Pending(env, line, {}) == Expand(env, line, {}) && Weight(env, line, {}) == Turns(env, line, {})
  {
    assert line + [] == line;
    Segment(env, line, [], {});
    MarkedSegment(line, []);
  }

  lemma NothingPending(env: Table)
    requires WellFormed(env)
    ensures forall out: seq<Token> :: out + Pending(env, [], {}) == out
    ensures Weight(env, [], {}) == 0 && Marked([]) == {}
  {
  }

  lemma EveryTurnCounts(env: Table, work: seq<Token>, hidden: set<nat>)
    requires WellFormed(env) && |work| > 0
    ensures Weight(env, work, hidden) > 0
  {
  }

  /** The fate of a token, in the order in which the loop tests for it. */
  lemma FateIs(env: Table, t: Token, hidden: set<nat>)
    requires WellFormed(env) && !t.End?
    ensures Lookup(env, t).Some? ==> t.Word? && Lookup(env, t).value < |env.defs|
    ensures var m := Lookup(env, t);
            FateOf(env, t, hidden)
            == if m.Some? && |env.defs[m.value].body| == 0 then
                 var b := env.defs[m.value].builtin;
                 if b.Some? then Becomes(Plain(b.value)) else Vanishes
               else if m.Some? && m.value !in hidden then Expands(m.value)
               else Stays
  {
  }
}
