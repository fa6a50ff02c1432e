/** Every turn of pp_getline keeps the marker chain, and acts on the lists as the worklist
    machine acts on what they stand for. */
module ExpansionInvariant {
  import opened Wrappers
  import R = Repeat
  import opened ExpansionLists

  // ----- parts of lists -----

  lemma {:induction false} ChainedHead(blocks: seq<Block>, e: seq<Item>, m: Option<nat>)
    requires Chained(blocks, e, m)
    ensures m == First(e) && InRange(blocks, e) && forall id :: id in Markers(e) ==> id < |blocks|
    ensures m.Some? ==> m.value in Markers(e)
  {
    if |e| > 0 {
      ChainedHead(blocks, e[1..], if e[0].Source? then m else blocks[e[0].block].nextActive);
      assert forall k :: 0 <= k < |e| ==> (k > 0 ==> e[1..][k - 1] == e[k]);
    }
  }

  /** Blocks outside the list do not matter to it. */
  predicate Agree(b: seq<Block>, b': seq<Block>, e: seq<Item>) {
    |b| <= |b'| && forall id :: id in Markers(e) && id < |b| ==> b'[id] == b[id]
  }

  lemma {:induction false} Frame(b: seq<Block>, b': seq<Block>, e: seq<Item>, m: Option<nat>)
    requires Chained(b, e, m) && Regions(b, e) && Agree(b, b', e)
    ensures Chained(b', e, m) && Regions(b', e) && InRange(b, e) && InRange(b', e)
    ensures Work(b', e) == Work(b, e) && FirstMacro(b', e) == FirstMacro(b, e)
  {
    ChainedHead(b, e, m);
    if |e| > 0 {
      assert forall id :: id in Markers(e[1..]) ==> id in Markers(e);
      Frame(b, b', e[1..], if e[0].Source? then m else b[e[0].block].nextActive);
      ChainedHead(b', e[1..], if e[0].Source? then m else b[e[0].block].nextActive);
      assert forall k :: 0 <= k < |e| ==> (k > 0 ==> e[1..][k - 1] == e[k]);
      FirstInMarkers(e);
      assert First(e).Some? ==> b'[First(e).value] == b[First(e).value];
    }
  }

  lemma {:induction false} FirstInMarkers(e: seq<Item>)
    ensures First(e).Some? ==> First(e).value in Markers(e)
  {
    if |e| > 0 {
      FirstInMarkers(e[1..]);
    }
  }

  /** The chain of definitions, when neither its blocks nor the macro calls change. */
  lemma {:induction false} DefsFrame(b: seq<Block>, b': seq<Block>, d: Option<nat>, e: seq<Item>, e': seq<Item>)
    requires Defs(b, d, e) && |b| <= |b'| && FirstMacro(b', e') == FirstMacro(b, e)
    requires d.Some? ==> forall id: nat :: id <= d.value && id < |b| && id !in Markers(e) ==>
                           b'[id] == b[id] && id !in Markers(e')
    ensures Defs(b', d, e') && Definitions(b', d) == Definitions(b, d)
    decreases match d case None => 0 case Some(id) => id + 1
  {
    if d.Some? {
      DefsFrame(b, b', b[d.value].repNest, e, e');
    }
  }

  lemma {:induction false} SourceFacts(ls: seq<R.Line>, blocks: seq<Block>, e: seq<Item>)
    ensures Markers(Sources(ls) + e) == Markers(e) && First(Sources(ls) + e) == First(e)
    ensures FirstMacro(blocks, Sources(ls) + e) == FirstMacro(blocks, e)
    ensures NoneTwice(Sources(ls) + e) == NoneTwice(e)
    ensures InRange(blocks, e) ==> InRange(blocks, Sources(ls) + e)
                                   && Work(blocks, Sources(ls) + e) == R.Sources(ls) + Work(blocks, e)
  {
    var t := Sources(ls) + e;
    if |ls| == 0 {
      assert t == e;
    } else {
      assert t[1..] == Sources(ls[1..]) + e;
      SourceFacts(ls[1..], blocks, e);
      assert forall k :: 0 < k < |t| ==> t[k] == t[1..][k - 1];
    }
  }

  lemma {:induction false} SourcesKeep(ls: seq<R.Line>, blocks: seq<Block>, e: seq<Item>, m: Option<nat>)
    requires Chained(blocks, e, m) && Regions(blocks, e)
    requires First(e).Some? && IsBlock(blocks, First(e).value) ==>
               R.IsFlat(ls) && blocks[First(e).value].inProgress >= 1
    ensures Chained(blocks, Sources(ls) + e, m) && Regions(blocks, Sources(ls) + e)
  {
    var t := Sources(ls) + e;
    if |ls| == 0 {
      assert t == e;
    } else {
      assert t[1..] == Sources(ls[1..]) + e;
      SourceFacts(ls, blocks, e);
      assert R.IsFlat(ls) ==> R.IsFlat(ls[1..]) && Plain(ls[0]);
      SourcesKeep(ls[1..], blocks, e, m);
    }
  }

  lemma WorkHead(blocks: seq<Block>, e: seq<Item>)
    requires |e| > 0 && InRange(blocks, e)
    ensures InRange(blocks, e[1..]) && Work(blocks, e) == [Abstract(blocks, e[0])] + Work(blocks, e[1..])
  {
  }

  /** The innermost marker, when it is none of a block's, is the innermost macro call. */
  lemma FirstIsMacro(blocks: seq<Block>, e: seq<Item>, m: Option<nat>)
    requires Chained(blocks, e, m) && !(First(e).Some? && IsBlock(blocks, First(e).value))
    ensures FirstMacro(blocks, e) == m
  {
    ChainedHead(blocks, e, m);
    FirstNotBlock(blocks, e);
  }

  lemma {:induction false} FirstNotBlock(blocks: seq<Block>, e: seq<Item>)
    requires InRange(blocks, e) && !(First(e).Some? && IsBlock(blocks, First(e).value))
    ensures FirstMacro(blocks, e) == First(e)
  {
    if |e| > 0 && e[0].Source? {
      assert forall k :: 0 < k < |e| ==> e[k] == e[1..][k - 1];
      FirstNotBlock(blocks, e[1..]);
    }
  }

  // ----- markers at the head -----

  /** A marker pops exactly the block that `mstk` is at: the relationship the code asks for. */
  lemma MarkerFinishesTop(env: R.Macros, index: Index, s: Lists)
    requires Invariant(env, index, s) && |s.expansion| > 0 && s.expansion[0].Finishes?
    ensures s.mstk == Some(s.expansion[0].block) && s.expansion[0].block < |s.blocks|
  {
  }

  lemma RepeatsBlock(env: R.Macros, index: Index, s: Lists, id: nat)
    requires Invariant(env, index, s) && !s.fatal && |s.expansion| > 0 && s.expansion[0] == Finishes(id)
    requires IsBlock(s.blocks, id) && s.blocks[id].inProgress > 1
    ensures var t := MarkerStep(s, id);
            Invariant(env, index, t) && InRange(s.blocks, s.expansion) && InRange(t.blocks, t.expansion)
            && View(index, t) == R.Step(env, View(index, s))
  {
    hide R.Step, Defs, Tabled, Chained, Regions, NoneTwice, PlainBodies;
    MarkerFinishesTop(env, index, s);
    var e, b := s.expansion, s.blocks[id];
    var t := MarkerStep(s, id);
    BodyIsFlat(s.blocks, id);
    RepeatedList(s.blocks, t.blocks, e, s.mstk, id);
    BlockTabled(env, index, s.blocks, t.blocks, e, t.expansion, id);
    DefsFrame(s.blocks, t.blocks, s.defining, e, t.expansion);
    var w := R.Sources(s.input);
    Regrouped(R.Sources(b.body), [R.BlockEnd(b.inProgress - 1, b.body)], Work(s.blocks, e[1..]), w);
    Regrouped([], [R.BlockEnd(b.inProgress, b.body)], Work(s.blocks, e[1..]), w);
    BlockStep(env, View(index, s), b.inProgress, b.body, Work(s.blocks, e[1..]) + w);
  }

  lemma Regrouped<T>(a: seq<T>, b: seq<T>, c: seq<T>, d: seq<T>)
    ensures a + (b + c) + d == a + b + (c + d) && b + c + d == b + (c + d)
  {
  }

  lemma BodyIsFlat(blocks: seq<Block>, id: nat)
    requires PlainBodies(blocks) && IsBlock(blocks, id)
    ensures R.IsFlat(blocks[id].body)
  {
  }

  /** The list after another copy has been pushed in front of its marker. */
  lemma RepeatedList(b: seq<Block>, b': seq<Block>, e: seq<Item>, m: Option<nat>, id: nat)
    requires Chained(b, e, m) && Regions(b, e) && NoneTwice(e) && PlainBodies(b)
    requires |e| > 0 && e[0] == Finishes(id) && IsBlock(b, id) && b[id].inProgress > 1
    requires b' == b[id := b[id].(inProgress := b[id].inProgress - 1)]
    ensures var e' := Sources(b[id].body) + e;
            && Chained(b', e', m) && Regions(b', e') && NoneTwice(e') && Markers(e') == Markers(e)
            && FirstMacro(b', e') == FirstMacro(b, e) && InRange(b, e) && InRange(b', e') && InRange(b, e[1..])
            && Work(b', e')
               == R.Sources(b[id].body) + ([R.BlockEnd(b[id].inProgress - 1, b[id].body)] + Work(b, e[1..]))
            && Work(b, e) == [R.BlockEnd(b[id].inProgress, b[id].body)] + Work(b, e[1..])
  {
    ChainedHead(b, e, m);
    Frame(b, b', e[1..], b[id].nextActive);
    assert Chained(b', e, m) && Regions(b', e);
    SourcesKeep(b[id].body, b', e, m);
    SourceFacts(b[id].body, b', e);
    ChainedHead(b', Sources(b[id].body) + e, m);
    ChainedHead(b', e, m);
    WorkHead(b, e);
    WorkHead(b', e);
  }

  /** A change to an unnamed block does not concern the macros. */
  lemma BlockTabled(env: R.Macros, index: Index, b: seq<Block>, b': seq<Block>, e: seq<Item>, e': seq<Item>, id: nat)
    requires Tabled(env, index, b, e) && PlainBodies(b) && IsBlock(b, id) && Markers(e') == Markers(e)
    requires |b'| == |b|
    requires b' == b[id := b'[id]] && b'[id].name.None? && R.IsFlat(b'[id].body)
    ensures Tabled(env, index, b', e') && PlainBodies(b') && Active(index, b') == Active(index, b)
  {
    ActiveSame(index, b, b');
  }

  lemma BlockStep(env: R.Macros, v: R.State, left: int, body: seq<R.Line>, rest: seq<R.Item>)
    requires v.work == [R.BlockEnd(left, body)] + rest && !v.failed
    ensures R.Step(env, v)
         == v.(work := if left > 1 then R.Sources(body) + [R.BlockEnd(left - 1, body)] + rest else rest)
  {
    assert v.work[1..] == rest;
  }

  lemma ActiveSame(index: Index, b: seq<Block>, b': seq<Block>)
    requires forall n :: n in index ==>
               index[n] < |b| && index[n] < |b'| && b'[index[n]].inProgress == b[index[n]].inProgress
    ensures Active(index, b') == Active(index, b)
  {
  }

  lemma PopsBlock(env: R.Macros, index: Index, s: Lists, id: nat)
    requires Invariant(env, index, s) && !s.fatal && |s.expansion| > 0 && s.expansion[0] == Finishes(id)
    requires IsBlock(s.blocks, id) && s.blocks[id].inProgress <= 1
    ensures var t := MarkerStep(s, id);
            Invariant(env, index, t) && InRange(s.blocks, s.expansion) && InRange(t.blocks, t.expansion)
            && View(index, t) == R.Step(env, View(index, s))
  {
    hide Defs, R.Step;
    var e, b := s.expansion, s.blocks[id];
    var t := MarkerStep(s, id);
    ChainedHead(s.blocks, e, s.mstk);
    WorkHead(s.blocks, e);
    DefsFrame(s.blocks, t.blocks, s.defining, e, e[1..]);
    var w := R.Sources(s.input);
    assert Work(s.blocks, e) + w == [R.BlockEnd(b.inProgress, b.body)] + (Work(s.blocks, e[1..]) + w);
    BlockStep(env, View(index, s), b.inProgress, b.body, Work(s.blocks, e[1..]) + w);
  }

  lemma PopsMacro(env: R.Macros, index: Index, s: Lists, id: nat)
    requires Invariant(env, index, s) && !s.fatal && |s.expansion| > 0 && s.expansion[0] == Finishes(id)
    requires IsMacro(s.blocks, id)
    ensures var t := MarkerStep(s, id);
            InRange(s.blocks, s.expansion) && InRange(t.blocks, t.expansion)
            && (t.fatal || Invariant(env, index, t))
            && View(index, t) == R.Step(env, View(index, s))
  {
    hide R.Step, Regions, Tabled;
    var e, b := s.expansion, s.blocks[id];
    var t := MarkerStep(s, id);
    ChainedHead(s.blocks, e, s.mstk);
    WorkHead(s.blocks, e);
    TabledName(env, index, s.blocks, e, id);
    var w := R.Sources(s.input);
    assert Work(s.blocks, e) + w == [R.MacroEnd(b.name.value)] + (Work(s.blocks, e[1..]) + w);
    MacroStep(env, View(index, s), b.name.value, Work(s.blocks, e[1..]) + w);
    DefinitionsEmpty(s.blocks, s.defining, e);
    if s.defining.None? {
      RegionsTail(s.blocks, e);
      Frame(s.blocks, t.blocks, e[1..], b.nextActive);
      TabledWithout(env, index, s.blocks, t.blocks, e, b.name.value);
      ActiveWithout(index, s.blocks, t.blocks, b.name.value);
    }
  }

  lemma RegionsTail(blocks: seq<Block>, e: seq<Item>)
    requires Regions(blocks, e) && |e| > 0
    ensures Regions(blocks, e[1..])
  {
  }

  lemma TabledName(env: R.Macros, index: Index, blocks: seq<Block>, e: seq<Item>, id: nat)
    requires Tabled(env, index, blocks, e) && IsMacro(blocks, id)
    ensures var n := blocks[id].name.value;
            n in index && index[n] == id
            && forall x :: x in index ==> index[x] < |blocks| && (x != n ==> index[x] != id)
  {
  }

  lemma TabledWithout(env: R.Macros, index: Index, b: seq<Block>, b': seq<Block>, e: seq<Item>, name: string)
    requires Tabled(env, index, b, e) && NoneTwice(e) && |e| > 0 && name in index && e[0] == Finishes(index[name])
    requires b' == b[index[name] := b[index[name]].(inProgress := 0)] && PlainBodies(b)
    ensures Tabled(env, index, b', e[1..]) && PlainBodies(b')
  {
  }

  lemma MacroStep(env: R.Macros, v: R.State, name: string, rest: seq<R.Item>)
    requires v.work == [R.MacroEnd(name)] + rest && !v.failed
    ensures R.Step(env, v) == if |v.defs| > 0 then v.(failed := true) else v.(work := rest, active := v.active - {name})
  {
    assert v.work[1..] == rest;
  }

  lemma DefinitionsEmpty(blocks: seq<Block>, d: Option<nat>, e: seq<Item>)
    requires Defs(blocks, d, e)
    ensures |Definitions(blocks, d)| == 0 <==> d.None?
  {
  }

  lemma ActiveWithout(index: Index, b: seq<Block>, b': seq<Block>, name: string)
    requires name in index && index[name] < |b| == |b'| && b' == b[index[name] := b'[index[name]]]
    requires forall n :: n in index ==> index[n] < |b| && (n != name ==> index[n] != index[name])
    requires b'[index[name]].inProgress == 0
    ensures Active(index, b') == Active(index, b) - {name}
  {
  }

  // ----- lines -----

  /** A line has been taken from in front of the list or from the input; what was in front
      of a block's marker is plain. */
  ghost predicate Taken(s: Lists, l: R.Line) {
    First(s.expansion).Some? && IsBlock(s.blocks, First(s.expansion).value) ==>
      Plain(l) && s.blocks[First(s.expansion).value].inProgress >= 1
  }

  lemma NeverDead(env: R.Macros, index: Index, s: Lists, l: R.Line)
    requires Invariant(env, index, s) && Taken(s, l)
    ensures !Dead(s)
  {
    ChainedHead(s.blocks, s.expansion, s.mstk);
    if s.mstk.Some? && IsMacro(s.blocks, s.mstk.value) {
      var n := s.blocks[s.mstk.value].name.value;
      assert n in index && index[n] == s.mstk.value;
    }
  }

  /** The abstract state before the line was taken. */
  function Before(index: Index, s: Lists, l: R.Line): R.State
    requires InRange(s.blocks, s.expansion)
  {
    var v := View(index, s);
    v.(work := [R.Source(l)] + v.work)
  }

  lemma SourceStep(env: R.Macros, v: R.State, l: R.Line, rest: seq<R.Item>)
    requires v.work == [R.Source(l)] + rest && !v.failed
    ensures var t := v.(work := rest);
            R.Step(env, v) ==
            match l
            case Rep(count) => t.(defs := [R.Definition(R.InProgress(count), [])] + v.defs)
            case EndRep => if |v.defs| == 0 then t
                           else t.(work := [R.BlockEnd(v.defs[0].left, v.defs[0].body)] + rest, defs := v.defs[1..])
            case Text(x) => if |v.defs| > 0 then R.Collect(t, l) else t.(out := v.out + [x])
            case Call(name) =>
              if |v.defs| > 0 then R.Collect(t, l)
              else if name in env && name !in v.active then
                t.(work := R.Sources(R.Lines(env[name])) + [R.MacroEnd(name)] + rest, active := v.active + {name})
              else t.(out := v.out + [name])
  {
    assert v.work[1..] == rest;
  }

  ghost predicate LineSound(env: R.Macros, index: Index, s: Lists, l: R.Line, t: Lists)
    requires InRange(s.blocks, s.expansion)
  {
    Invariant(env, index, t) && InRange(t.blocks, t.expansion) && View(index, t) == R.Step(env, Before(index, s, l))
  }

  lemma BeginsBlock(env: R.Macros, index: Index, s: Lists, l: R.Line)
    requires Invariant(env, index, s) && Taken(s, l) && !s.fatal && l.Rep?
    ensures InRange(s.blocks, s.expansion) && LineSound(env, index, s, l, LineStep(index, s, l))
  {
    Indexed(env, index, s);
    var e := s.expansion;
    DefiningIsBlock(s.blocks, s.defining, e);
    NeverDead(env, index, s, l);
    hide R.Step, Defs, Regions, Tabled, PlainBodies, NoneTwice;
    ChainedHead(s.blocks, e, s.mstk);
    var t := LineStep(index, s, l);
    TabledMore(env, index, s.blocks, t.blocks, e);
    Frame(s.blocks, t.blocks, e, s.mstk);
    FirstIsMacro(s.blocks, e, s.mstk);
    DefsFrame(s.blocks, t.blocks, s.defining, e, e);
    NewDefinition(s.blocks, t.blocks, s.defining, e);
    SourceStep(env, Before(index, s, l), l, View(index, s).work);
  }

  lemma DefiningIsBlock(blocks: seq<Block>, d: Option<nat>, e: seq<Item>)
    requires Defs(blocks, d, e)
    ensures d.Some? ==> IsBlock(blocks, d.value) && d.value !in Markers(e)
  {
  }

  lemma TabledMore(env: R.Macros, index: Index, b: seq<Block>, b': seq<Block>, e: seq<Item>)
    requires Tabled(env, index, b, e) && PlainBodies(b)
    requires |b'| == |b| + 1 && b' == b + [b'[|b|]] && IsBlock(b', |b|) && b'[|b|].body == []
    ensures Tabled(env, index, b', e) && PlainBodies(b') && Active(index, b') == Active(index, b)
  {
    assert forall id: nat :: id < |b| ==> b'[id] == b[id];
    ActiveSame(index, b, b');
  }

  lemma NewDefinition(b: seq<Block>, b': seq<Block>, d: Option<nat>, e: seq<Item>)
    requires |b'| == |b| + 1 && IsBlock(b', |b|) && b'[|b|].body == [] && b'[|b|].repNest == d
    requires b'[|b|].nextActive == FirstMacro(b', e) && Defs(b', d, e) && Defs(b, d, e)
    requires (forall id :: id in Markers(e) ==> id < |b|) && Definitions(b', d) == Definitions(b, d)
    ensures Defs(b', Some(|b|), e)
    ensures Definitions(b', Some(|b|)) == [R.Definition(b'[|b|].inProgress, [])] + Definitions(b, d)
  {
  }

  lemma EndsBlock(env: R.Macros, index: Index, s: Lists, l: R.Line)
    requires Invariant(env, index, s) && Taken(s, l) && !s.fatal && l.EndRep?
    ensures InRange(s.blocks, s.expansion) && LineSound(env, index, s, l, LineStep(index, s, l))
  {
    var e := s.expansion;
    Indexed(env, index, s);
    NeverDead(env, index, s, l);
    DefiningIsBlock(s.blocks, s.defining, e);
    TabledBlock(env, index, s.blocks, s.defining, e);
    DefinitionsEmpty(s.blocks, s.defining, e);
    ChainedHead(s.blocks, e, s.mstk);
    hide R.Step, Tabled, PlainBodies, R.Sources, Chained, Regions, NoneTwice, Work, Markers;
    var t := LineStep(index, s, l);
    SourceStep(env, Before(index, s, l), l, View(index, s).work);
    if s.defining.Some? {
      FirstIsMacro(s.blocks, e, s.mstk);
      EndedList(s.blocks, e, s.mstk, s.defining.value);
      var w := R.Sources(s.input);
      var d := s.blocks[s.defining.value];
      assert Work(t.blocks, t.expansion) + w == [R.BlockEnd(d.inProgress, d.body)] + (Work(s.blocks, e) + w);
    }
  }

  /** The list after a block's marker has been pushed, and the definitions left. */
  lemma EndedList(b: seq<Block>, e: seq<Item>, mstk: Option<nat>, d: nat)
    requires Chained(b, e, mstk) && Regions(b, e) && NoneTwice(e) && Defs(b, Some(d), e) && FirstMacro(b, e) == mstk
    ensures var e' := [Finishes(d)] + e;
            && Chained(b, e', Some(d)) && Regions(b, e') && NoneTwice(e') && Defs(b, b[d].repNest, e')
            && InRange(b, e) && InRange(b, e') && Work(b, e') == [R.BlockEnd(b[d].inProgress, b[d].body)] + Work(b, e)
    ensures |Definitions(b, Some(d))| > 0
    ensures Definitions(b, Some(d))[0] == R.Definition(b[d].inProgress, b[d].body)
    ensures Definitions(b, Some(d))[1..] == Definitions(b, b[d].repNest)
  {
    var e' := [Finishes(d)] + e;
    assert e'[1..] == e;
    ChainedHead(b, e, mstk);
    ChainedHead(b, e', Some(d));
    WorkHead(b, e');
    DefsFrame(b, b, b[d].repNest, e, e');
  }

  /** A block's marker does not concern the macros. */
  lemma TabledBlock(env: R.Macros, index: Index, blocks: seq<Block>, d: Option<nat>, e: seq<Item>)
    requires Tabled(env, index, blocks, e) && (d.Some? ==> IsBlock(blocks, d.value))
    ensures d.Some? ==> Tabled(env, index, blocks, [Finishes(d.value)] + e)
  {
    if d.Some? {
      assert ([Finishes(d.value)] + e)[1..] == e;
    }
  }

  lemma CollectsLine(env: R.Macros, index: Index, s: Lists, l: R.Line)
    requires Invariant(env, index, s) && Taken(s, l) && !s.fatal && Plain(l) && s.defining.Some?
    ensures InRange(s.blocks, s.expansion) && LineSound(env, index, s, l, LineStep(index, s, l))
  {
    hide R.Step, Regions, Tabled, Chained, NoneTwice, PlainBodies, Defs, Taken;
    Indexed(env, index, s);
    Defining(env, index, s);
    var e, d := s.expansion, s.defining.value;
    ChainedHead(s.blocks, e, s.mstk);
    DefiningIsBlock(s.blocks, s.defining, e);
    var t := LineStep(index, s, l);
    CollectsInto(env, index, s.blocks, t.blocks, s.defining, e, s.mstk, l);
    SourceStep(env, Before(index, s, l), l, View(index, s).work);
  }

  /** The innermost definition grows by a line. */
  lemma CollectsInto(env: R.Macros, index: Index, b: seq<Block>, b': seq<Block>, d: Option<nat>, e: seq<Item>,
                     m: Option<nat>, l: R.Line)
    requires Chained(b, e, m) && Regions(b, e) && Defs(b, d, e) && Tabled(env, index, b, e) && PlainBodies(b)
    requires d.Some? && d.value < |b| && Plain(l) && b' == b[d.value := b[d.value].(body := b[d.value].body + [l])]
    ensures Chained(b', e, m) && Regions(b', e) && Defs(b', d, e) && Tabled(env, index, b', e) && PlainBodies(b')
    ensures InRange(b, e) && InRange(b', e) && Work(b', e) == Work(b, e) && Active(index, b') == Active(index, b)
    ensures |Definitions(b, d)| > 0
    ensures Definitions(b', d)
         == [Definitions(b, d)[0].(body := Definitions(b, d)[0].body + [l])] + Definitions(b, d)[1..]
  {
    hide Regions, Tabled, Chained, PlainBodies;
    DefiningIsBlock(b, d, e);
    Frame(b, b', e, m);
    BlockTabled(env, index, b, b', e, e, d.value);
    DefsFrame(b, b', b[d.value].repNest, e, e);
  }

  lemma EmitsLine(env: R.Macros, index: Index, s: Lists, l: R.Line)
    requires Invariant(env, index, s) && Taken(s, l) && !s.fatal && Plain(l) && s.defining.None?
    requires l.Call? ==> !(l.name in index && s.blocks[index[l.name]].inProgress <= 0)
    ensures InRange(s.blocks, s.expansion) && LineSound(env, index, s, l, LineStep(index, s, l))
  {
    hide R.Step, Regions;
    ChainedHead(s.blocks, s.expansion, s.mstk);
    NeverDead(env, index, s, l);
    SourceStep(env, Before(index, s, l), l, View(index, s).work);
  }

  lemma CallsMacro(env: R.Macros, index: Index, s: Lists, l: R.Line)
    requires Invariant(env, index, s) && Taken(s, l) && !s.fatal && l.Call? && s.defining.None?
    requires l.name in index && s.blocks[index[l.name]].inProgress <= 0
    ensures InRange(s.blocks, s.expansion) && LineSound(env, index, s, l, LineStep(index, s, l))
  {
    hide R.Step, Tabled, PlainBodies, Chained, Regions, NoneTwice, Sources, Taken, Work, Markers;
    var e, m := s.expansion, index[l.name];
    TabledMacro(env, index, s.blocks, e, l.name);
    ChainedHead(s.blocks, e, s.mstk);
    NeverDead(env, index, s, l);
    var b := s.blocks[m];
    var t := LineStep(index, s, l);
    CalledList(s.blocks, t.blocks, e, s.mstk, m, l.name);
    TabledWith(env, index, s.blocks, t.blocks, e, t.expansion, l.name);
    ActiveWith(index, s.blocks, t.blocks, l.name);
    SourceStep(env, Before(index, s, l), l, View(index, s).work);
    var w := R.Sources(s.input);
    assert Work(t.blocks, t.expansion) + w
        == R.Sources(b.body) + [R.MacroEnd(l.name)] + (Work(s.blocks, e) + w);
  }

  /** The list after a macro's lines and its marker have been pushed. */
  lemma CalledList(b: seq<Block>, b': seq<Block>, e: seq<Item>, mstk: Option<nat>, m: nat, name: string)
    requires Chained(b, e, mstk) && Regions(b, e) && NoneTwice(e)
    requires m < |b| == |b'| && b[m].name == Some(name) && m !in Markers(e)
    requires b' == b[m := b[m].(inProgress := 1, nextActive := mstk)]
    ensures var e' := Sources(b[m].body) + ([Finishes(m)] + e);
            && Chained(b', e', Some(m)) && Regions(b', e') && NoneTwice(e') && Markers(e') == [m] + Markers(e)
            && InRange(b, e) && InRange(b', e')
            && Work(b', e') == R.Sources(b[m].body) + ([R.MacroEnd(name)] + Work(b, e))
  {
    ChainedHead(b, e, mstk);
    Frame(b, b', e, mstk);
    var e1 := [Finishes(m)] + e;
    assert e1[1..] == e;
    assert Chained(b', e1, Some(m)) && Regions(b', e1) && NoneTwice(e1);
    SourcesKeep(b[m].body, b', e1, Some(m));
    SourceFacts(b[m].body, b', e1);
    ChainedHead(b', Sources(b[m].body) + e1, Some(m));
    ChainedHead(b', e1, Some(m));
    WorkHead(b', e1);
  }

  lemma TabledMacro(env: R.Macros, index: Index, blocks: seq<Block>, e: seq<Item>, name: string)
    requires Tabled(env, index, blocks, e) && name in index
    ensures index[name] < |blocks| && IsMacro(blocks, index[name]) && blocks[index[name]].name == Some(name)
    ensures name in env && blocks[index[name]].body == R.Lines(env[name])
    ensures blocks[index[name]].inProgress == if index[name] in Markers(e) then 1 else 0
    ensures forall x :: x in index ==> index[x] < |blocks| && (x != name ==> index[x] != index[name])
  {
  }

  lemma TabledWith(env: R.Macros, index: Index, b: seq<Block>, b': seq<Block>, e: seq<Item>, e': seq<Item>,
                   name: string)
    requires Tabled(env, index, b, e) && name in index && Markers(e') == [index[name]] + Markers(e)
    requires index[name] < |b| == |b'|
    requires b' == b[index[name] := b'[index[name]]] && b'[index[name]].name == b[index[name]].name
    requires b'[index[name]].body == b[index[name]].body && b'[index[name]].inProgress == 1 && PlainBodies(b)
    ensures Tabled(env, index, b', e') && PlainBodies(b')
  {
  }

  lemma ActiveWith(index: Index, b: seq<Block>, b': seq<Block>, name: string)
    requires name in index && index[name] < |b| == |b'| && b' == b[index[name] := b'[index[name]]]
    requires forall n :: n in index ==> index[n] < |b| && (n != name ==> index[n] != index[name])
    requires b'[index[name]].inProgress > 0
    ensures Active(index, b') == Active(index, b) + {name}
  {
  }

  // ----- every turn -----

  lemma LineTurn(env: R.Macros, index: Index, s: Lists, l: R.Line)
    requires Invariant(env, index, s) && Taken(s, l) && !s.fatal
    ensures InRange(s.blocks, s.expansion) && (s.defining.Some? ==> s.defining.value < |s.blocks|)
    ensures forall n :: n in index ==> index[n] < |s.blocks|
    ensures LineSound(env, index, s, l, LineStep(index, s, l))
  {
    hide Invariant, LineSound, LineStep, Taken;
    Defining(env, index, s);
    Indexed(env, index, s);
    if l.Rep? {
      BeginsBlock(env, index, s, l);
    } else if l.EndRep? {
      EndsBlock(env, index, s, l);
    } else if s.defining.Some? {
      CollectsLine(env, index, s, l);
    } else {
      if l.Call? && l.name in index && s.blocks[index[l.name]].inProgress <= 0 {
        CallsMacro(env, index, s, l);
      } else {
        EmitsLine(env, index, s, l);
      }
    }
  }

  lemma Defining(env: R.Macros, index: Index, s: Lists)
    requires Invariant(env, index, s)
    ensures s.defining.Some? ==> s.defining.value < |s.blocks|
  {
  }

  lemma Indexed(env: R.Macros, index: Index, s: Lists)
    requires Invariant(env, index, s)
    ensures forall n :: n in index ==> index[n] < |s.blocks|
  {
  }

  /** What Turn needs. */
  predicate Ready(index: Index, s: Lists) {
    && (|s.expansion| > 0 && s.expansion[0].Finishes? ==>
          s.expansion[0].block < |s.blocks| && s.mstk.Some? && s.mstk.value < |s.blocks|)
    && (s.defining.Some? ==> s.defining.value < |s.blocks|)
    && (forall n :: n in index ==> index[n] < |s.blocks|)
    && InRange(s.blocks, s.expansion)
  }

  lemma InvariantReady(env: R.Macros, index: Index, s: Lists)
    requires Invariant(env, index, s)
    ensures Ready(index, s)
  {
    ChainedHead(s.blocks, s.expansion, s.mstk);
  }

  lemma TakesFromList(env: R.Macros, index: Index, s: Lists)
    requires Invariant(env, index, s) && |s.expansion| > 0 && s.expansion[0].Source?
    ensures var t := s.(expansion := s.expansion[1..]);
            Invariant(env, index, t) && Taken(t, s.expansion[0].line)
            && InRange(s.blocks, s.expansion) && InRange(t.blocks, t.expansion)
            && View(index, s) == Before(index, t, s.expansion[0].line)
  {
    var e := s.expansion;
    var t := s.(expansion := e[1..]);
    ChainedHead(s.blocks, e, s.mstk);
    ChainedHead(s.blocks, e[1..], s.mstk);
    DefsFrame(s.blocks, s.blocks, s.defining, e, e[1..]);
    WorkHead(s.blocks, e);
    assert [R.Source(e[0].line)] + Work(s.blocks, e[1..]) + R.Sources(s.input)
        == [R.Source(e[0].line)] + (Work(s.blocks, e[1..]) + R.Sources(s.input));
  }

  lemma TakesFromInput(env: R.Macros, index: Index, s: Lists)
    requires Invariant(env, index, s) && s.expansion == [] && |s.input| > 0
    ensures var t := s.(input := s.input[1..]);
            Invariant(env, index, t) && Taken(t, s.input[0])
            && InRange(s.blocks, s.expansion)
            && View(index, s) == Before(index, t, s.input[0])
  {
    assert Work(s.blocks, []) == [];
  }

  /**
    One turn: unless it ends the run with the error that a %rep was left open in a macro,
    it keeps the invariant; and it is one step of the worklist machine.
   */
  lemma TurnIsStep(env: R.Macros, index: Index, s: Lists)
    requires Invariant(env, index, s) && !s.fatal
    ensures Ready(index, s)
    ensures var t := Turn(index, s);
            && (t.fatal || Invariant(env, index, t)) && InRange(t.blocks, t.expansion)
            && View(index, t) == R.Step(env, View(index, s))
  {
    hide Invariant, LineStep, MarkerStep, R.Step, View;
    InvariantReady(env, index, s);
    if |s.expansion| > 0 && s.expansion[0].Finishes? {
      var id := s.expansion[0].block;
      if IsMacro(s.blocks, id) {
        PopsMacro(env, index, s, id);
      } else if s.blocks[id].inProgress > 1 {
        RepeatsBlock(env, index, s, id);
      } else {
        PopsBlock(env, index, s, id);
      }
    } else if |s.expansion| > 0 {
      TakesFromList(env, index, s);
      LineTurn(env, index, s.(expansion := s.expansion[1..]), s.expansion[0].line);
    } else if |s.input| > 0 {
      TakesFromInput(env, index, s);
      LineTurn(env, index, s.(input := s.input[1..]), s.input[0]);
    } else {
      NothingToDo(env, index, s);
    }
  }

  lemma NothingToDo(env: R.Macros, index: Index, s: Lists)
    requires s.expansion == [] && s.input == []
    ensures View(index, s) == R.Step(env, View(index, s))
  {
  }
}
