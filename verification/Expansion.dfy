/** pp_getline as it runs, and what a whole file of nested %rep blocks and calls yields. */
module Expansion {
  import opened Wrappers
  import R = Repeat
  import opened ExpansionLists
  import opened ExpansionInvariant

  class Reader {
    const index: Index
    var expansion: seq<Item>
    var input: seq<R.Line>
    var blocks: seq<Block>
    var mstk: Option<nat>
    var defining: Option<nat>
    var out: seq<string>
    var fatal: bool

    constructor (index: Index, macros: seq<Block>, file: seq<R.Line>)
      ensures this.index == index
      ensures Now() == Lists([], file, macros, None, None, [], false)
    {
      this.index := index;
      expansion, input, blocks, mstk, defining, out, fatal := [], file, macros, None, None, [], false;
    }

    ghost function Now(): Lists
      reads this
    {
      Lists(expansion, input, blocks, mstk, defining, out, fatal)
    }

    /** The loops that push the lines of a block, last line first. */
    method PushLines(body: seq<R.Line>)
      modifies this`expansion
      ensures expansion == Sources(body) + old(expansion)
    {
      var k := |body|;
      assert body[k..] == [];
      while k > 0
        invariant 0 <= k <= |body| && expansion == Sources(body[k..]) + old(expansion)
      {
        k := k - 1;
        assert body[k..][1..] == body[k + 1..];
        expansion := [Source(body[k])] + expansion;
      }
      assert body[0..] == body;
    }

    /** A marker at the head: another copy of a block, or the end of a block or a call. */
    method FinishMarker()
      requires |expansion| > 0 && expansion[0].Finishes? && expansion[0].block < |blocks|
      requires mstk.Some? && mstk.value < |blocks| && !fatal
      modifies this
      ensures Now() == MarkerStep(old(Now()), old(expansion[0].block))
    {
      var id := expansion[0].block;
      if blocks[id].name.None? && blocks[id].inProgress > 1 {
        blocks := blocks[id := blocks[id].(inProgress := blocks[id].inProgress - 1)];
        PushLines(blocks[id].body);
      } else {
        var m := mstk.value;
        if defining.Some? && blocks[m].name.Some? {
          fatal := true;
          return;
        }
        mstk := blocks[m].nextActive;
        if blocks[m].name.Some? {
          blocks := blocks[id := blocks[id].(inProgress := 0)];
        }
        expansion := expansion[1..];
      }
    }

    /** do_directive, the definition in hand, and expand_mmacro, for one line. */
    method Process(l: R.Line)
      requires defining.Some? ==> defining.value < |blocks|
      requires forall n :: n in index ==> index[n] < |blocks|
      modifies this
      ensures Now() == LineStep(index, old(Now()), l)
    {
      var dead := mstk.Some? && mstk.value < |blocks| && blocks[mstk.value].inProgress == 0;
      var named := defining.Some? && blocks[defining.value].name.Some?;
      if l.Rep? && !dead && !named {
        blocks := blocks + [Block(None, R.InProgress(l.count), [], mstk, defining)];
        defining := Some(|blocks| - 1);
      } else if l.EndRep? && !dead && !named {
        if defining.Some? {
          var d := defining.value;
          expansion := [Finishes(d)] + expansion;
          mstk := defining;
          defining := blocks[d].repNest;
        }
      } else if defining.Some? {
        var d := defining.value;
        blocks := blocks[d := blocks[d].(body := blocks[d].body + [l])];
      } else if !dead {
        match l {
          case Text(t) => out := out + [t];
          case Call(name) => ExpandMacro(name);
          case _ =>
        }
      }
    }

    /** expand_mmacro without parameters: the end marker first, then the lines. */
    method ExpandMacro(name: string)
      requires forall n :: n in index ==> index[n] < |blocks|
      requires defining.None? && !(mstk.Some? && mstk.value < |blocks| && blocks[mstk.value].inProgress == 0)
      modifies this
      ensures Now() == LineStep(index, old(Now()), R.Call(name))
    {
      if name in index && blocks[index[name]].inProgress <= 0 {
        var m := index[name];
        expansion := [Finishes(m)] + expansion;
        blocks := blocks[m := blocks[m].(inProgress := blocks[m].inProgress + 1, nextActive := mstk)];
        mstk := Some(m);
        PushLines(blocks[m].body);
      } else {
        out := out + [name];
      }
    }

    /** One turn: a marker, a line from the list, or a line from the file. */
    method Advance(ghost env: R.Macros)
      requires !fatal && Invariant(env, index, Now())
      modifies this
      ensures Ready(index, old(Now())) && Now() == Turn(index, old(Now()))
    {
      hide LineStep, MarkerStep, Invariant;
      InvariantReady(env, index, Now());
      if |expansion| > 0 && expansion[0].Finishes? {
        FinishMarker();
      } else if |expansion| > 0 {
        var l := expansion[0].line;
        expansion := expansion[1..];
        Process(l);
      } else if |input| > 0 {
        var l := input[0];
        input := input[1..];
        Process(l);
      }
    }

    /**
      Reads a file that is the lines of a nest, to its end.  The output is exactly the
      unrolled nest; no marker, no active macro and no open definition is left.
     */
    method ReadFile(ghost env: R.Macros, ghost n: R.Nest)
      requires Now() == Lists([], R.Lines(n), blocks, None, None, [], false)
      requires TableOf(env, index, blocks)
      modifies this
      ensures out == R.Unroll(env, n, {}) && !fatal
      ensures expansion == [] && input == [] && mstk.None? && defining.None?
      ensures forall name :: name in index ==> index[name] < |blocks| && blocks[index[name]].inProgress == 0
    {
      hide Invariant, View, Turn, R.Step, R.Unroll, R.Iterate, R.NestTurns, R.Lines;
      ghost var left := R.NestTurns(env, n, {});
      ghost var goal := R.State([], [], {}, R.Unroll(env, n, {}), false);
      Start(env, index, Now(), n);
      while |expansion| > 0 || |input| > 0
        invariant Invariant(env, index, Now()) && !fatal && InRange(blocks, expansion)
        invariant R.Iterate(env, View(index, Now()), left) == goal
        decreases left
      {
        StillToDo(env, index, Now(), left, goal);
        TurnIsStep(env, index, Now());
        OneLess(env, View(index, Now()), left, goal);
        Advance(env);
        left := left - 1;
        FailureShows(env, index, Now(), left, goal);
      }
      Finish(env, index, Now(), left, goal);
    }
  }

  /** The table before anything is read. */
  ghost predicate TableOf(env: R.Macros, index: Index, blocks: seq<Block>) {
    Tabled(env, index, blocks, []) && PlainBodies(blocks)
  }

  lemma Start(env: R.Macros, index: Index, s: Lists, n: R.Nest)
    requires s == Lists([], R.Lines(n), s.blocks, None, None, [], false) && TableOf(env, index, s.blocks)
    ensures Invariant(env, index, s) && InRange(s.blocks, s.expansion)
    ensures R.Iterate(env, View(index, s), R.NestTurns(env, n, {})) == R.State([], [], {}, R.Unroll(env, n, {}), false)
  {
    hide R.Iterate, R.NestTurns, R.Unroll, R.Lines;
    R.FileUnrolls(env, n);
    assert Active(index, s.blocks) == {};
    assert Work(s.blocks, []) + R.Sources(s.input) == R.Sources(s.input);
  }

  /** While something is left on the lists there are turns to go. */
  lemma StillToDo(env: R.Macros, index: Index, s: Lists, left: nat, goal: R.State)
    requires InRange(s.blocks, s.expansion) && (|s.expansion| > 0 || |s.input| > 0) && goal.work == []
    requires R.Iterate(env, View(index, s), left) == goal
    ensures left > 0
  {
  }

  lemma OneLess(env: R.Macros, v: R.State, left: nat, goal: R.State)
    requires left > 0 && R.Iterate(env, v, left) == goal
    ensures R.Iterate(env, R.Step(env, v), left - 1) == goal
  {
  }

  lemma {:induction false} FailedStays(env: R.Macros, v: R.State, k: nat)
    requires v.failed
    ensures R.Iterate(env, v, k) == v
    decreases k
  {
    if k > 0 {
      FailedStays(env, R.Step(env, v), k - 1);
    }
  }

  lemma FailureShows(env: R.Macros, index: Index, s: Lists, left: nat, goal: R.State)
    requires InRange(s.blocks, s.expansion) && R.Iterate(env, View(index, s), left) == goal && !goal.failed
    ensures !s.fatal
  {
    if s.fatal {
      FailedStays(env, View(index, s), left);
    }
  }

  lemma {:induction false} IdleStays(env: R.Macros, v: R.State, k: nat)
    requires v.work == []
    ensures R.Iterate(env, v, k) == v
    decreases k
  {
    if k > 0 {
      IdleStays(env, R.Step(env, v), k - 1);
    }
  }

  lemma Finish(env: R.Macros, index: Index, s: Lists, left: nat, goal: R.State)
    requires Invariant(env, index, s) && s.expansion == [] && s.input == [] && InRange(s.blocks, s.expansion)
    requires goal.defs == [] && goal.active == {} && R.Iterate(env, View(index, s), left) == goal
    ensures s.out == goal.out && s.mstk.None? && s.defining.None?
    ensures forall name :: name in index ==> index[name] < |s.blocks| && s.blocks[index[name]].inProgress == 0
  {
    IdleStays(env, View(index, s), left);
    DefinitionsEmpty(s.blocks, s.defining, s.expansion);
  }
}
