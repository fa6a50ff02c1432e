/** assemble_file of nasm.c: passes repeat until no label moves, then one output pass runs. */
module Passes {
  import opened Labels
  import opened Relaxation
  import opened Definitions
  import opened Listing
  import opened Output

  // ----- the control of the pass loop, whatever the passes count -----

  /** `(INT_MAX >> 1) + 2` */
  const PASS_MAX: nat := 0x4000_0001

  datatype Control = Control(pass0: nat, passn: nat, prev: nat, stall: nat)

  const START := Control(0, 1, PASS_MAX, 0)

  /** The decision at the end of a pass that changed `changed` labels. */
  function After(c: Control, changed: nat): Control {
    if (c.passn > 1 && changed == 0) || c.pass0 == 2 then c.(pass0 := c.pass0 + 1)
    else if changed != 0 && changed < c.prev then c.(prev := changed, stall := 0)
    else c.(stall := c.stall + 1)
  }

  predicate GivesUp(c: Control) {
    c.stall > 997 || c.passn >= PASS_MAX
  }

  /** The loop's header and the count of passes. */
  predicate Running(c: Control) {
    c.pass0 <= 2
  }

  function NextPass(c: Control): Control {
    c.(passn := c.passn + 1)
  }

  ghost predicate Lexicographic(a: (int, int, int), b: (int, int, int)) {
    || 0 <= a.0 < b.0
    || (a.0 == b.0 && (0 <= a.1 < b.1 || (a.1 == b.1 && 0 <= a.2 < b.2)))
  }

  ghost function Measure(c: Control): (int, int, int) {
    (3 - c.pass0, c.prev, 998 - c.stall)
  }

  /** Whatever a pass counts, the loop ends or its measure decreases. */
  lemma MeasureDecreases(c: Control, changed: nat)
    requires Running(c) && c.stall <= 997
    ensures Lexicographic(Measure(After(c, changed)), Measure(c))
    ensures GivesUp(After(c, changed)) || !Running(After(c, changed)) || After(c, changed).stall <= 997
  {
  }

  /** The control before pass |counts| + 1, when the passes so far counted `counts`. */
  function Trace(counts: seq<nat>): Control {
    if |counts| == 0 then START
    else NextPass(After(Trace(counts[..|counts| - 1]), counts[|counts| - 1]))
  }

  /** No earlier pass ended the loop. */
  ghost predicate Lives(counts: seq<nat>) {
    forall k :: 0 <= k < |counts| ==>
      Running(Trace(counts[..k])) && !GivesUp(After(Trace(counts[..k]), counts[k]))
  }

  /** How many passes after the first changed nothing. */
  function QuietPasses(counts: seq<nat>): nat {
    if |counts| <= 1 then 0
    else QuietPasses(counts[..|counts| - 1]) + if counts[|counts| - 1] == 0 then 1 else 0
  }

  lemma FrontLives(counts: seq<nat>)
    requires Lives(counts) && |counts| > 0
    ensures Lives(counts[..|counts| - 1])
  {
    var front := counts[..|counts| - 1];
    forall k | 0 <= k < |front|
      ensures Running(Trace(front[..k])) && !GivesUp(After(Trace(front[..k]), front[k]))
    {
      assert front[..k] == counts[..k];
    }
  }

  /**
    The pass about to run is the output pass exactly when two passes after the first have
    changed nothing; then the one just before it is the second of them.
   */
  lemma {:induction false} OutputPassIff(counts: seq<nat>)
    requires Lives(counts) && Running(Trace(counts))
    ensures Trace(counts).passn == |counts| + 1
    ensures Trace(counts).pass0 == 2 <==> QuietPasses(counts) >= 2
    ensures Trace(counts).pass0 == QuietPasses(counts)
    ensures Trace(counts).pass0 == 2 ==> |counts| >= 3 && counts[|counts| - 1] == 0
  {
    if |counts| > 0 {
      var front := counts[..|counts| - 1];
      FrontLives(counts);
      assert Running(Trace(counts[..|counts| - 1]));
      OutputPassIff(front);
      if |counts| >= 3 {
        assert counts[..|counts| - 1][..|counts| - 2] == counts[..|counts| - 2];
      }
    }
  }

  /** There is no second output pass: the loop ends after the first, whatever it counted. */
  lemma OutputPassIsLast(counts: seq<nat>, k: nat)
    requires Lives(counts) && k < |counts| && Trace(counts[..k]).pass0 == 2
    ensures !Running(Trace(counts)) && k == |counts| - 1
  {
    assert Running(Trace(counts[..k]));
    assert counts[..k + 1][..k] == counts[..k];
    assert Trace(counts[..k + 1]).pass0 == 3;
    if k + 1 < |counts| {
      assert false;
    }
    assert counts[..k + 1] == counts;
  }

  /** Labels that keep moving in the same number, pass after pass. */
  function Steady(n: nat, c: nat): (s: seq<nat>)
    ensures |s| == n + 1
  {
    if n == 0 then [0] else Steady(n - 1, c) + [c]
  }

  /** `FOO equ FOO + 1` and the like: after pass 1000 the assembler gives up. */
  lemma {:induction false} SteadyRun(n: nat, c: nat)
    requires 0 < c < PASS_MAX && n <= 998
    ensures Trace(Steady(n, c)) == if n == 0 then Control(0, 2, PASS_MAX, 1) else Control(0, n + 2, c, n - 1)
    ensures Lives(Steady(n, c))
  {
    hide Lives, Trace;
    if n == 0 {
      EmptyTrace();
      LivesOn([], 0);
      assert [] + [0] == Steady(0, c);
    } else {
      SteadyRun(n - 1, c);
      LivesOn(Steady(n - 1, c), c);
    }
  }

  lemma SteadyGivesUp(c: nat)
    requires 0 < c < PASS_MAX
    ensures Lives(Steady(998, c)) && Trace(Steady(998, c)).passn == 1000
    ensures Running(Trace(Steady(998, c))) && GivesUp(After(Trace(Steady(998, c)), c))
  {
    hide Steady, Trace, Lives;
    SteadyRun(998, c);
  }

  // ----- the loop itself -----

  datatype Outcome = Assembled | Rejected | GaveUp

  /** What holds of the table between passes. */
  ghost predicate Ready(cfg: Config, items: seq<Item>, t: Table) {
    && (forall name :: DefinedIn(items, name) ==> name in t)
    && (Distinct(items) ==> Placed(cfg, items, t))
    && (Backward(items) ==> Typed(cfg, items, t))
  }

  /** The pass just run was the output pass over `before`, and these are its results. */
  ghost predicate Concluded(cfg: Config, items: seq<Item>, before: Table, now: State, phaseError: bool) {
    var s := Pass(cfg, Output, items, before);
    && now == s.(errors := now.errors) && (now.errors <==> s.errors || phaseError)
    && Placed(cfg, items, before)
    // exactly the programs without a fault in the layout of their table get through
    && (!now.errors <==> Closed(items, before) && Consistent(cfg, items, before) && !SomeFault(cfg, items, before))
    // a phase error is a table at odds with its own layout
    && (Closed(items, before) ==> (phaseError <==> !s.errors && !Consistent(cfg, items, before)))
    && (phaseError ==> Closed(items, before))
    // EQUs are where they should be, if not always in the segment
    && OffsetsHold(items, before)
    // a phase error is never met by backward programs
    && (Backward(items) ==> Consistent(cfg, items, before) && EqusHold(cfg, items, before))
    && (!now.errors ==> now.table == before && Sound(cfg, items, before, now.code))
  }

  class Assembler {
    const cfg: Config
    const items: seq<Item>
    const labels: LabelTable
    var offs: int
    var code: seq<Cell>
    var errors: bool
    ghost var resegmented: nat

    constructor (cfg: Config, items: seq<Item>)
      ensures this.cfg == cfg && this.items == items && fresh(labels) && labels.table == map[]
    {
      this.cfg, this.items, offs, code, errors, resegmented := cfg, items, 0, [], false, 0;
      labels := new LabelTable();
    }

    /** The pass as a value. */
    ghost function Now(): State
      reads this, labels
    {
      State(labels.table, offs, labels.globalOffsetChanged, resegmented, code, errors)
    }

    method Evaluated(e: Expr) returns (r: Lookup)
      ensures r == Evaluate(cfg, labels.table, offs, e)
    {
      match e {
        case Number(v) => r := Known(Address(NO_SEG, v));
        case Here(k) => r := Known(Address(cfg.segment, offs + k));
        case Symbol(name, k) =>
          r := labels.LookupLabel(name);
          if r.Known? {
            r := Known(Address(r.address.segment, r.address.offset + k));
          }
      }
    }

    /** `def_label` of the pass: define_label in the first, redefine_label later. */
    method Enter(mode: Mode, name: string, a: Address)
      modifies this, labels
      ensures Now() == Define(mode, old(Now()), name, a)
    {
      if mode == First {
        var ok := labels.DefineLabel(name, a);
        errors := errors || !ok;
      } else {
        resegmented := resegmented + if ChangesSegment(labels.table, name, a) then 1 else 0;
        labels.RedefineLabel(name, a);
      }
    }

    method Line(mode: Mode, it: Item)
      modifies this, labels
      ensures Now() == Step(cfg, mode, it, old(Now()))
    {
      match it {
        case Label(name) => Enter(mode, name, Address(cfg.segment, offs));
        case Equ(name, e) =>
          if mode != Output {
            var r := Evaluated(e);
            Enter(mode, name, EquValue(r));
          }
        case Data(b) =>
          if mode == Output {
            code := code + Raws(b);
          }
          offs := offs + |b|;
        case Branch(j) =>
          var operand := Evaluated(j.target);
          var form := FormOf(cfg, j, operand, offs);
          if mode != Output {
            offs := offs + Size(j, form);
          } else if operand.Unknown? {
            errors := true;
          } else {
            code := code + Encode(cfg, j, form, operand.address, offs);
            errors := errors || Complains(cfg, j, form, operand.address, offs);
            offs := offs + Size(j, form);
          }
      }
    }

    method RunPass(mode: Mode)
      modifies this, labels
      ensures Now() == Pass(cfg, mode, items, old(labels.table))
    {
      labels.globalOffsetChanged := 0;
      offs, code, errors, resegmented := 0, [], false, 0;
      ghost var t := labels.table;
      var i := 0;
      while i < |items|
        invariant 0 <= i <= |items| && Now() == Pass(cfg, mode, items[..i], t)
      {
        Line(mode, items[i]);
        i := i + 1;
        assert items[..i][..i - 1] == items[..i - 1];
      }
      assert items[..i] == items;
    }

    /** Nothing before the first pass, and afterwards what every pass hands to the next. */
    ghost predicate TableReady(passn: nat)
      reads labels
    {
      if passn == 1 then labels.table == map[] else Distinct(items) && Ready(cfg, items, labels.table)
    }

    /** The table the output pass starts from. */
    ghost predicate Settled()
      reads labels
    {
      OffsetsHold(items, labels.table) && (Backward(items) ==> Quiet(Pass(cfg, Again, items, labels.table)))
    }

    /**
      Runs the passes.  The first rejects exactly the programs that define a name twice.
      Every assembled program is sound, whatever its EQUs look like, and the listing of its
      items; once the output pass has run, `before` is the table it started from and decides
      what became of it.
     */
    method AssembleFile() returns (outcome: Outcome, phaseError: bool, ghost counts: seq<nat>, ghost before: Table)
      requires labels.table == map[]
      modifies this, labels
      ensures Lives(counts)
      ensures outcome == Assembled ==> |counts| > 3 && QuietPasses(counts[..|counts| - 1]) == 2
      ensures !Distinct(items) ==> outcome == Rejected && counts == [] && !phaseError
      ensures Distinct(items) && outcome == Rejected ==> Trace(counts).pass0 == 2
      ensures Distinct(items) && outcome != GaveUp ==>
                Concluded(cfg, items, before, Now(), phaseError) && (outcome == Assembled <==> !errors)
      ensures outcome == Assembled ==> Closed(items, labels.table) && Sound(cfg, items, labels.table, code)
      ensures outcome == Assembled ==> OffsetsHold(items, labels.table)
                                       && exists p :: Listed(cfg, items, labels.table, code, p)
      ensures outcome == GaveUp ==> exists c: nat :: GivesUp(After(Trace(counts), c)) && Running(Trace(counts))
    {
      hide Pass, Ready, Concluded, Sound, Closed, Distinct, OffsetsHold, Listed;
      hide Backward, Trace, Lives, QuietPasses, Quiet;
      EmptyTrace();
      var pass0, passn, prev, stall := 0, 1, PASS_MAX, 0;
      counts, phaseError, before := [], false, map[];
      while pass0 <= 2
        invariant Control(pass0, passn, prev, stall) == Trace(counts) && Lives(counts)
        invariant 1 <= passn && stall <= 997 && (passn == 1 ==> pass0 == 0 && counts == [])
        invariant pass0 <= 2 ==> TableReady(passn) && (pass0 == 2 ==> Settled()) && !phaseError
        invariant pass0 > 2 ==> |counts| > 0 && Trace(counts[..|counts| - 1]).pass0 == 2
        invariant passn > 1 ==> Distinct(items)
        invariant pass0 > 2 ==> Concluded(cfg, items, before, Now(), phaseError) && !errors
        decreases 3 - pass0, prev, 998 - stall
      {
        ghost var c := Control(pass0, passn, prev, stall);
        var mode := if passn == 1 then First else if pass0 == 2 then Output else Again;
        before := labels.table;
        RunPass(mode);
        PassKeeps(cfg, items, mode, before);
        var changed := labels.globalOffsetChanged;
        if pass0 == 2 && changed != 0 && !errors {
          phaseError := true;
          errors := true;
        }
        if (passn > 1 && changed == 0) || pass0 == 2 {
          pass0 := pass0 + 1;
        } else if changed != 0 && changed < prev {
          prev := changed;
          stall := 0;
        } else {
          stall := stall + 1;
        }
        if errors {
          return Rejected, phaseError, counts, before;
        }
        if stall > 997 || passn >= PASS_MAX {
          assert GivesUp(After(Trace(counts), changed));
          return GaveUp, phaseError, counts, before;
        }
        LivesOn(counts, changed);
        counts := counts + [changed];
        passn := passn + 1;
      }
      OutputPassCount(counts);
      ConcludedIsSound(cfg, items, before, Now(), phaseError);
      return Assembled, phaseError, counts, before;
    }
  }

  lemma ConcludedIsSound(cfg: Config, items: seq<Item>, before: Table, now: State, phaseError: bool)
    requires Concluded(cfg, items, before, now, phaseError) && !now.errors
    ensures Closed(items, now.table) && Sound(cfg, items, now.table, now.code)
    ensures OffsetsHold(items, now.table) && exists p :: Listed(cfg, items, now.table, now.code, p)
  {
    hide Sound, Pass, Closed, Consistent, Listed, SomeFault, EqusHold, Backward, Placed, OffsetsHold;
    var p := SoundIsListed(cfg, items, now.table, now.code);
  }

  lemma EmptyTrace()
    ensures Trace([]) == START && Lives([])
  {
  }

  lemma OutputPassCount(counts: seq<nat>)
    requires |counts| > 0 && Lives(counts) && Trace(counts[..|counts| - 1]).pass0 == 2
    ensures |counts| > 3 && QuietPasses(counts[..|counts| - 1]) == 2
  {
    FrontLives(counts);
    OutputPassIff(counts[..|counts| - 1]);
  }

  lemma LivesOn(counts: seq<nat>, changed: nat)
    requires Lives(counts) && Running(Trace(counts)) && !GivesUp(After(Trace(counts), changed))
    ensures Lives(counts + [changed])
    ensures Trace(counts + [changed]) == NextPass(After(Trace(counts), changed))
    ensures (counts + [changed])[..|counts|] == counts
  {
    var s := counts + [changed];
    assert s[..|counts|] == counts;
    forall k | 0 <= k < |s|
      ensures Running(Trace(s[..k])) && !GivesUp(After(Trace(s[..k]), s[k]))
    {
      if k < |counts| {
        assert s[..k] == counts[..k];
      }
    }
  }

  /** What every pass hands to the next one. */
  lemma PassKeeps(cfg: Config, items: seq<Item>, mode: Mode, t: Table)
    requires mode == First ==> t == map[]
    requires mode != First ==> Distinct(items) && Ready(cfg, items, t)
    requires mode == Output && Backward(items) ==> Quiet(Pass(cfg, Again, items, t))
    requires mode == Output ==> OffsetsHold(items, t)
    ensures var s := Pass(cfg, mode, items, t);
            && Ready(cfg, items, s.table)
            && (mode == First ==> (s.errors <==> !Distinct(items)))
            && (mode == Again ==> !s.errors)
            && (mode == Again && s.changed == 0 ==> OffsetsHold(items, s.table))
            && (Backward(items) && mode == Again && s.changed == 0 ==> Quiet(Pass(cfg, Again, items, s.table)))
            && (mode == Output ==>
                  var phaseError := s.changed != 0 && !s.errors;
                  Concluded(cfg, items, t, s.(errors := s.errors || phaseError), phaseError))
  {
    hide Pass, Typed, Sound, SomeFault, DefinedIn, Backward, Distinct, Placed, Concluded, Closed, OffsetsHold;
    assert items[..|items|] == items;
    match mode {
      case First => FirstPassKeeps(cfg, items);
      case Again => LaterPassKeeps(cfg, Again, items, t);
      case Output =>
        LaterPassKeeps(cfg, Output, items, t);
        OutputConcludes(cfg, items, t);
    }
  }

  lemma FirstPassKeeps(cfg: Config, items: seq<Item>)
    ensures var s := Pass(cfg, First, items, map[]); Ready(cfg, items, s.table) && (s.errors <==> !Distinct(items))
  {
    hide Pass, Typed, DefinedIn, Backward, Distinct, Placed;
    FirstPassDefines(cfg, items);
    FirstPassCleanIff(cfg, items);
    if Distinct(items) {
      FirstPassPlaces(cfg, items);
    }
    if Backward(items) {
      FirstPassTyped(cfg, items);
    }
  }

  lemma LaterPassKeeps(cfg: Config, mode: Mode, items: seq<Item>, t: Table)
    requires mode != First && Distinct(items) && Ready(cfg, items, t)
    ensures var s := Pass(cfg, mode, items, t);
            && Ready(cfg, items, s.table)
            && (mode == Again ==> !s.errors)
            && (mode == Again && s.changed == 0 ==> OffsetsHold(items, s.table))
            && (Backward(items) && mode == Again && s.changed == 0 ==> Quiet(Pass(cfg, Again, items, s.table)))
  {
    hide Pass, Typed, DefinedIn, Backward, Distinct, Placed, OffsetsHold, SameOffsets;
    assert items[..|items|] == items;
    NamesStay(cfg, mode, items, t);
    if mode == Again && Pass(cfg, mode, items, t).changed == 0 {
      UncountedOffsets(cfg, items, t);
      OffsetsHoldStill(items, t, Pass(cfg, mode, items, t).table);
    }
    LaterPassPlaces(cfg, mode, items, t, |items|);
    SizingIsSilent(cfg, items, t);
    if Backward(items) {
      LaterPassTyped(cfg, mode, items, t, |items|);
      if mode == Again && Pass(cfg, mode, items, t).changed == 0 {
        QuietPassIff(cfg, items, t);
      }
    }
  }

  lemma OutputConcludes(cfg: Config, items: seq<Item>, t: Table)
    requires Placed(cfg, items, t) && OffsetsHold(items, t)
    requires Backward(items) ==> Quiet(Pass(cfg, Again, items, t))
    ensures var s := Pass(cfg, Output, items, t);
            var phaseError := s.changed != 0 && !s.errors;
            Concluded(cfg, items, t, s.(errors := s.errors || phaseError), phaseError)
  {
    hide Pass, Sound, SomeFault, Backward, Placed, Consistent, EqusHold, Closed, OffsetsHold;
    CleanOutputIff(cfg, items, t);
    QuietPassIff(cfg, items, t);
    CleanOutputResolves(cfg, items, t);
    if Closed(items, t) {
      OutputStillIff(cfg, items, t);
      if Consistent(cfg, items, t) {
        ConsistentIsSound(cfg, items, t);
      }
    }
  }

  // ----- where the fixpoint argument stops -----

  /** `bnd jmp $+130`: measured at 127 with the prefix, emitted without it at 128. */
  lemma BndJumpIsOutOfRange()
    ensures var cfg := Config(1, 7);
            var j := Jump(Here(130), Auto, true, [0xEB], [0xE9], 4, true);
            && JmpMatch(cfg, j, Known(Address(7, 130)), 0)
            && FormOf(cfg, j, Known(Address(7, 130)), 0) == ByteForm(false)
            && Pass(cfg, Output, [Branch(j)], map[]).errors
  {
    var cfg, j := Config(1, 7), Jump(Here(130), Auto, true, [0xEB], [0xE9], 4, true);
    assert [Branch(j)][..0] == [];
  }
}
