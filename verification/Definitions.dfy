/** Which programs keep the segments of their labels from pass to pass. */
module Definitions {
  import opened Labels
  import opened Relaxation

  predicate Defines(it: Item, name: string) {
    (it.Label? || it.Equ?) && it.name == name
  }

  ghost predicate DefinedIn(items: seq<Item>, name: string) {
    exists k :: 0 <= k < |items| && Defines(items[k], name)
  }

  /** Every EQU names something defined above it, and what it defines has no other definition. */
  ghost predicate Backward(items: seq<Item>) {
    forall k :: 0 <= k < |items| ==> BackwardAt(items[..k], items[k])
  }

  ghost predicate BackwardAt(front: seq<Item>, it: Item) {
    match it
    case Equ(name, e) => (e.Symbol? ==> DefinedIn(front, e.name)) && !DefinedIn(front, name)
    case Label(name) => forall i :: 0 <= i < |front| && front[i].Equ? ==> front[i].name != name
    case _ => true
  }

  /** Every symbol a jump names is defined somewhere. */
  ghost predicate Targeted(items: seq<Item>) {
    forall k :: 0 <= k < |items| && items[k].Branch? && items[k].jump.target.Symbol? ==>
      DefinedIn(items, items[k].jump.target.name)
  }

  /** The segment of a name, read off its last definition. */
  function SegmentOf(cfg: Config, items: seq<Item>, name: string): int
    decreases |items|, 0
  {
    if |items| == 0 then NO_SEG
    else
      var n := |items| - 1;
      match items[n]
      case Label(l) => if l == name then cfg.segment else SegmentOf(cfg, items[..n], name)
      case Equ(l, e) => if l == name then ExprSegment(cfg, items[..n], e) else SegmentOf(cfg, items[..n], name)
      case _ => SegmentOf(cfg, items[..n], name)
  }

  function ExprSegment(cfg: Config, items: seq<Item>, e: Expr): int
    decreases |items|, 1
  {
    match e
    case Number(_) => NO_SEG
    case Here(_) => cfg.segment
    case Symbol(name, _) => SegmentOf(cfg, items, name)
  }

  lemma FrontIsBackward(items: seq<Item>, k: nat)
    requires Backward(items) && k <= |items|
    ensures Backward(items[..k])
  {
    forall i | 0 <= i < k
      ensures BackwardAt(items[..k][..i], items[..k][i])
    {
      assert items[..k][..i] == items[..i];
      assert BackwardAt(items[..i], items[i]);
    }
  }

  lemma DefinedInFront(items: seq<Item>, name: string)
    requires |items| > 0
    ensures DefinedIn(items, name) <==>
              DefinedIn(items[..|items| - 1], name) || Defines(items[|items| - 1], name)
  {
    var n := |items| - 1;
    if k :| 0 <= k < |items| && Defines(items[k], name) {
      assert k < n ==> items[..n][k] == items[k];
    }
    if k :| 0 <= k < n && Defines(items[..n][k], name) {
      assert Defines(items[k], name);
    }
  }

  /** A label's segment is that of the section; only EQUs can be elsewhere. */
  lemma {:induction false} LabelSegment(cfg: Config, items: seq<Item>, name: string)
    requires DefinedIn(items, name) && forall i :: 0 <= i < |items| && items[i].Equ? ==> items[i].name != name
    ensures SegmentOf(cfg, items, name) == cfg.segment
  {
    DefinedInFront(items, name);
    if !Defines(items[|items| - 1], name) {
      var front := items[..|items| - 1];
      assert forall i :: 0 <= i < |front| ==> front[i] == items[i];
      LabelSegment(cfg, front, name);
    }
  }

  /** Later definitions do not change the segment a name got from its first ones. */
  lemma {:induction false} SegmentStable(cfg: Config, items: seq<Item>, k: nat, name: string)
    requires Backward(items) && k <= |items| && DefinedIn(items[..k], name)
    ensures DefinedIn(items, name)
    ensures SegmentOf(cfg, items, name) == SegmentOf(cfg, items[..k], name)
    decreases |items|
  {
    var n := |items| - 1;
    if k == |items| {
      assert items[..k] == items;
    } else {
      var front := items[..n];
      FrontIsBackward(items, n);
      assert front[..k] == items[..k];
      SegmentStable(cfg, front, k, name);
      DefinedInFront(items, name);
      assert BackwardAt(front, items[n]);
      if Defines(items[n], name) {
        assert items[n].Label?;
        LabelSegment(cfg, front, name);
      }
    }
  }

  /** The table has every name of `items`, each in its segment. */
  ghost predicate Typed(cfg: Config, items: seq<Item>, t: Table) {
    && (forall name :: DefinedIn(items, name) ==> name in t)
    && (forall name :: name in t ==> t[name].segment == SegmentOf(cfg, items, name))
  }

  /** The first pass defines exactly the names met so far. */
  lemma {:induction false} FirstPassDefines(cfg: Config, items: seq<Item>)
    ensures var t := Pass(cfg, First, items, map[]).table; forall name :: name in t <==> DefinedIn(items, name)
  {
    if |items| > 0 {
      hide SegmentOf, FormOf, Size, Evaluate;
      var n := |items| - 1;
      FirstPassDefines(cfg, items[..n]);
      forall name
        ensures DefinedIn(items, name) <==> DefinedIn(items[..n], name) || Defines(items[n], name)
      {
        DefinedInFront(items, name);
      }
    }
  }

  /** The first pass gives every name its segment. */
  lemma {:induction false} FirstPassTyped(cfg: Config, items: seq<Item>)
    requires Backward(items)
    ensures Typed(cfg, items, Pass(cfg, First, items, map[]).table)
  {
    FirstPassDefines(cfg, items);
    if |items| > 0 {
      hide FormOf, Size, DefinedIn;
      var n := |items| - 1;
      var front := items[..n];
      FrontIsBackward(items, n);
      FirstPassTyped(cfg, front);
      FirstPassDefines(cfg, front);
      assert BackwardAt(front, items[n]);
      var s0, s := Pass(cfg, First, front, map[]), Pass(cfg, First, items, map[]);
      forall name | name in s.table
        ensures s.table[name].segment == SegmentOf(cfg, items, name)
      {
        DefinedInFront(items, name);
        if name in s0.table {
          assert s.table[name] == s0.table[name];
          assert items[..n] == front;
          SegmentStable(cfg, items, n, name);
        } else {
          assert Defines(items[n], name);
        }
      }
    }
  }

  /** A later pass keeps the segments, line by line. */
  lemma {:induction false} LaterPassTyped(cfg: Config, mode: Mode, items: seq<Item>, t: Table, k: nat)
    requires Backward(items) && Typed(cfg, items, t) && k <= |items| && mode != First
    ensures var s := Pass(cfg, mode, items[..k], t); Typed(cfg, items, s.table) && s.resegmented == 0
  {
    if k > 0 {
      hide FormOf, Size, DefinedIn, SegmentOf;
      LaterPassTyped(cfg, mode, items, t, k - 1);
      assert items[..k][..k - 1] == items[..k - 1];
      var s0, it := Pass(cfg, mode, items[..k - 1], t), items[k - 1];
      assert BackwardAt(items[..k - 1], it);
      if it.Label? || it.Equ? {
        DefinedOnLine(items, k);
        SegmentStable(cfg, items, k, it.name);
        LastDefinition(cfg, items[..k]);
        if it.Equ? && it.value.Symbol? {
          SegmentStable(cfg, items, k - 1, it.value.name);
        }
      }
    }
  }

  lemma DefinedOnLine(items: seq<Item>, k: nat)
    requires 0 < k <= |items| && (items[k - 1].Label? || items[k - 1].Equ?)
    ensures DefinedIn(items[..k], items[k - 1].name)
  {
    assert Defines(items[..k][k - 1], items[k - 1].name);
  }

  lemma LastDefinition(cfg: Config, items: seq<Item>)
    requires |items| > 0
    ensures var n := |items| - 1;
            && (items[n].Label? ==> SegmentOf(cfg, items, items[n].name) == cfg.segment)
            && (items[n].Equ? ==> SegmentOf(cfg, items, items[n].name) == ExprSegment(cfg, items[..n], items[n].value))
            && (items[n].Equ? && items[n].value.Symbol? ==>
                  ExprSegment(cfg, items[..n], items[n].value) == SegmentOf(cfg, items[..n], items[n].value.name))
  {
  }

  // ----- programs that define every name once -----

  /** No name is defined twice. */
  ghost predicate Distinct(items: seq<Item>) {
    forall k :: 0 <= k < |items| && (items[k].Label? || items[k].Equ?) ==> !DefinedIn(items[..k], items[k].name)
  }

  lemma DistinctStep(items: seq<Item>)
    requires |items| > 0
    ensures var n := |items| - 1;
            Distinct(items) <==>
              Distinct(items[..n])
              && (items[n].Label? || items[n].Equ? ==> !DefinedIn(items[..n], items[n].name))
  {
    hide DefinedIn;
    var n, front := |items| - 1, items[..|items| - 1];
    assert forall k :: 0 <= k < n ==> front[k] == items[k] && front[..k] == items[..k];
    if Distinct(items) {
      forall k | 0 <= k < n && (front[k].Label? || front[k].Equ?)
        ensures !DefinedIn(front[..k], front[k].name)
      {
        assert items[k].Label? || items[k].Equ?;
      }
    }
  }

  /** The first pass complains exactly about names that are defined twice. */
  lemma {:induction false} FirstPassCleanIff(cfg: Config, items: seq<Item>)
    ensures Pass(cfg, First, items, map[]).errors <==> !Distinct(items)
  {
    if |items| > 0 {
      hide FormOf, Size, Evaluate, DefinedIn, Distinct;
      var n := |items| - 1;
      FirstPassCleanIff(cfg, items[..n]);
      FirstPassDefines(cfg, items[..n]);
      DistinctStep(items);
    } else {
      assert Distinct(items);
    }
  }

  /** The first pass puts every label into the segment. */
  lemma {:induction false} FirstPassPlaces(cfg: Config, items: seq<Item>)
    requires Distinct(items)
    ensures Placed(cfg, items, Pass(cfg, First, items, map[]).table)
  {
    if |items| > 0 {
      hide FormOf, Size, Evaluate, DefinedIn, Distinct;
      var n := |items| - 1;
      var front := items[..n];
      DistinctStep(items);
      FirstPassPlaces(cfg, front);
      FirstPassDefines(cfg, front);
      var s0, s := Pass(cfg, First, front, map[]), Pass(cfg, First, items, map[]);
      forall k | 0 <= k < |items| && items[k].Label?
        ensures items[k].name in s.table && s.table[items[k].name].segment == cfg.segment
      {
        if k < n {
          assert front[k].Label?;
        }
      }
    }
  }

  /** Later passes leave every label in the segment. */
  lemma {:induction false} LaterPassPlaces(cfg: Config, mode: Mode, items: seq<Item>, t: Table, k: nat)
    requires Distinct(items) && Placed(cfg, items, t) && k <= |items| && mode != First
    ensures Placed(cfg, items, Pass(cfg, mode, items[..k], t).table)
  {
    if k > 0 {
      hide FormOf, Size, Evaluate, DefinedIn, Distinct, Encode, Complains;
      LaterPassPlaces(cfg, mode, items, t, k - 1);
      assert items[..k][..k - 1] == items[..k - 1];
      var s0, s := Pass(cfg, mode, items[..k - 1], t), Pass(cfg, mode, items[..k], t);
      forall i | 0 <= i < |items| && items[i].Label?
        ensures items[i].name in s.table && s.table[items[i].name].segment == cfg.segment
      {
        if items[k - 1].Equ? {
          DefinedOnce(items, i, k - 1);
        }
      }
    }
  }

  lemma DefinedOnce(items: seq<Item>, i: nat, j: nat)
    requires Distinct(items) && i < |items| && j < |items| && items[i].Label? && items[j].Equ?
    ensures items[i].name != items[j].name
  {
    if i < j {
      assert Defines(items[..j][i], items[i].name);
    } else {
      assert Defines(items[..i][j], items[j].name);
    }
  }

  /** Sizing passes after the first have nothing to complain about. */
  lemma {:induction false} SizingIsSilent(cfg: Config, items: seq<Item>, t: Table)
    ensures !Pass(cfg, Again, items, t).errors
  {
    if |items| > 0 {
      SizingIsSilent(cfg, items[..|items| - 1], t);
    }
  }

  lemma {:induction false} NamesStay(cfg: Config, mode: Mode, items: seq<Item>, t: Table)
    requires mode != First
    ensures forall name :: name in t ==> name in Pass(cfg, mode, items, t).table
  {
    if |items| > 0 {
      NamesStay(cfg, mode, items[..|items| - 1], t);
    }
  }

  // ----- when an unchanged pass is enough -----

  /** With every target defined, a table with every name resolves every jump. */
  lemma TargetedIsClosed(cfg: Config, items: seq<Item>, t: Table)
    requires Targeted(items) && (forall name :: DefinedIn(items, name) ==> name in t)
    ensures Closed(items, t)
  {
  }

  /**
    For backward programs the code's own criterion is enough: once a pass after the first counts
    no changed offset, later sizing passes repeat it, the output pass changes no label, and
    unless it reports an error every jump leads to its target.
   */
  lemma UnchangedPassIsSound(cfg: Config, items: seq<Item>, t: Table)
    requires Backward(items) && Targeted(items) && Typed(cfg, items, t)
    requires Pass(cfg, Again, items, t).changed == 0
    ensures Closed(items, t)
    ensures Pass(cfg, Again, items, t).table == t
    ensures var s := Pass(cfg, Output, items, t);
            && s.table == t && s.changed == 0 && s.offset == Pass(cfg, Again, items, t).offset == |s.code|
            && (s.errors <==> SomeFault(cfg, items, t))
            && (!s.errors ==> Sound(cfg, items, t, s.code))
  {
    hide Pass, Typed, Sound, SomeFault, Backward, Closed;
    assert items[..|items|] == items;
    LaterPassTyped(cfg, Again, items, t, |items|);
    TypedIsComplete(cfg, items, t);
    TargetedIsClosed(cfg, items, t);
    QuietPassIff(cfg, items, t);
    FixpointIsSound(cfg, items, t);
  }

  lemma TypedIsComplete(cfg: Config, items: seq<Item>, t: Table)
    requires Typed(cfg, items, t)
    ensures forall name :: DefinedIn(items, name) ==> name in t
  {
  }

  /** Labels, data and jumps alone look backward trivially. */
  lemma EquFreeIsBackward(items: seq<Item>)
    requires forall k :: 0 <= k < |items| ==> !items[k].Equ?
    ensures Backward(items)
  {
  }

  /** The table after `n` sizing passes. */
  function TableAfter(cfg: Config, items: seq<Item>, n: nat): Table
    requires n > 0
  {
    if n == 1 then Pass(cfg, First, items, map[]).table
    else Pass(cfg, Again, items, TableAfter(cfg, items, n - 1)).table
  }

  lemma {:induction false} TableAfterTyped(cfg: Config, items: seq<Item>, n: nat)
    requires Backward(items) && n > 0
    ensures Typed(cfg, items, TableAfter(cfg, items, n))
  {
    hide Typed, Backward, Pass;
    if n == 1 {
      FirstPassTyped(cfg, items);
    } else {
      TableAfterTyped(cfg, items, n - 1);
      assert items[..|items|] == items;
      LaterPassTyped(cfg, Again, items, TableAfter(cfg, items, n - 1), |items|);
    }
  }

  lemma {:induction false} TableStays(cfg: Config, items: seq<Item>, n: nat, m: nat)
    requires 0 < n <= m && Pass(cfg, Again, items, TableAfter(cfg, items, n)).table == TableAfter(cfg, items, n)
    ensures TableAfter(cfg, items, m) == TableAfter(cfg, items, n)
  {
    hide Pass;
    if n < m {
      TableStays(cfg, items, n, m - 1);
    }
  }

  /**
    A program of labels, data and jumps: once pass `n` + 1 has counted no change, all later
    passes work on the same table, and the output pass over it changes nothing and, unless
    it complains about a line, takes every jump to its target.
   */
  lemma LabelsAndJumpsSettle(cfg: Config, items: seq<Item>, n: nat, m: nat)
    requires forall k :: 0 <= k < |items| ==> !items[k].Equ?
    requires Targeted(items) && 0 < n <= m
    requires Pass(cfg, Again, items, TableAfter(cfg, items, n)).changed == 0
    ensures TableAfter(cfg, items, m) == TableAfter(cfg, items, n)
    ensures var t := TableAfter(cfg, items, m);
            var s := Pass(cfg, Output, items, t);
            && Closed(items, t) && s.table == t && s.changed == 0
            && (if s.errors then SomeFault(cfg, items, t) else Sound(cfg, items, t, s.code))
  {
    hide Pass, TableAfter, Typed, Sound, SomeFault, Closed, Targeted, Backward;
    EquFreeIsBackward(items);
    TableAfterTyped(cfg, items, n);
    UnchangedPassIsSound(cfg, items, TableAfter(cfg, items, n));
    TableStays(cfg, items, n, m);
  }

  // ----- the offsets of EQUs, in any program -----

  /** Every EQU for a symbol is as far from it as its expression says. */
  ghost predicate OffsetsHold(items: seq<Item>, t: Table) {
    forall k :: 0 <= k < |items| && items[k].Equ? ==> OffsetHolds(items[k], t)
  }

  predicate OffsetHolds(it: Item, t: Table)
    requires it.Equ?
  {
    it.name in t
    && (it.value.Symbol? && it.value.name in t ==> t[it.name].offset - t[it.value.name].offset == it.value.addend)
  }

  ghost predicate SameOffsets(t: Table, t': Table) {
    t.Keys == t'.Keys && forall name :: name in t ==> t'[name].offset == t[name].offset
  }

  lemma OffsetHoldsStill(it: Item, t: Table, t': Table)
    requires it.Equ? && SameOffsets(t, t')
    ensures OffsetHolds(it, t) <==> OffsetHolds(it, t')
  {
  }

  lemma OffsetsHoldStill(items: seq<Item>, t: Table, t': Table)
    requires OffsetsHold(items, t) && SameOffsets(t, t')
    ensures OffsetsHold(items, t')
  {
    hide OffsetHolds, SameOffsets;
    forall k | 0 <= k < |items| && items[k].Equ?
      ensures OffsetHolds(items[k], t')
    {
      OffsetHoldsStill(items[k], t, t');
    }
  }

  /** A sizing pass that counts no change keeps all offsets, and finds those of EQUs right. */
  lemma {:induction false} UncountedOffsets(cfg: Config, items: seq<Item>, t: Table)
    requires Pass(cfg, Again, items, t).changed == 0 && forall name :: DefinedIn(items, name) ==> name in t
    ensures SameOffsets(t, Pass(cfg, Again, items, t).table) && OffsetsHold(items, t)
  {
    hide FormOf, Size, DefinedIn, OffsetHolds;
    if |items| > 0 {
      var n := |items| - 1;
      var front, it := items[..n], items[n];
      forall name | DefinedIn(front, name)
        ensures name in t
      {
        DefinedInFront(items, name);
      }
      UncountedOffsets(cfg, front, t);
      var s := Pass(cfg, Again, front, t);
      if it.Label? || it.Equ? {
        DefinedInFront(items, it.name);
        assert Defines(it, it.name);
      }
      if it.Equ? {
        UncountedEqu(cfg, it, s);
        OffsetHoldsStill(it, t, s.table);
      }
      assert forall k :: 0 <= k < n ==> front[k] == items[k];
    }
  }

  lemma UncountedEqu(cfg: Config, it: Item, s: State)
    requires it.Equ? && it.name in s.table && Step(cfg, Again, it, s).changed == 0
    ensures OffsetHolds(it, s.table)
  {
  }
}
