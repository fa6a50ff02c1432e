/** Programs whose EQUs look forward: what the count of changed offsets does not see. */
module ForwardEqus {
  import opened Labels
  import opened Output
  import opened Relaxation

  function ToA(size: Distance): Jump {
    Jump(Symbol("a", 0), size, true, [0xEB], [0xE9], 4, false)
  }

  /** A chain of forward EQUs for offset zero: each pass fixes the segment of one more. */
  function Chain(size: Distance): seq<Item> {
    [Label("c"), Branch(ToA(size)), Label("d"),
     Equ("a", Symbol("b", 0)), Equ("b", Symbol("e", 0)), Equ("e", Symbol("f", 0)), Equ("f", Symbol("c", 0))]
  }

  /** The chain's table when `n` of the EQUs are in the segment and `d` is at `at`. */
  function ChainTable(n: nat, at: int): Table {
    map["c" := Address(7, 0), "d" := Address(7, at),
        "a" := Address(if n >= 4 then 7 else NO_SEG, 0), "b" := Address(if n >= 3 then 7 else NO_SEG, 0),
        "e" := Address(if n >= 2 then 7 else NO_SEG, 0), "f" := Address(7, 0)]
  }

  lemma Unfold(cfg: Config, mode: Mode, it: Item, rest: seq<Item>, t: Table)
    ensures Pass(cfg, mode, rest + [it], t) == Step(cfg, mode, it, Pass(cfg, mode, rest, t))
  {
    assert (rest + [it])[..|rest|] == rest;
  }

  lemma UnfoldSeven(cfg: Config, mode: Mode, i0: Item, i1: Item, i2: Item, i3: Item, i4: Item, i5: Item, i6: Item,
                    t: Table)
    ensures var s2 := Step(cfg, mode, i2, Step(cfg, mode, i1, Step(cfg, mode, i0, State(t, 0, 0, 0, [], false))));
            var s4 := Step(cfg, mode, i4, Step(cfg, mode, i3, s2));
            Pass(cfg, mode, [i0, i1, i2, i3, i4, i5, i6], t) == Step(cfg, mode, i6, Step(cfg, mode, i5, s4))
  {
    hide Step, Pass;
    EmptyPass(cfg, mode, t);
    Unfold(cfg, mode, i0, [], t);
    assert [] + [i0] == [i0];
    Unfold(cfg, mode, i1, [i0], t);
    assert [i0] + [i1] == [i0, i1];
    Unfold(cfg, mode, i2, [i0, i1], t);
    assert [i0, i1] + [i2] == [i0, i1, i2];
    Unfold(cfg, mode, i3, [i0, i1, i2], t);
    assert [i0, i1, i2] + [i3] == [i0, i1, i2, i3];
    Unfold(cfg, mode, i4, [i0, i1, i2, i3], t);
    assert [i0, i1, i2, i3] + [i4] == [i0, i1, i2, i3, i4];
    Unfold(cfg, mode, i5, [i0, i1, i2, i3, i4], t);
    assert [i0, i1, i2, i3, i4] + [i5] == [i0, i1, i2, i3, i4, i5];
    Unfold(cfg, mode, i6, [i0, i1, i2, i3, i4, i5], t);
    assert [i0, i1, i2, i3, i4, i5] + [i6] == [i0, i1, i2, i3, i4, i5, i6];
  }

  lemma EmptyPass(cfg: Config, mode: Mode, t: Table)
    ensures Pass(cfg, mode, [], t) == State(t, 0, 0, 0, [], false)
  {
  }

  lemma UnfoldChain(size: Distance, mode: Mode, t: Table)
    ensures var cfg, j := Config(1, 7), ToA(size);
            var s1 := Step(cfg, mode, Branch(j), Step(cfg, mode, Label("c"), State(t, 0, 0, 0, [], false)));
            var s3 := Step(cfg, mode, Equ("a", Symbol("b", 0)), Step(cfg, mode, Label("d"), s1));
            var s5 := Step(cfg, mode, Equ("e", Symbol("f", 0)), Step(cfg, mode, Equ("b", Symbol("e", 0)), s3));
            Pass(cfg, mode, Chain(size), t) == Step(cfg, mode, Equ("f", Symbol("c", 0)), s5)
  {
    hide Step, Pass;
    var j := ToA(size);
    UnfoldSeven(Config(1, 7), mode, Label("c"), Branch(j), Label("d"), Equ("a", Symbol("b", 0)),
                Equ("b", Symbol("e", 0)), Equ("e", Symbol("f", 0)), Equ("f", Symbol("c", 0)), t);
  }

  /** The chain's jump takes the byte form once its target is in the segment. */
  lemma ChainBranch(size: Distance, mode: Mode, s: State)
    requires s.offset == 0
    requires mode == First ==> s.table == map["c" := Address(7, 0)]
    requires mode != First ==> "a" in s.table && s.table["a"].offset == 0
    requires size != Short
    ensures var s' := Step(Config(1, 7), mode, Branch(ToA(size)), s);
            && s'.table == s.table && s'.changed == s.changed
            && s'.offset == if size == Auto && (mode == First || s.table["a"].segment == 7) then 2 else 5
  {
    hide Encode, Complains, Raws;
  }

  lemma FirstEqu(s: State, name: string, to: string)
    requires name !in s.table
    ensures Step(Config(1, 7), First, Equ(name, Symbol(to, 0)), s)
         == s.(table := s.table[name := if to in s.table then Address(s.table[to].segment, s.table[to].offset + 0)
                                        else Address(NO_SEG, 0)])
  {
  }

  lemma FirstLabel(s: State, name: string)
    requires name !in s.table
    ensures Step(Config(1, 7), First, Label(name), s) == s.(table := s.table[name := Address(7, s.offset)])
  {
  }

  lemma ChainFirst(size: Distance)
    requires size != Short
    ensures Pass(Config(1, 7), First, Chain(size), map[]).table == ChainTable(1, if size == Near then 5 else 2)
  {
    hide Encode, Complains, Raws, Pass, Chain, FormOf, Size, Step;
    var cfg := Config(1, 7);
    UnfoldChain(size, First, map[]);
    var s0 := State(map[], 0, 0, 0, [], false);
    FirstLabel(s0, "c");
    var s1 := Step(cfg, First, Label("c"), s0);
    ChainBranch(size, First, s1);
    var s2 := Step(cfg, First, Branch(ToA(size)), s1);
    FirstLabel(s2, "d");
    var s3 := Step(cfg, First, Label("d"), s2);
    FirstEqu(s3, "a", "b");
    var s4 := Step(cfg, First, Equ("a", Symbol("b", 0)), s3);
    FirstEqu(s4, "b", "e");
    var s5 := Step(cfg, First, Equ("b", Symbol("e", 0)), s4);
    FirstEqu(s5, "e", "f");
    var s6 := Step(cfg, First, Equ("e", Symbol("f", 0)), s5);
    FirstEqu(s6, "f", "c");
  }

  lemma AgainLabel(s: State, name: string)
    requires name in s.table && s.table[name].segment == 7
    ensures var t := Step(Config(1, 7), Again, Label(name), s);
            && t.table == s.table[name := Address(7, s.offset)] && t.offset == s.offset
            && t.changed == s.changed + if s.table[name].offset == s.offset then 0 else 1
  {
  }

  lemma AgainEqu(s: State, name: string, to: string)
    requires name in s.table && to in s.table && s.table[name].offset == 0 && s.table[to].offset == 0
    ensures var t := Step(Config(1, 7), Again, Equ(name, Symbol(to, 0)), s);
            && t.table == s.table[name := Address(s.table[to].segment, 0)] && t.offset == s.offset
            && t.changed == s.changed
  {
  }

  /** Passes two to four: nothing counts as changed once `d` has moved. */
  lemma ChainAgain(size: Distance, n: nat, at: int)
    requires 1 <= n <= 3 && size != Short
    ensures var s := Pass(Config(1, 7), Again, Chain(size), ChainTable(n, at));
            s.table == ChainTable(n + 1, 5) && s.changed == if at == 5 then 0 else 1
  {
    hide Pass, Chain, Step;
    var cfg, s0 := Config(1, 7), State(ChainTable(n, at), 0, 0, 0, [], false);
    UnfoldChain(size, Again, ChainTable(n, at));
    AgainLabel(s0, "c");
    var s1 := Step(cfg, Again, Label("c"), s0);
    ChainBranch(size, Again, s1);
    var s2 := Step(cfg, Again, Branch(ToA(size)), s1);
    AgainLabel(s2, "d");
    var s3 := Step(cfg, Again, Label("d"), s2);
    AgainEqu(s3, "a", "b");
    var s4 := Step(cfg, Again, Equ("a", Symbol("b", 0)), s3);
    AgainEqu(s4, "b", "e");
    var s5 := Step(cfg, Again, Equ("b", Symbol("e", 0)), s4);
    AgainEqu(s5, "e", "f");
    var s6 := Step(cfg, Again, Equ("e", Symbol("f", 0)), s5);
    AgainEqu(s6, "f", "c");
  }

  lemma ChainOutput()
    ensures var s := Pass(Config(1, 7), Output, Chain(Auto), ChainTable(4, 5)); s.changed == 1 && s.offset == 2
  {
    hide Encode, Complains, Raws, Pass, Chain, FormOf, Size;
    UnfoldChain(Auto, Output, ChainTable(4, 5));
    var s := Step(Config(1, 7), Output, Label("c"), State(ChainTable(4, 5), 0, 0, 0, [], false));
    ChainBranch(Auto, Output, s);
  }

  /** The chain has nothing else wrong with it. */
  lemma ChainReady(size: Distance, n: nat, at: int)
    ensures Placed(Config(1, 7), Chain(size), ChainTable(n, at)) && Closed(Chain(size), ChainTable(n, at))
  {
  }

  /**
    Two passes that count no change lead to an output pass that moves a label: offsets are
    compared, segments are not, and the table is at odds with its layout.
   */
  lemma BreakTheFixpoint()
    ensures var cfg, p := Config(1, 7), Chain(Auto);
            var t1 := Pass(cfg, First, p, map[]).table;
            var t2 := Pass(cfg, Again, p, t1).table;
            var s3 := Pass(cfg, Again, p, t2);
            var s4 := Pass(cfg, Again, p, s3.table);
            && s3.changed == 0 && s4.changed == 0
            && Placed(cfg, p, s4.table) && Closed(p, s4.table) && !Consistent(cfg, p, s4.table)
            && Pass(cfg, Output, p, s4.table).changed == 1
  {
    hide Pass, ChainTable, Chain, Placed, Closed, Consistent;
    ChainFirst(Auto);
    ChainAgain(Auto, 1, 2);
    ChainAgain(Auto, 2, 5);
    ChainAgain(Auto, 3, 5);
    ChainOutput();
    ChainReady(Auto, 4, 5);
    OutputStillIff(Config(1, 7), Chain(Auto), ChainTable(4, 5));
  }

  // ----- the same chain with a jump of fixed size -----

  lemma NearChainOutput()
    ensures var s := Pass(Config(1, 7), Output, Chain(Near), ChainTable(3, 5));
            s.changed == 0 && !s.errors && s.code == [Raw(0xE9)] + RelField(Config(1, 7), Address(NO_SEG, 0), 5, 4)
  {
    hide Pass, Chain, RelField, ToA;
    var cfg, t := Config(1, 7), ChainTable(3, 5);
    UnfoldChain(Near, Output, t);
    var s1 := Step(cfg, Output, Label("c"), State(t, 0, 0, 0, [], false));
    assert s1 == State(t, 0, 0, 0, [], false) by { QuietRedefinition(t, "c", Address(7, 0)); }
    NearChainJump(s1);
    QuietRedefinition(t, "d", Address(7, 5));
  }

  lemma NearChainJump(s: State)
    requires s.offset == 0 && s.code == [] && "a" in s.table && s.table["a"] == Address(NO_SEG, 0)
    ensures Step(Config(1, 7), Output, Branch(ToA(Near)), s)
         == s.(offset := 5, code := [Raw(0xE9)] + RelField(Config(1, 7), Address(NO_SEG, 0), 5, 4))
  {
    hide RelField, Step, Encode;
    assert Raws([0xE9]) == [Raw(0xE9)];
    NearJump(s);
    NearCells();
  }

  lemma NearCells()
    ensures Encode(Config(1, 7), ToA(Near), NearForm(false), Address(NO_SEG, 0), 0)
         == [Raw(0xE9)] + RelField(Config(1, 7), Address(NO_SEG, 0), 5, 4)
  {
    hide RelField;
    assert Raws([] + [0xE9]) == [Raw(0xE9)];
  }

  lemma NearJump(s: State)
    requires s.offset == 0 && "a" in s.table && s.table["a"] == Address(NO_SEG, 0)
    ensures Step(Config(1, 7), Output, Branch(ToA(Near)), s)
         == s.(offset := 5,
               code := s.code + Encode(Config(1, 7), ToA(Near), NearForm(false), Address(NO_SEG, 0), 0))
  {
    hide Encode;
  }

  /**
    With a jump of fixed size nothing gives the stale segment away: the program is assembled,
    and the jump to a label of its own segment becomes a relocation to an absolute address.
    The table is consistent, but not all of its EQUs hold.
   */
  lemma StaleSegment()
    ensures var cfg, p := Config(1, 7), Chain(Near);
            var t1 := Pass(cfg, First, p, map[]).table;
            var s2 := Pass(cfg, Again, p, t1);
            var s3 := Pass(cfg, Again, p, s2.table);
            var s4 := Pass(cfg, Output, p, s3.table);
            && s2.changed == 0 && s3.changed == 0 && s4.changed == 0 && !s4.errors
            && Consistent(cfg, p, s3.table) && !EqusHold(cfg, p, s3.table)
            && |s4.code| == 5 && s4.code[1] == Reloc(Address(NO_SEG, 0), 5, 0)
  {
    hide Pass, ChainTable, Chain, Placed, Closed, Consistent, EqusHold;
    ChainFirst(Near);
    ChainAgain(Near, 1, 5);
    ChainAgain(Near, 2, 5);
    ChainAgain(Near, 3, 5);
    NearChainOutput();
    ChainReady(Near, 3, 5);
    OutputStillIff(Config(1, 7), Chain(Near), ChainTable(3, 5));
    QuietPassIff(Config(1, 7), Chain(Near), ChainTable(3, 5));
    ChainTablesDiffer();
  }

  lemma ChainTablesDiffer()
    ensures ChainTable(3, 5) != ChainTable(4, 5)
  {
    assert ChainTable(3, 5)["a"] != ChainTable(4, 5)["a"];
  }
}
