/** What an assembled program consists of: its bytes, item by item, with every jump's target. */
module Listing {
  import opened Bytes
  import opened Labels
  import opened Output
  import opened Relaxation

  /** The opcode bytes of a jump, with its BND prefix or without. */
  function OpcodeBytes(j: Jump, short: bool, bnd: bool): seq<int> {
    (if bnd then [0xF2] else []) + if short then j.short else j.near
  }

  /** BND stands where it is written, except before the byte form of JMP. */
  predicate BndAllowed(j: Jump, short: bool, bnd: bool) {
    bnd <==> j.bnd && !(short && j.plain)
  }

  /** A field of bytes `b` that takes the processor from `end` to `target`. */
  predicate TakesTo(j: Jump, short: bool, b: seq<int>, end: int, target: int) {
    && (forall i :: 0 <= i < |b| ==> 0 <= b[i] < 256)
    && if short then |b| == 1 && end + (if b[0] < 128 then b[0] else b[0] - 256) == target
       else |b| == j.width && (end + LittleEndian(b)) % Power256(j.width) == target % Power256(j.width)
  }

  /** The byte form or the near form of a jump at `here`: its opcode, and a field that takes
      the processor to `target`. */
  ghost predicate Reaches(j: Jump, short: bool, cells: seq<Cell>, here: int, target: int) {
    exists bnd: bool, b: seq<int> ::
      BndAllowed(j, short, bnd) && cells == Raws(OpcodeBytes(j, short, bnd) + b)
      && TakesTo(j, short, b, here + |cells|, target)
  }

  /** A field that the back end is to fill in with the distance from `end` to `a`. */
  function RelocatedField(a: Address, end: int, n: nat): seq<Cell> {
    seq(n, i requires 0 <= i < n => Reloc(a, end, i))
  }

  ghost predicate Relocates(j: Jump, short: bool, cells: seq<Cell>, here: int, a: Address) {
    exists bnd: bool ::
      BndAllowed(j, short, bnd)
      && cells == Raws(OpcodeBytes(j, short, bnd))
                  + RelocatedField(a, here + |cells|, if short then 1 else j.width)
  }

  /** A jump is short exactly where that is written, or no size is written, the optimizer may
      shorten it and the target is in reach (of the byte form with the BND prefix as written). */
  predicate WellSized(cfg: Config, j: Jump, short: bool, here: int, target: int) {
    short <==>
      || j.distance == Short
      || (&& j.distance == Auto
          && (cfg.optimizing > 0 || (cfg.optimizing < 0 && !j.plain))
          && -128 <= target - (here + (if j.bnd then 1 else 0) + |j.short| + 1) <= 127)
  }

  /** The cells of a jump at `here` to the address `a`. */
  ghost predicate Jumps(cfg: Config, j: Jump, cells: seq<Cell>, here: int, a: Address) {
    exists short: bool ::
      if a.segment == cfg.segment then
        Reaches(j, short, cells, here, a.offset) && WellSized(cfg, j, short, here, a.offset)
      else Relocates(j, short, cells, here, a) && (short <==> j.distance == Short)
  }

  /** The address that an operand names. */
  predicate Names(cfg: Config, t: Table, here: int, e: Expr, a: Address) {
    match e
    case Number(v) => a == Address(-1, v)
    case Here(d) => a == Address(cfg.segment, here + d)
    case Symbol(name, d) => name in t && a.segment == t[name].segment && a.offset - t[name].offset == d
  }

  /** Item `k` between two positions. */
  ghost predicate Occupies(cfg: Config, it: Item, t: Table, code: seq<Cell>, from: nat, to: nat)
    requires from <= to <= |code|
  {
    match it
    case Label(name) => from == to && name in t && t[name] == Address(cfg.segment, from)
    case Equ(_, _) => from == to
    case Data(b) => code[from..to] == Raws(b)
    case Branch(j) => exists a :: Names(cfg, t, from, j.target, a) && Jumps(cfg, j, code[from..to], from, a)
  }

  ghost predicate Spans(cfg: Config, items: seq<Item>, t: Table, code: seq<Cell>, p: seq<nat>, k: nat)
    requires k < |items| && |p| == |items| + 1
  {
    p[k] <= p[k + 1] <= |code| && Occupies(cfg, items[k], t, code, p[k], p[k + 1])
  }

  /** The whole program: item `k` is what stands between position `k` and the next. */
  ghost predicate Listed(cfg: Config, items: seq<Item>, t: Table, code: seq<Cell>, p: seq<nat>) {
    && |p| == |items| + 1 && p[0] == 0 && p[|items|] == |code|
    && forall k :: 0 <= k < |items| ==> Spans(cfg, items, t, code, p, k)
  }

  // ----- the cells of one jump -----

  lemma EncodedReaches(cfg: Config, j: Jump, form: Form, target: Address, here: int)
    requires target.segment == cfg.segment && !Complains(cfg, j, form, target, here)
    requires BndAllowed(j, form.ByteForm?, BndOf(form))
    ensures Reaches(j, form.ByteForm?, Encode(cfg, j, form, target, here), here, target.offset)
  {
    hide WriteAddr, LittleEndian, Power256;
    FieldReaches(cfg, j, form, target, here);
    var end, w := here + Size(j, form), FieldWidth(j, form);
    var b := WriteAddr(target.offset - end, w);
    var cells := Encode(cfg, j, form, target, here);
    RawsJoin(Opcode(j, form), b);
    assert Opcode(j, form) == OpcodeBytes(j, form.ByteForm?, BndOf(form));
    assert cells == Raws(OpcodeBytes(j, form.ByteForm?, BndOf(form)) + b);
    assert TakesTo(j, form.ByteForm?, b, here + |cells|, target.offset);
  }

  predicate BndOf(form: Form) {
    match form
    case ByteForm(bnd) => bnd
    case NearForm(bnd) => bnd
    case NoMatch => false
  }

  lemma RawsJoin(a: seq<int>, b: seq<int>)
    ensures Raws(a + b) == Raws(a) + Raws(b)
  {
  }

  lemma EncodedRelocates(cfg: Config, j: Jump, form: Form, target: Address, here: int)
    requires target.segment != cfg.segment && !form.NoMatch? && BndAllowed(j, form.ByteForm?, BndOf(form))
    ensures Relocates(j, form.ByteForm?, Encode(cfg, j, form, target, here), here, target)
  {
    assert Opcode(j, form) == OpcodeBytes(j, form.ByteForm?, BndOf(form));
    var cells, n := Encode(cfg, j, form, target, here), FieldWidth(j, form);
    assert RelField(cfg, target, here + Size(j, form), n) == RelocatedField(target, here + |cells|, n);
  }

  lemma FormFacts(cfg: Config, j: Jump, a: Address, here: int)
    ensures var form := FormOf(cfg, j, Known(a), here);
            && (!form.NoMatch? ==> BndAllowed(j, form.ByteForm?, BndOf(form)))
            && (a.segment == cfg.segment && !form.NoMatch? ==> WellSized(cfg, j, form.ByteForm?, here, a.offset))
            && (a.segment != cfg.segment && !form.NoMatch? ==> (form.ByteForm? <==> j.distance == Short))
  {
  }

  lemma EncodedJumps(cfg: Config, j: Jump, a: Address, here: int)
    requires !Complains(cfg, j, FormOf(cfg, j, Known(a), here), a, here)
    ensures Jumps(cfg, j, Encode(cfg, j, FormOf(cfg, j, Known(a), here), a, here), here, a)
  {
    hide Encode, Reaches, Relocates, WellSized, FormOf, JmpMatch;
    var form := FormOf(cfg, j, Known(a), here);
    FormFacts(cfg, j, a, here);
    if a.segment == cfg.segment {
      EncodedReaches(cfg, j, form, a, here);
    } else {
      EncodedRelocates(cfg, j, form, a, here);
    }
  }

  // ----- the whole program -----

  lemma EvaluatedNames(cfg: Config, t: Table, here: int, e: Expr)
    requires Resolved(e, t)
    ensures var r := Evaluate(cfg, t, here, e); r.Known? && Names(cfg, t, here, e, r.address)
  {
  }

  lemma SliceOccupies(cfg: Config, items: seq<Item>, t: Table, code: seq<Cell>, k: nat)
    requires k < |items| && Closed(items, t) && Consistent(cfg, items, t) && Slice(cfg, items, t, code, k)
    requires !Faulty(cfg, t, items[k], Start(cfg, t, items, k))
    ensures var here := Start(cfg, t, items, k);
            var to := here + ItemSize(cfg, t, items[k], here);
            0 <= here <= to <= |code| && Occupies(cfg, items[k], t, code, here, to)
  {
    hide Encode, FormOf, Size, Jumps, Names, Evaluate, Complains;
    var here, it := Start(cfg, t, items, k), items[k];
    if it.Branch? {
      EvaluatedNames(cfg, t, here, it.jump.target);
      EncodedJumps(cfg, it.jump, Evaluate(cfg, t, here, it.jump.target).address, here);
    }
  }

  lemma {:induction false} StartNat(cfg: Config, items: seq<Item>, t: Table, k: nat)
    requires k <= |items|
    ensures Start(cfg, t, items, k) >= 0
  {
    if k > 0 {
      StartNat(cfg, items, t, k - 1);
    }
  }

  /** Every assembled program is the listing of its items. */
  lemma SoundIsListed(cfg: Config, items: seq<Item>, t: Table, code: seq<Cell>) returns (p: seq<nat>)
    requires Closed(items, t) && Sound(cfg, items, t, code) && !SomeFault(cfg, items, t)
    ensures Listed(cfg, items, t, code, p)
    ensures |p| == |items| + 1 && forall k :: 0 <= k <= |items| ==> p[k] == Start(cfg, t, items, k)
  {
    hide Occupies, ItemSize, Faulty, Start, Slice, JumpSound;
    forall k: nat | k <= |items|
      ensures Start(cfg, t, items, k) >= 0
    {
      StartNat(cfg, items, t, k);
    }
    p := seq(|items| + 1, k requires 0 <= k <= |items| => Start(cfg, t, items, k));
    forall k | 0 <= k < |items|
      ensures Spans(cfg, items, t, code, p, k)
    {
      assert Slice(cfg, items, t, code, k) && !Faulty(cfg, t, items[k], Start(cfg, t, items, k));
      SliceOccupies(cfg, items, t, code, k);
      StartStep(cfg, t, items, k);
    }
    ZeroStart(cfg, items, t);
  }

  lemma ZeroStart(cfg: Config, items: seq<Item>, t: Table)
    ensures Start(cfg, t, items, 0) == 0
  {
  }

  // ----- EQUs -----

  /** What an EQU leaves in the table, where every EQU holds. */
  lemma EquNames(cfg: Config, items: seq<Item>, t: Table, k: nat)
    requires k < |items| && items[k].Equ? && EqusHold(cfg, items, t) && Resolved(items[k].value, t)
    ensures items[k].name in t && Names(cfg, t, Start(cfg, t, items, k), items[k].value, t[items[k].name])
  {
    hide Names, Evaluate, Start;
    assert EquHolds(cfg, items, t, k);
    EvaluatedNames(cfg, t, Start(cfg, t, items, k), items[k].value);
  }

  /** A jump to a label lands at the label plus its distance. */
  lemma JumpToLabel(cfg: Config, items: seq<Item>, t: Table, code: seq<Cell>, p: seq<nat>, m: nat, k: nat)
    requires Listed(cfg, items, t, code, p) && m < |items| && k < |items| && items[m].Label? && items[k].Branch?
    requires items[k].jump.target.Symbol? && items[k].jump.target.name == items[m].name
    ensures p[k] <= p[k + 1] <= |code|
    ensures Arrives(items[k].jump, code[p[k]..p[k + 1]], p[k], p[m] + items[k].jump.target.addend)
  {
    hide Reaches, WellSized, Relocates;
    assert Spans(cfg, items, t, code, p, m) && Spans(cfg, items, t, code, p, k);
  }

  ghost predicate Arrives(j: Jump, cells: seq<Cell>, here: int, target: int) {
    Reaches(j, true, cells, here, target) || Reaches(j, false, cells, here, target)
  }

  /** A jump through an EQU to a label lands at the label plus both distances. */
  lemma JumpThroughEqu(cfg: Config, items: seq<Item>, t: Table, code: seq<Cell>, p: seq<nat>, m: nat, q: nat, k: nat)
    requires Listed(cfg, items, t, code, p) && EqusHold(cfg, items, t)
    requires m < |items| && q < |items| && k < |items| && items[m].Label? && items[q].Equ? && items[k].Branch?
    requires items[q].value.Symbol? && items[q].value.name == items[m].name
    requires items[k].jump.target.Symbol? && items[k].jump.target.name == items[q].name
    ensures p[k] <= p[k + 1] <= |code|
    ensures Arrives(items[k].jump, code[p[k]..p[k + 1]], p[k],
                    p[m] + items[q].value.addend + items[k].jump.target.addend)
  {
    hide Reaches, WellSized, Relocates, EqusHold, Start;
    assert Spans(cfg, items, t, code, p, m) && Spans(cfg, items, t, code, p, k);
    EquNames(cfg, items, t, q);
  }
}
