/** The branch-size choice of assemble.c (jmp_match) inside one pass of nasm.c. */
module Relaxation {
  import opened Bytes
  import opened Labels
  import opened Powers
  import opened Output

  // ----- programs -----

  datatype Expr = Number(value: int) | Symbol(name: string, addend: int) | Here(addend: int)

  datatype Distance = Auto | Short | Near

  /**
    A jump: the opcode bytes of its byte form and of its near form, the near form's
    displacement width, whether it is the unconditional JMP, and whether it has a BND prefix.
   */
  datatype Jump = Jump(target: Expr, distance: Distance, plain: bool,
                       short: seq<int>, near: seq<int>, width: nat, bnd: bool)

  datatype Item = Label(name: string) | Equ(name: string, value: Expr) | Data(bytes: seq<int>) | Branch(jump: Jump)

  /** The command line: the optimization level and the segment being assembled. */
  datatype Config = Config(optimizing: int, segment: int)

  function Evaluate(cfg: Config, t: Table, here: int, e: Expr): Lookup {
    match e
    case Number(v) => Known(Address(NO_SEG, v))
    case Here(k) => Known(Address(cfg.segment, here + k))
    case Symbol(name, k) =>
      match Find(t, name)
      case Known(a) => Known(Address(a.segment, a.offset + k))
      case Unknown => Unknown
  }

  // ----- the choice of form -----

  datatype Form = ByteForm(bnd: bool) | NearForm(bnd: bool) | NoMatch

  /** The size calcsize reports for the byte template, with the prefixes as written. */
  function MeasuredSize(j: Jump): nat {
    (if j.bnd then 1 else 0) + |j.short| + 1
  }

  function Size(j: Jump, form: Form): nat {
    match form
    case ByteForm(bnd) => (if bnd then 1 else 0) + |j.short| + 1
    case NearForm(bnd) => (if bnd then 1 else 0) + |j.near| + j.width
    case NoMatch => 0
  }

  predicate IsByte(v: int) {
    -128 <= v <= 127
  }

  /** jmp_match: whether the byte template is taken. */
  function JmpMatch(cfg: Config, j: Jump, operand: Lookup, here: int): bool {
    if j.distance != Auto then false
    else if cfg.optimizing == 0 then false
    else if cfg.optimizing < 0 && j.plain then false
    else if operand.Unknown? then true
    else if operand.address.segment != cfg.segment then false
    else IsByte(operand.address.offset - here - MeasuredSize(j))
  }

  /** The template that find_match settles on, and whether the BND prefix is still there. */
  function FormOf(cfg: Config, j: Jump, operand: Lookup, here: int): Form {
    if j.distance == Short then
      if j.plain && j.bnd then NoMatch else ByteForm(j.bnd)
    else if JmpMatch(cfg, j, operand, here) then
      ByteForm(j.bnd && !(j.plain && operand.Known?))
    else NearForm(j.bnd)
  }

  /** The value that the displacement field is to hold: target minus end of instruction. */
  function Displacement(j: Jump, form: Form, target: int, here: int): int {
    target - (here + Size(j, form))
  }

  /**
    jmp_match measures the jump with its BND prefix, but the byte form of JMP drops it.  So
    the byte form it grants is in range in all cases but one: a BND JMP whose target is
    exactly 127 bytes past the measured end.
   */
  lemma GrantedByteFormInRangeIff(cfg: Config, j: Jump, a: Address, here: int)
    requires JmpMatch(cfg, j, Known(a), here)
    ensures IsByte(Displacement(j, FormOf(cfg, j, Known(a), here), a.offset, here))
       <==> !(j.plain && j.bnd && a.offset - here - MeasuredSize(j) == 127)
  {
  }

  // ----- encoding -----

  /** out_reladdr followed by out: raw bytes within the segment, a relocation outside it. */
  function RelField(cfg: Config, target: Address, end: int, n: nat): (r: seq<Cell>)
    ensures |r| == n
  {
    if target.segment == cfg.segment then Raws(WriteAddr(target.offset - end, n))
    else seq(n, i requires 0 <= i < n => Reloc(target, end, i))
  }

  function Opcode(j: Jump, form: Form): seq<int> {
    match form
    case ByteForm(bnd) => (if bnd then [0xF2] else []) + j.short
    case NearForm(bnd) => (if bnd then [0xF2] else []) + j.near
    case NoMatch => []
  }

  function FieldWidth(j: Jump, form: Form): nat {
    match form
    case ByteForm(_) => 1
    case NearForm(_) => j.width
    case NoMatch => 0
  }

  function Encode(cfg: Config, j: Jump, form: Form, target: Address, here: int): (r: seq<Cell>)
    ensures |r| == Size(j, form)
  {
    Raws(Opcode(j, form)) + RelField(cfg, target, here + Size(j, form), FieldWidth(j, form))
  }

  /** The diagnostics of emission: a byte displacement out of range, or no template. */
  predicate Complains(cfg: Config, j: Jump, form: Form, target: Address, here: int) {
    match form
    case ByteForm(_) => target.segment == cfg.segment && !IsByte(Displacement(j, form, target.offset, here))
    case NearForm(_) => false
    case NoMatch => true
  }

  // ----- one pass -----

  /** The first pass, a later sizing pass, the output pass. */
  datatype Mode = First | Again | Output

  /** What a pass carries from line to line.  `resegmented` counts the definitions that
      change a segment, which the program itself does not keep track of. */
  datatype State = State(table: Table, offset: int, changed: nat, resegmented: nat, code: seq<Cell>, errors: bool)

  function Define(mode: Mode, s: State, name: string, a: Address): State {
    if mode == First then s.(table := Defined(s.table, name, a), errors := s.errors || name in s.table)
    else s.(table := s.table[name := a],
            changed := s.changed + if Moves(s.table, name, a) then 1 else 0,
            resegmented := s.resegmented + if ChangesSegment(s.table, name, a) then 1 else 0)
  }

  /** An EQU whose value is not known yet becomes zero outside any segment. */
  function EquValue(r: Lookup): Address {
    match r
    case Known(a) => a
    case Unknown => Address(NO_SEG, 0)
  }

  /** One line of a pass. */
  function Step(cfg: Config, mode: Mode, it: Item, s: State): State {
    match it
    case Label(name) => Define(mode, s, name, Address(cfg.segment, s.offset))
    case Equ(name, e) =>
      // the output pass leaves ordinary EQUs alone
      if mode == Output then s else Define(mode, s, name, EquValue(Evaluate(cfg, s.table, s.offset, e)))
    case Data(b) => s.(offset := s.offset + |b|, code := if mode == Output then s.code + Raws(b) else s.code)
    case Branch(j) =>
      var operand := Evaluate(cfg, s.table, s.offset, j.target);
      var form := FormOf(cfg, j, operand, s.offset);
      if mode != Output then s.(offset := s.offset + Size(j, form))
      else if operand.Unknown? then s.(errors := true)
      else s.(offset := s.offset + Size(j, form),
              code := s.code + Encode(cfg, j, form, operand.address, s.offset),
              errors := s.errors || Complains(cfg, j, form, operand.address, s.offset))
  }

  function Pass(cfg: Config, mode: Mode, items: seq<Item>, t: Table): State {
    if |items| == 0 then State(t, 0, 0, 0, [], false)
    else Step(cfg, mode, items[|items| - 1], Pass(cfg, mode, items[..|items| - 1], t))
  }

  /** Where item `k` starts when sizes are chosen by a table that stays put. */
  function Start(cfg: Config, t: Table, items: seq<Item>, k: nat): int
    requires k <= |items|
  {
    if k == 0 then 0
    else Start(cfg, t, items, k - 1) + ItemSize(cfg, t, items[k - 1], Start(cfg, t, items, k - 1))
  }

  function ItemSize(cfg: Config, t: Table, it: Item, here: int): nat {
    match it
    case Data(b) => |b|
    case Branch(j) => Size(j, FormOf(cfg, j, Evaluate(cfg, t, here, j.target), here))
    case _ => 0
  }

  // ----- soundness at the fixpoint -----

  /** A pass in which no definition changed anything. */
  predicate Quiet(s: State) {
    s.changed == 0 && s.resegmented == 0
  }

  /** Every jump target has a definition in the table. */
  predicate Closed(items: seq<Item>, t: Table) {
    forall k :: 0 <= k < |items| && items[k].Branch? ==> Resolved(items[k].jump.target, t)
  }

  predicate Resolved(e: Expr, t: Table) {
    e.Symbol? ==> e.name in t
  }

  /** The table agrees with the layout that it induces. */
  ghost predicate Consistent(cfg: Config, items: seq<Item>, t: Table) {
    forall k :: 0 <= k < |items| && items[k].Label? ==>
      items[k].name in t && t[items[k].name] == Address(cfg.segment, Start(cfg, t, items, k))
  }

  lemma StartPrefix(cfg: Config, t: Table, items: seq<Item>, n: nat, k: nat)
    requires k <= n <= |items|
    ensures Start(cfg, t, items[..n], k) == Start(cfg, t, items, k)
  {
  }

  /** Every EQU of the program holds in the table, where it stands in the layout. */
  ghost predicate EqusHold(cfg: Config, items: seq<Item>, t: Table) {
    forall k :: 0 <= k < |items| && items[k].Equ? ==> EquHolds(cfg, items, t, k)
  }

  ghost predicate EquHolds(cfg: Config, items: seq<Item>, t: Table, k: nat)
    requires k < |items| && items[k].Equ?
  {
    items[k].name in t
    && t[items[k].name] == EquValue(Evaluate(cfg, t, Start(cfg, t, items, k), items[k].value))
  }

  /** A sizing pass is quiet exactly over the tables that agree with every definition. */
  lemma {:induction false} QuietPassIff(cfg: Config, items: seq<Item>, t: Table)
    ensures Quiet(Pass(cfg, Again, items, t)) <==> Consistent(cfg, items, t) && EqusHold(cfg, items, t)
    ensures Quiet(Pass(cfg, Again, items, t)) ==>
              Pass(cfg, Again, items, t).table == t
              && Pass(cfg, Again, items, t).offset == Start(cfg, t, items, |items|)
  {
    hide Evaluate, FormOf, Size;
    if |items| > 0 {
      var n := |items| - 1;
      var front := items[..n];
      var s := Pass(cfg, Again, front, t);
      QuietPassIff(cfg, front, t);
      forall k | 0 <= k <= n
        ensures Start(cfg, t, front, k) == Start(cfg, t, items, k)
      {
        StartPrefix(cfg, t, items, n, k);
      }
      DefinitionsStep(cfg, items, t);
      match items[n] {
        case Label(name) =>
          if Quiet(s) && !Moves(t, name, Address(cfg.segment, s.offset)) {
            if !ChangesSegment(t, name, Address(cfg.segment, s.offset)) {
              QuietRedefinition(t, name, Address(cfg.segment, s.offset));
            }
          }
        case Equ(name, e) =>
          var a := EquValue(Evaluate(cfg, t, s.offset, e));
          if Quiet(s) && !Moves(t, name, a) && !ChangesSegment(t, name, a) {
            QuietRedefinition(t, name, a);
          }
        case _ =>
      }
    }
  }

  /** Agreement with all definitions is agreement with those of the front and with the last. */
  lemma DefinitionsStep(cfg: Config, items: seq<Item>, t: Table)
    requires |items| > 0
    requires forall k :: 0 <= k < |items| ==>
               Start(cfg, t, items[..|items| - 1], k) == Start(cfg, t, items, k)
    ensures var n := |items| - 1;
            && (Consistent(cfg, items, t) <==>
                  Consistent(cfg, items[..n], t)
                  && (items[n].Label? ==>
                        items[n].name in t && t[items[n].name] == Address(cfg.segment, Start(cfg, t, items, n))))
            && (EqusHold(cfg, items, t) <==>
                  EqusHold(cfg, items[..n], t) && (items[n].Equ? ==> EquHolds(cfg, items, t, n)))
  {
    hide Start, Evaluate;
    var n, front := |items| - 1, items[..|items| - 1];
    assert forall k :: 0 <= k < n ==> front[k] == items[k];
    if Consistent(cfg, items, t) {
      forall k | 0 <= k < n && front[k].Label?
        ensures front[k].name in t && t[front[k].name] == Address(cfg.segment, Start(cfg, t, front, k))
      {
        assert items[k].Label?;
      }
    }
    if EqusHold(cfg, items, t) {
      forall k | 0 <= k < n && front[k].Equ?
        ensures EquHolds(cfg, front, t, k)
      {
        assert EquHolds(cfg, items, t, k);
      }
    }
    if EqusHold(cfg, front, t) && (items[n].Equ? ==> EquHolds(cfg, items, t, n)) {
      forall k | 0 <= k < |items| && items[k].Equ?
        ensures EquHolds(cfg, items, t, k)
      {
        assert k < n ==> EquHolds(cfg, front, t, k);
      }
    }
  }

  /** What the output holds for one item. */
  function Emitted(cfg: Config, t: Table, it: Item, here: int): (r: seq<Cell>)
    requires it.Branch? ==> Resolved(it.jump.target, t)
    ensures |r| == ItemSize(cfg, t, it, here)
  {
    match it
    case Data(b) => Raws(b)
    case Branch(j) =>
      var operand := Evaluate(cfg, t, here, j.target);
      Encode(cfg, j, FormOf(cfg, j, operand, here), operand.address, here)
    case _ => []
  }

  predicate Faulty(cfg: Config, t: Table, it: Item, here: int)
    requires it.Branch? ==> Resolved(it.jump.target, t)
  {
    match it
    case Branch(j) =>
      var operand := Evaluate(cfg, t, here, j.target);
      Complains(cfg, j, FormOf(cfg, j, operand, here), operand.address, here)
    case _ => false
  }

  ghost predicate LaidOut(cfg: Config, items: seq<Item>, t: Table, code: seq<Cell>)
    requires Closed(items, t)
  {
    && |code| == Start(cfg, t, items, |items|)
    && forall k :: 0 <= k < |items| ==> Slice(cfg, items, t, code, k)
  }

  ghost predicate Slice(cfg: Config, items: seq<Item>, t: Table, code: seq<Cell>, k: nat)
    requires k < |items| && Closed(items, t)
  {
    var here := Start(cfg, t, items, k);
    && 0 <= here <= here + ItemSize(cfg, t, items[k], here) <= |code|
    && code[here..here + ItemSize(cfg, t, items[k], here)] == Emitted(cfg, t, items[k], here)
  }

  /** Some line of the layout of `t` draws a complaint. */
  ghost predicate SomeFault(cfg: Config, items: seq<Item>, t: Table)
    requires Closed(items, t)
  {
    exists k :: 0 <= k < |items| && Faulty(cfg, t, items[k], Start(cfg, t, items, k))
  }

  /** The output pass over a consistent table changes no label and writes the layout. */
  lemma {:induction false} OutputPass(cfg: Config, items: seq<Item>, t: Table)
    requires Consistent(cfg, items, t) && Closed(items, t)
    ensures var s := Pass(cfg, Output, items, t);
            && s.table == t && Quiet(s)
            && s.offset == Start(cfg, t, items, |items|)
            && LaidOut(cfg, items, t, s.code)
            && (s.errors <==> SomeFault(cfg, items, t))
  {
    hide Evaluate, FormOf, Encode, Size, Complains, LaidOut, SomeFault, Start, Step, Emitted, Faulty, ItemSize;
    if |items| > 0 {
      var n := |items| - 1;
      var front, here := items[..n], Start(cfg, t, items, n);
      forall k | 0 <= k <= n
        ensures Start(cfg, t, front, k) == Start(cfg, t, items, k)
      {
        StartPrefix(cfg, t, items, n, k);
      }
      assert forall k :: 0 <= k < n ==> front[k] == items[k];
      OutputPass(cfg, front, t);
      var s0 := Pass(cfg, Output, front, t);
      OutputStep(cfg, items[n], s0);
      StartStep(cfg, t, items, n);
      LaidOutStep(cfg, items, t, s0.code);
      FaultStep(cfg, items, t);
    } else {
      EmptyLayout(cfg, t);
    }
  }

  lemma StartStep(cfg: Config, t: Table, items: seq<Item>, n: nat)
    requires n < |items|
    ensures Start(cfg, t, items, n + 1) == Start(cfg, t, items, n) + ItemSize(cfg, t, items[n], Start(cfg, t, items, n))
  {
  }

  lemma EmptyLayout(cfg: Config, t: Table)
    ensures LaidOut(cfg, [], t, []) && !SomeFault(cfg, [], t) && Start(cfg, t, [], 0) == 0
  {
  }

  lemma FaultStep(cfg: Config, items: seq<Item>, t: Table)
    requires |items| > 0 && Closed(items, t)
    requires forall k :: 0 <= k < |items| ==>
               Start(cfg, t, items[..|items| - 1], k) == Start(cfg, t, items, k)
    ensures SomeFault(cfg, items, t) <==>
              (SomeFault(cfg, items[..|items| - 1], t)
               || Faulty(cfg, t, items[|items| - 1], Start(cfg, t, items, |items| - 1)))
  {
    hide Faulty, Start;
    var n, front := |items| - 1, items[..|items| - 1];
    if k :| 0 <= k < |items| && Faulty(cfg, t, items[k], Start(cfg, t, items, k)) {
      assert k < n ==> Faulty(cfg, t, front[k], Start(cfg, t, front, k));
    }
    if k :| 0 <= k < n && Faulty(cfg, t, front[k], Start(cfg, t, front, k)) {
      assert Faulty(cfg, t, items[k], Start(cfg, t, items, k));
    }
  }

  lemma LaidOutStep(cfg: Config, items: seq<Item>, t: Table, code0: seq<Cell>)
    requires |items| > 0 && Closed(items, t)
    requires forall k :: 0 <= k < |items| ==>
               Start(cfg, t, items[..|items| - 1], k) == Start(cfg, t, items, k)
    requires LaidOut(cfg, items[..|items| - 1], t, code0)
    ensures LaidOut(cfg, items, t,
                    code0 + Emitted(cfg, t, items[|items| - 1], Start(cfg, t, items, |items| - 1)))
  {
    hide Emitted, ItemSize, Start;
    var n, front := |items| - 1, items[..|items| - 1];
    var here := Start(cfg, t, items, n);
    var code := code0 + Emitted(cfg, t, items[n], here);
    StartStep(cfg, t, items, n);
    forall k | 0 <= k < |items|
      ensures Slice(cfg, items, t, code, k)
    {
      if k < n {
        assert Slice(cfg, front, t, code0, k);
        ExtendSlice(code0, Emitted(cfg, t, items[n], here), Start(cfg, t, items, k),
                    Start(cfg, t, items, k) + ItemSize(cfg, t, items[k], Start(cfg, t, items, k)));
      } else {
        assert code[|code0|..] == Emitted(cfg, t, items[n], here);
      }
    }
  }

  lemma ExtendSlice<T>(a: seq<T>, b: seq<T>, i: int, j: int)
    requires 0 <= i <= j <= |a|
    ensures (a + b)[i..j] == a[i..j]
  {
  }

  /** One line of the output pass, when the table already holds what the line defines. */
  lemma OutputStep(cfg: Config, it: Item, s0: State)
    requires it.Label? ==> it.name in s0.table && s0.table[it.name] == Address(cfg.segment, s0.offset)
    requires it.Branch? ==> Resolved(it.jump.target, s0.table)
    ensures var s := Step(cfg, Output, it, s0);
            && s.table == s0.table && s.changed == s0.changed && s.resegmented == s0.resegmented
            && s.offset == s0.offset + ItemSize(cfg, s0.table, it, s0.offset)
            && s.code == s0.code + Emitted(cfg, s0.table, it, s0.offset)
            && (s.errors <==> s0.errors || Faulty(cfg, s0.table, it, s0.offset))
  {
    hide FormOf, Encode, Size, Complains;
    match it {
      case Label(name) => QuietRedefinition(s0.table, name, Address(cfg.segment, s0.offset));
      case _ =>
    }
  }

  // ----- what the bytes of a jump mean to the processor -----

  /** A byte displacement is sign-extended (section 3.2 of the Intel SDM, volume 2A, JMP). */
  function SignExtendByte(b: int): int {
    if b >= 128 then b - 256 else b
  }

  /** The address a processor jumps to from the emitted cells, if they are plain bytes. */
  ghost predicate GoesTo(j: Jump, form: Form, cells: seq<Cell>, end: int, target: int)
    requires |cells| == Size(j, form)
  {
    var w := FieldWidth(j, form);
    var field := cells[|cells| - w..];
    exists b: seq<int> :: |b| == w && field == Raws(b) && (forall i :: 0 <= i < w ==> 0 <= b[i] < 256)
      && if form.ByteForm? then end + SignExtendByte(b[0]) == target
         else (end + LittleEndian(b)) % Power256(w) == target % Power256(w)
  }

  lemma FieldBytes(cfg: Config, j: Jump, form: Form, target: Address, here: int)
    requires target.segment == cfg.segment
    ensures FieldWidth(j, form) <= Size(j, form)
    ensures var end, w := here + Size(j, form), FieldWidth(j, form);
            Encode(cfg, j, form, target, here)[Size(j, form) - w..] == Raws(WriteAddr(target.offset - end, w))
  {
    hide Raws, WriteAddr;
  }

  /** What the processor reads out of the field takes it to the target. */
  lemma FieldReaches(cfg: Config, j: Jump, form: Form, target: Address, here: int)
    requires target.segment == cfg.segment && !Complains(cfg, j, form, target, here)
    ensures var end, w := here + Size(j, form), FieldWidth(j, form);
            var b := WriteAddr(target.offset - end, w);
            && |b| == w && (forall i :: 0 <= i < w ==> 0 <= b[i] < 256)
            && if form.ByteForm? then w == 1 && end + SignExtendByte(b[0]) == target.offset
               else (end + LittleEndian(b)) % Power256(w) == target.offset % Power256(w)
  {
    hide WriteAddr, LittleEndian, Power256, Size;
    var end, w := here + Size(j, form), FieldWidth(j, form);
    var v := target.offset - end;
    WriteAddrValue(v, w);
    match form {
      case ByteForm(_) => LowByte(v);
      case NearForm(_) => ModSum(end, v, Power256(w));
      case NoMatch =>
    }
  }

  lemma GoesToWitness(j: Jump, form: Form, cells: seq<Cell>, end: int, target: int, b: seq<int>)
    requires |cells| == Size(j, form) && FieldWidth(j, form) <= |cells|
    requires cells[|cells| - FieldWidth(j, form)..] == Raws(b)
    requires |b| == FieldWidth(j, form) && (forall i :: 0 <= i < |b| ==> 0 <= b[i] < 256)
    requires if form.ByteForm? then |b| == 1 && end + SignExtendByte(b[0]) == target
             else (end + LittleEndian(b)) % Power256(|b|) == target % Power256(|b|)
    ensures GoesTo(j, form, cells, end, target)
  {
    hide Raws, LittleEndian, Power256, Size, FieldWidth, SignExtendByte;
  }

  /** The displacement plus the end of the instruction is the target, in every form that
      is emitted without a complaint. */
  lemma JumpGoesToTarget(cfg: Config, j: Jump, form: Form, target: Address, here: int)
    requires target.segment == cfg.segment && !Complains(cfg, j, form, target, here)
    ensures GoesTo(j, form, Encode(cfg, j, form, target, here), here + Size(j, form), target.offset)
  {
    hide Encode, Raws, WriteAddr, LittleEndian, Power256, Size, FieldWidth, GoesTo, Complains, SignExtendByte;
    var end, w := here + Size(j, form), FieldWidth(j, form);
    var b := WriteAddr(target.offset - end, w);
    FieldBytes(cfg, j, form, target, here);
    FieldReaches(cfg, j, form, target, here);
    GoesToWitness(j, form, Encode(cfg, j, form, target, here), end, target.offset, b);
  }

  lemma LowByte(v: int)
    ensures WriteAddr(v, 1)[0] == v % 256
    ensures IsByte(v) ==> SignExtendByte(v % 256) == v
  {
  }

  lemma ModSum(a: int, b: int, d: nat)
    requires d > 0
    ensures (a + b % d) % d == (a + b) % d
  {
    var x := a + b % d;
    assert b == (b / d) * d + b % d;
    assert a + b == (b / d + x / d) * d + x % d by {
      assert x == (x / d) * d + x % d;
      assert (b / d + x / d) * d == (b / d) * d + (x / d) * d;
    }
    DivModUnique(a + b, d, b / d + x / d, x % d);
  }

  /** A relocated field leaves every byte to the back end, with the right base. */
  lemma OtherSegmentIsRelocated(cfg: Config, j: Jump, form: Form, target: Address, here: int)
    requires target.segment != cfg.segment
    ensures var cells, w, end := Encode(cfg, j, form, target, here), FieldWidth(j, form), here + Size(j, form);
            |cells| >= w && forall i :: 0 <= i < w ==> cells[|cells| - w + i] == Reloc(target, end, i)
  {
  }

  /** The assembled program, as a reader of the source understands it. */
  ghost predicate Sound(cfg: Config, items: seq<Item>, t: Table, code: seq<Cell>)
    requires Closed(items, t)
  {
    && Consistent(cfg, items, t)
    && LaidOut(cfg, items, t, code)
    && forall k :: 0 <= k < |items| && items[k].Branch? ==> JumpSound(cfg, items, t, code, k)
  }

  /** The cells of jump `k` take the processor to the target's address. */
  ghost predicate JumpSound(cfg: Config, items: seq<Item>, t: Table, code: seq<Cell>, k: nat)
    requires k < |items| && items[k].Branch? && Closed(items, t) && Slice(cfg, items, t, code, k)
  {
    var here := Start(cfg, t, items, k);
    var j := items[k].jump;
    var a := Evaluate(cfg, t, here, j.target).address;
    var form := FormOf(cfg, j, Known(a), here);
    && (a.segment == cfg.segment ==>
          GoesTo(j, form, code[here..here + Size(j, form)], here + Size(j, form), a.offset))
    && (a.segment == cfg.segment && form.ByteForm? ==> IsByte(Displacement(j, form, a.offset, here)))
  }

  /** Over a table that agrees with its layout, an output pass without an error is sound. */
  lemma ConsistentIsSound(cfg: Config, items: seq<Item>, t: Table)
    requires Consistent(cfg, items, t) && Closed(items, t)
    ensures var s := Pass(cfg, Output, items, t);
            && s.table == t && s.changed == 0
            && s.offset == Start(cfg, t, items, |items|) == |s.code|
            && (!s.errors ==> Sound(cfg, items, t, s.code))
            && (s.errors <==> SomeFault(cfg, items, t))
  {
    hide Evaluate, FormOf, Encode, Size, Complains, GoesTo, Pass;
    OutputPass(cfg, items, t);
    var s := Pass(cfg, Output, items, t);
    if !s.errors {
      forall k | 0 <= k < |items| && items[k].Branch?
        ensures JumpSound(cfg, items, t, s.code, k)
      {
        CleanJumpSound(cfg, items, t, s.code, k);
      }
    }
  }

  /**
    Relaxation is sound at its fixpoint: after a quiet sizing pass every later sizing pass
    repeats it, the output pass changes no label, and if it reports no error then every
    jump it wrote leads to its target.
   */
  lemma FixpointIsSound(cfg: Config, items: seq<Item>, t: Table)
    requires Quiet(Pass(cfg, Again, items, t)) && Closed(items, t)
    ensures Pass(cfg, Again, items, Pass(cfg, Again, items, t).table) == Pass(cfg, Again, items, t)
    ensures EqusHold(cfg, items, t)
    ensures var s := Pass(cfg, Output, items, t);
            && s.table == t && s.changed == 0
            && s.offset == Pass(cfg, Again, items, t).offset == |s.code|
            && (!s.errors ==> Sound(cfg, items, t, s.code))
            && (s.errors <==> SomeFault(cfg, items, t))
  {
    hide Pass, Sound, SomeFault, EqusHold, Consistent, Closed;
    QuietPassIff(cfg, items, t);
    ConsistentIsSound(cfg, items, t);
  }

  /** Every label is in the table already, in the segment being assembled. */
  ghost predicate Placed(cfg: Config, items: seq<Item>, t: Table) {
    forall k :: 0 <= k < |items| && items[k].Label? ==>
      items[k].name in t && t[items[k].name].segment == cfg.segment
  }

  /** A line of the output pass that moves no label finds its definition in the table. */
  lemma StillStep(cfg: Config, it: Item, s0: State)
    requires Step(cfg, Output, it, s0).changed == 0
    ensures s0.changed == 0 && (s0.errors ==> Step(cfg, Output, it, s0).errors)
    ensures it.Label? && it.name in s0.table && s0.table[it.name].segment == cfg.segment ==>
              s0.table[it.name] == Address(cfg.segment, s0.offset)
    ensures it.Branch? && !Step(cfg, Output, it, s0).errors ==> Resolved(it.jump.target, s0.table)
  {
    hide FormOf, Encode, Size, Complains;
  }

  /** An output pass that moves no label walks the layout, and the table agrees with it. */
  lemma {:induction false} StillOutputPass(cfg: Config, items: seq<Item>, t: Table)
    requires Placed(cfg, items, t) && Pass(cfg, Output, items, t).changed == 0
    requires Closed(items, t) || !Pass(cfg, Output, items, t).errors
    ensures Pass(cfg, Output, items, t).table == t
    ensures Pass(cfg, Output, items, t).offset == Start(cfg, t, items, |items|)
    ensures Closed(items, t) && Consistent(cfg, items, t)
  {
    hide Step, Resolved, ItemSize, Emitted, Faulty;
    if |items| > 0 {
      var n := |items| - 1;
      var front := items[..n];
      assert forall k :: 0 <= k < n ==> front[k] == items[k];
      var s := Pass(cfg, Output, front, t);
      StillStep(cfg, items[n], s);
      StillOutputPass(cfg, front, t);
      OutputStep(cfg, items[n], s);
      forall k | 0 <= k <= n
        ensures Start(cfg, t, front, k) == Start(cfg, t, items, k)
      {
        StartPrefix(cfg, t, items, n, k);
      }
      DefinitionsStep(cfg, items, t);
    }
  }

  /** The output pass complains about every jump whose target has no definition. */
  lemma {:induction false} CleanOutputResolves(cfg: Config, items: seq<Item>, t: Table)
    requires Placed(cfg, items, t)
    ensures !Pass(cfg, Output, items, t).errors ==> Closed(items, t)
    ensures Pass(cfg, Output, items, t).table.Keys == t.Keys
  {
    hide FormOf, Encode, Size, Complains;
    if |items| > 0 {
      var front := items[..|items| - 1];
      assert forall k :: 0 <= k < |front| ==> front[k] == items[k];
      CleanOutputResolves(cfg, front, t);
    }
  }

  /**
    When the output pass moves no label, whatever passes came before: exactly when the table
    it starts from agrees with the layout that this table induces.
   */
  lemma OutputStillIff(cfg: Config, items: seq<Item>, t: Table)
    requires Placed(cfg, items, t) && Closed(items, t)
    ensures Pass(cfg, Output, items, t).changed == 0 <==> Consistent(cfg, items, t)
  {
    hide Pass, Placed, Closed, Consistent;
    if Pass(cfg, Output, items, t).changed == 0 {
      StillOutputPass(cfg, items, t);
    }
    if Consistent(cfg, items, t) {
      OutputPass(cfg, items, t);
    }
  }

  /** When the output pass neither moves a label nor complains. */
  lemma CleanOutputIff(cfg: Config, items: seq<Item>, t: Table)
    requires Placed(cfg, items, t)
    ensures var s := Pass(cfg, Output, items, t);
            s.changed == 0 && !s.errors <==>
              Closed(items, t) && Consistent(cfg, items, t) && !SomeFault(cfg, items, t)
  {
    hide Pass, Placed, Consistent, SomeFault, Closed;
    var s := Pass(cfg, Output, items, t);
    if s.changed == 0 && !s.errors {
      StillOutputPass(cfg, items, t);
      OutputPass(cfg, items, t);
    }
    if Closed(items, t) && Consistent(cfg, items, t) && !SomeFault(cfg, items, t) {
      OutputPass(cfg, items, t);
    }
  }

  lemma CleanJumpSound(cfg: Config, items: seq<Item>, t: Table, code: seq<Cell>, k: nat)
    requires k < |items| && items[k].Branch? && Closed(items, t)
    requires Slice(cfg, items, t, code, k) && !Faulty(cfg, t, items[k], Start(cfg, t, items, k))
    ensures JumpSound(cfg, items, t, code, k)
  {
    hide FormOf, Encode, Size, GoesTo;
    var here, j := Start(cfg, t, items, k), items[k].jump;
    var a := Evaluate(cfg, t, here, j.target).address;
    assert Evaluate(cfg, t, here, j.target) == Known(a);
    if a.segment == cfg.segment {
      JumpGoesToTarget(cfg, j, FormOf(cfg, j, Known(a), here), a, here);
    }
  }
}
