/** calcsize and gencode of assemble.c as functions of a template's codes. */
module Encode {
  import opened Wrappers
  import opened Labels
  import opened Output
  import opened Bytecode
  import Bits

  // ----- what an instruction carries -----

  /** The REX bits of `ins->rex`, and the flags kept beside them. */
  datatype Rex = Rex(w: bool, r: bool, x: bool, b: bool, p: bool, l: bool, h: bool, v: bool, nh: bool, ev: bool)
  {
    function Or(o: Rex): Rex {
      Rex(w || o.w, r || o.r, x || o.x, b || o.b, p || o.p, l || o.l, h || o.h, v || o.v, nh || o.nh, ev || o.ev)
    }

    /** REX_MASK: a bit of the prefix byte itself. */
    predicate Mask() {
      w || r || x || b || p
    }

    predicate Vector() {
      v || ev
    }
  }

  const NO_REX := Rex(false, false, false, false, false, false, false, false, false, false)

  datatype Prefix =
    | Empty | WaitPrefix | Lock | Repne | Bnd | Xacquire | Rep | Xrelease
    | Cs | Ds | Es | Fs | Gs | Ss | BadSegment
    | A16 | A32 | A64 | Asp | O16 | O32 | O64 | Osp | ForceEvex | Vex3 | Vex2 | NoBnd

  const WAIT := 0
  const REP := 1
  const OSIZE := 4
  const ASIZE := 5
  const VEX := 6

  type Prefixes = s: seq<Prefix> | |s| == 7 witness [Empty, Empty, Empty, Empty, Empty, Empty, Empty]

  datatype Register = Register(value: int, wide: bool, high: bool, low8: bool)

  datatype Operand = Operand(register: Register, bits16: bool, bits32: bool, bits64: bool,
                             segment: int, offset: int, wrt: bool, relative: bool, forward: bool)
  {
    predicate Absolute() {
      segment == NO_SEG && !wrt && !relative
    }
  }

  datatype Displacement = NoDisplacement | Compressed(byte: int) | RipRelative(size: nat) | Plain(size: nat)

  /** What process_ea delivers: kind 0 is scalar, 1 to 3 are vector index forms. */
  datatype Ea = Ea(kind: nat, rex: Rex, high16: bool, modrm: int, sib: Option<int>, disp: Displacement)
  {
    function Width(): nat {
      match disp
      case NoDisplacement => 0
      case Compressed(_) => 1
      case RipRelative(n) => n
      case Plain(n) => n
    }

    /** `output->size` */
    function Size(): nat {
      1 + (if sib.Some? then 1 else 0) + Width()
    }
  }

  /** The fixed part of an instruction and of its surroundings.  `ea` stands for process_ea:
      what it delivers for a ModRM code, given whether the instruction is an EVEX one. */
  datatype Instruction = Instruction(
    bits: int, cpu64: bool, bndDefault: bool, segment: int,
    operands: seq<Operand>, addressSize: nat, condition: int, ea: (Code, bool) -> Ea)
  {
    function Op(k: nat): Operand {
      if k < |operands| then operands[k]
      else Operand(Register(0, false, false, false), false, false, false, NO_SEG, 0, false, false, false)
    }
  }

  /** The fields of the instruction that the two interpreters update. */
  datatype Work = Work(rex: Rex, prefixes: Prefixes, vexreg: int, cm: int, wlp: int, high16: bool, kind: nat)

  // ----- rules both interpreters share -----

  /** rexflags with the mask B, H, P, W. */
  function RegisterRex(r: Register): Rex {
    NO_REX.(b := r.value >= 0 && r.value / 8 % 2 == 1, w := r.wide, h := r.high,
            p := !r.high && r.low8 && r.value >= 4)
  }

  /** emit_prefix, one position. */
  function PrefixByte(bits: int, p: Prefix): Option<int> {
    match p
    case WaitPrefix => Some(0x9B)
    case Lock => Some(0xF0)
    case Repne => Some(0xF2)
    case Bnd => Some(0xF2)
    case Xacquire => Some(0xF2)
    case Rep => Some(0xF3)
    case Xrelease => Some(0xF3)
    case Cs => Some(0x2E)
    case Ds => Some(0x3E)
    case Es => Some(0x26)
    case Fs => Some(0x64)
    case Gs => Some(0x65)
    case Ss => Some(0x36)
    case A16 => if bits != 64 && bits != 16 then Some(0x67) else None
    case A32 => if bits != 32 then Some(0x67) else None
    case Asp => Some(0x67)
    case O16 => if bits != 16 then Some(0x66) else None
    case O32 => if bits == 16 then Some(0x66) else None
    case Osp => Some(0x66)
    case _ => None
  }

  function PrefixBytes(bits: int, p: seq<Prefix>): seq<int> {
    if |p| == 0 then []
    else
      var b := PrefixByte(bits, p[|p| - 1]);
      PrefixBytes(bits, p[..|p| - 1]) + if b.Some? then [b.value] else []
  }

  /** The size of a \34 or \64 operand as calcsize has it. */
  function WordSize(i: Instruction, o: Operand): nat {
    if o.bits16 || o.bits32 || o.bits64 then (if o.bits16 then 2 else 4) else if i.bits == 16 then 2 else 4
  }

  /** The length of a VEX or XOP prefix. */
  function VexLength(w: Work): nat {
    if w.cm != 1 || w.rex.w || w.rex.x || w.rex.b || w.prefixes[VEX] == Vex3 then 3 else 2
  }

  // ----- calcsize -----

  datatype Sizing = Sizing(work: Work, length: int, keepW: bool, ok: bool)

  function Start(p: Prefixes): Sizing {
    Sizing(Work(NO_REX.(w := p[OSIZE] == O64), p, 0, 0, 0, false, 0), 0, true, true)
  }

  function Grow(s: Sizing, n: int): Sizing {
    s.(length := s.length + n)
  }

  function WithRex(s: Sizing, r: Rex): Sizing {
    s.(work := s.work.(rex := s.work.rex.Or(r)))
  }

  function Fill(s: Sizing, at: nat, p: Prefix): Sizing
    requires at < 7
  {
    if s.work.prefixes[at] == Empty then s.(work := s.work.(prefixes := s.work.prefixes[at := p])) else s
  }

  function SourceRegister(i: Instruction, source: Option<nat>): int {
    match source
    case None => 0
    case Some(op) => i.Op(op).register.value
  }

  function SizeStep(i: Instruction, s: Sizing, c: Code): Sizing {
    if !s.ok then s
    else
      match c
      case PlusRegister(op, _) => Grow(WithRex(s, RegisterRex(i.Op(op).register)), 1)
      case ModRM(_, _) =>
        var ea := i.ea(c, s.work.rex.ev);
        if ea.kind != s.work.kind then s.(ok := false)
        else
          var t := Grow(WithRex(s, ea.rex), ea.Size());
          t.(work := t.work.(high16 := t.work.high16 || ea.high16))
      case Evex(source, cm, wlp, _) =>
        WithRex(s.(work := s.work.(vexreg := SourceRegister(i, source), cm := cm, wlp := wlp)), NO_REX.(ev := true))
      case Vex(source, cm, wlp) =>
        WithRex(s.(work := s.work.(vexreg := SourceRegister(i, source), cm := cm, wlp := wlp)), NO_REX.(v := true))
      case Address16 =>
        if i.bits == 64 then s.(ok := false)
        else Grow(s, if i.bits != 16 && s.work.prefixes[ASIZE] != A16 then 1 else 0)
      case Address32 => Grow(s, if i.bits != 32 && s.work.prefixes[ASIZE] != A32 then 1 else 0)
      case Address64 => s.(ok := i.bits == 64 && s.work.prefixes[ASIZE] != A16 && s.work.prefixes[ASIZE] != A32)
      case Operand16 => Fill(s, OSIZE, O16)
      case Operand32 => Fill(s, OSIZE, O32)
      case NoRexW => s.(keepW := false)
      case WithRexW => WithRex(s, NO_REX.(w := true))
      case NoHigh => WithRex(s, NO_REX.(nh := true))
      case LockAsRexR => WithRex(s, NO_REX.(l := true))
      case MustRep => Fill(s, REP, Rep)
      case MustRepne => Fill(s, REP, Repne)
      case Wait => Fill(s, WAIT, WaitPrefix)
      case Vsib(kind) => s.(work := s.work.(kind := kind + 1))
      case _ => Grow(s, FixedSize(i, c))
  }

  /** The codes whose size depends on the operands alone. */
  function FixedSize(i: Instruction, c: Code): int {
    match c
    case Literal(b) => |b|
    case PlusRegister(_, _) => 1
    case PlusCondition(_) => 1
    case Immediate(_, n, _) => n
    case ByWord(op) => WordSize(i, i.Op(op))
    case ByAddressSize(_) => i.addressSize / 8
    case SignedByte(_) => 1
    case Relative(_, n) => n
    case RelativeByWord(op) => WordSize(i, i.Op(op))
    case SegmentOf(_) => 2
    case Is4(_, _) => 1
    case Byte(_) => 1
    case Reserve => if i.Op(0).Absolute() && !i.Op(0).forward then i.Op(0).offset else 0
    case LongJumpOver => 1
    case _ => 0
  }

  function SizeCodes(i: Instruction, s: Sizing, codes: seq<Code>): Sizing
    decreases |codes|
  {
    if |codes| == 0 then s else SizeCodes(i, SizeStep(i, s, codes[0]), codes[1..])
  }

  /** The checks and the prefix lengths after the loop. */
  function Finish(i: Instruction, s: Sizing): Sizing {
    if !s.ok then s
    else
      var t := Settle(s);
      if !t.ok then t
      else if t.work.rex.Vector() then FinishVector(i, t)
      else FinishRex(i, t)
  }

  /** Masks REX.W, settles high registers, and checks a required vector prefix. */
  function Settle(s: Sizing): Sizing {
    var rex := s.work.rex.(w := s.work.rex.w && s.keepW);
    if rex.nh && rex.h then s.(ok := false)
    else
      var rex1 := rex.(p := rex.p && !rex.nh);
      var vex := s.work.prefixes[VEX];
      s.(work := s.work.(rex := rex1),
         ok := s.ok && (vex == ForceEvex ==> rex1.ev) && (vex == Vex3 || vex == Vex2 ==> rex1.v))
  }

  function FinishRex(i: Instruction, t: Sizing): Sizing {
    var rex := t.work.rex;
    if !rex.Mask() then FinishPrefixes(i, t)
    else if rex.h then t.(ok := false)
    else if i.bits == 64 || (rex.l && !(rex.p || rex.w || rex.x || rex.b) && i.cpu64) then FinishPrefixes(i, Grow(t, 1))
    else t.(ok := false)
  }

  /** The W bit that the introducer's W field asks for. */
  function VectorRex(w: Work): Rex {
    var field := w.wlp / 16 % 4;
    if field == 0 || field == 2 then w.rex.(w := false) else if field == 1 then w.rex.(w := true) else w.rex
  }

  /** What the operands and the mode must satisfy, with W settled. */
  predicate VectorFits(i: Instruction, w: Work) {
    && !w.rex.h
    && (i.bits != 64 ==> !w.rex.r && !w.rex.x && !w.rex.b && (w.rex.w ==> w.wlp / 16 % 4 == 1) && w.vexreg <= 7)
    && (!w.rex.ev ==> w.vexreg <= 15 && !w.high16)
  }

  function FinishVector(i: Instruction, s: Sizing): Sizing {
    var t := s.(work := s.work.(rex := VectorRex(s.work)));
    if !VectorFits(i, t.work) then s.(ok := false)
    else FinishPrefixes(i, Grow(t, Announced(t.work)))
  }

  /** The vector prefix that calcsize counts. */
  function Announced(w: Work): nat {
    if w.rex.ev then 4 else if w.rex.v then VexLength(w) else 0
  }

  function FinishPrefixes(i: Instruction, s: Sizing): Sizing {
    var p := if i.bndDefault && s.work.prefixes[REP] != NoBnd then s.work.prefixes[REP := Bnd] else s.work.prefixes;
    Grow(s.(work := s.work.(prefixes := p)), |PrefixBytes(i.bits, p)|)
  }

  /** calcsize: the length, and the instruction as gencode will find it. */
  function Calcsize(i: Instruction, p: Prefixes, codes: seq<Code>): Sizing {
    Finish(i, SizeCodes(i, Start(p), codes))
  }

  // ----- gencode -----

  datatype Gen = Gen(work: Work, rexDone: bool, out: seq<Cell>)

  /** Where the instruction starts, and the length that was announced. */
  datatype Place = Place(start: int, length: int)

  function RexByte(r: Rex): int {
    0x40 + (if r.w then 8 else 0) + (if r.r then 4 else 0) + (if r.x then 2 else 0) + if r.b then 1 else 0
  }

  predicate RexPending(i: Instruction, g: Gen) {
    i.bits == 64 && g.work.rex.Mask() && !g.work.rex.Vector() && !g.rexDone
  }

  function EmitRex(i: Instruction, g: Gen): Gen {
    if RexPending(i, g) then g.(rexDone := true, out := g.out + [Raw(RexByte(g.work.rex))]) else g
  }

  function Emit(g: Gen, c: seq<Cell>): Gen {
    g.(out := g.out + c)
  }

  function Relocs(target: Address, base: int, n: nat): (r: seq<Cell>)
    ensures |r| == n
  {
    seq(n, k requires 0 <= k < n => Reloc(target, base, k))
  }

  /** out_imm: an absolute number is written, anything else is left to the back end. */
  function ImmediateField(i: Instruction, o: Operand, n: nat): (r: seq<Cell>)
    ensures |r| == n
  {
    if o.segment == (if o.relative then i.segment else NO_SEG) && !o.wrt then Raws(WriteAddr(o.offset, n))
    else Relocs(Address(o.segment, o.offset), 0, n)
  }

  /** out_reladdr: the distance from the end of the instruction, when it is known. */
  function RelativeField(i: Instruction, o: Operand, n: nat, end: int): (r: seq<Cell>)
    ensures |r| == n
  {
    if o.segment == i.segment && !o.wrt then Raws(WriteAddr(o.offset - end, n))
    else Relocs(Address(o.segment, o.offset), end, n)
  }

  /** gencode forgets operands that are only 64 bits wide. */
  function EmittedWordSize(i: Instruction, o: Operand): nat {
    if o.bits16 || o.bits32 then (if o.bits16 then 2 else 4) else if i.bits == 16 then 2 else 4
  }

  function VexBytes(w: Work): (b: seq<int>)
    ensures |b| == VexLength(w)
  {
    var v := 8 * (15 - w.vexreg % 16);
    if VexLength(w) == 3 then
      [if w.cm / 64 != 0 then 0x8F else 0xC4,
       w.cm % 32 + (if w.rex.r then 0 else 0x80) + (if w.rex.x then 0 else 0x40) + (if w.rex.b then 0 else 0x20),
       (if w.rex.w then 0x80 else 0) + v + w.wlp % 8]
    else [0xC5, (if w.rex.r then 0 else 0x80) + v + w.wlp % 8]
  }

  function EaCells(i: Instruction, op: nat, ea: Ea, end: int): (r: seq<Cell>)
    ensures |r| == ea.Size()
  {
    [Raw(ea.modrm)] + (if ea.sib.Some? then [Raw(ea.sib.value)] else [])
    + match ea.disp
      case NoDisplacement => []
      case Compressed(b) => [Raw(b)]
      case RipRelative(n) => RelativeField(i, i.Op(op), n, end)
      case Plain(n) => ImmediateField(i, i.Op(op), n)
  }

  function Is4Byte(r: int, low: int): int {
    r % 16 * 16 + (if r / 16 % 2 == 1 then 8 else 0) + low
  }

  /** Or of two bytes that may both have bit 3 set, as in an is4 byte. */
  function Is4Cell(i: Instruction, w: Work, reg: nat, low: Nibble): int {
    var r := i.Op(reg).register.value;
    var n := match low
             case Fixed(v) => v
             case FromOperand(op) => i.Op(op).offset % if w.prefixes[VEX] == ForceEvex then 8 else 16;
    if r / 16 % 2 == 1 && n / 8 % 2 == 1 then Is4Byte(r, n - 8) else Is4Byte(r, n)
  }

  function ConditionByte(i: Instruction, b: int): int {
    if 0 <= b < 256 && 0 <= i.condition < 16 then Bits.Xor(b, i.condition) else b
  }

  function Unsigned64(v: int): nat {
    v % 0x1_0000_0000_0000_0000
  }

  /** The cells of a code that writes one field, or nothing. */
  function FieldCells(i: Instruction, w: Work, c: Code, end: int): seq<Cell> {
    match c
    case PlusCondition(b) => [Raw(ConditionByte(i, b))]
    case Immediate(op, n, _) => ImmediateField(i, i.Op(op), n)
    case ByWord(op) => ImmediateField(i, i.Op(op), EmittedWordSize(i, i.Op(op)))
    case ByAddressSize(op) => ImmediateField(i, i.Op(op), i.addressSize / 8)
    case SignedByte(op) =>
      if i.Op(op).Absolute() then [Raw(i.Op(op).offset % 256)] else ImmediateField(i, i.Op(op), 1)
    case Relative(op, n) => RelativeField(i, i.Op(op), n, end)
    case RelativeByWord(op) => RelativeField(i, i.Op(op), WordSize(i, i.Op(op)), end)
    case SegmentOf(op) => [Selector(i.Op(op).segment, 0), Selector(i.Op(op).segment, 1)]
    case Is4(reg, low) => [Raw(Is4Cell(i, w, reg, low))]
    case Byte(b) => [Raw(b)]
    case LongJumpOver => [Raw(if i.bits == 16 then 3 else 5)]
    case _ => []
  }

  function GenStep(i: Instruction, place: Place, g: Gen, c: Code): Gen {
    var end := place.start + place.length;
    match c
    case Literal(b) => Emit(EmitRex(i, g), Raws(b))
    case PlusRegister(op, b) => Emit(EmitRex(i, g), [Raw((b + i.Op(op).register.value % 8) % 256)])
    case ModRM(op, _) => Emit(g, EaCells(i, op, i.ea(c, g.work.rex.ev), end))
    case Evex(_, _, _, _) => Emit(g, [Raw(0x62), EvexPayload(0), EvexPayload(1), EvexPayload(2)])
    case Vex(_, _, _) => Emit(g, Raws(VexBytes(g.work)))
    case Address16 => Emit(g, if i.bits == 32 && g.work.prefixes[ASIZE] != A16 then [Raw(0x67)] else [])
    case Address32 => Emit(g, if i.bits != 32 && g.work.prefixes[ASIZE] != A32 then [Raw(0x67)] else [])
    case Address64 => g.(work := g.work.(rex := NO_REX))
    case WithRexW => g.(work := g.work.(rex := g.work.rex.(w := true)))
    case LockAsRexR =>
      var t := Emit(g, if g.work.rex.r then [Raw(0xF0)] else []);
      t.(work := t.work.(rex := t.work.rex.(l := false, r := false)))
    case Reserve =>
      // a segment here is an internal error
      Emit(g, if i.Op(0).segment != NO_SEG then [] else seq(Unsigned64(i.Op(0).offset), k => Reserved))
    case Vsib(kind) => g.(work := g.work.(kind := kind + 1))
    case _ => Emit(g, FieldCells(i, g.work, c, end))
  }

  function GenCodes(i: Instruction, place: Place, g: Gen, codes: seq<Code>): Gen
    decreases |codes|
  {
    if |codes| == 0 then g else GenCodes(i, place, GenStep(i, place, g, codes[0]), codes[1..])
  }

  function Gencode(i: Instruction, place: Place, w: Work, codes: seq<Code>): Gen {
    GenCodes(i, place, Gen(w.(kind := 0), false, Raws(PrefixBytes(i.bits, w.prefixes))), codes)
  }
}
