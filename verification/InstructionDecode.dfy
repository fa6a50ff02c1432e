/** What the processor reads out of the cells that gencode emits for an instruction. */
module InstructionDecode {
  import opened Wrappers
  import opened Bytes
  import opened Powers
  import opened Labels
  import opened Output
  import opened Bytecode
  import opened Encode
  import opened EncodeSizes
  import Ea = EffectiveAddress
  import Bits

  // ----- reading -----

  /** The bits of a REX prefix by position (table 2-4 of the Intel SDM, volume 2A). */
  datatype RexBits = RexBits(w: bool, r: bool, x: bool, b: bool)

  /** In 64-bit mode a byte 0x40 to 0x4F in front of the opcode is a REX prefix. */
  predicate RexAt(bits: int, cells: seq<Cell>) {
    bits == 64 && |cells| > 0 && cells[0].Raw? && 0x40 <= cells[0].byte < 0x50
  }

  function ReadRex(bits: int, cells: seq<Cell>): RexBits {
    if RexAt(bits, cells) then
      var x := cells[0].byte;
      RexBits(x / 8 % 2 == 1, x / 4 % 2 == 1, x / 2 % 2 == 1, x % 2 == 1)
    else RexBits(false, false, false, false)
  }

  /** Where the opcode starts. */
  function OpcodeAt(bits: int, cells: seq<Cell>): nat {
    if RexAt(bits, cells) then 1 else 0
  }

  /** An operand as it is read: ModRM, SIB if the form has one, and the displacement field. */
  datatype Read = Read(rex: RexBits, modrm: int, sib: Option<int>, disp: seq<Cell>)

  predicate HasSib(addrbits: int, modrm: int) {
    addrbits != 16 && modrm / 64 != 3 && modrm % 8 == 4
  }

  function DispSize(addrbits: int, modrm: int, sib: Option<int>): nat {
    if modrm / 64 == 3 then 0 else Ea.DisplacementSize(addrbits, Form(modrm, sib, RexBits(false, false, false, false)))
  }

  /** The tables of section 2.1.5 of the Intel SDM, volume 2A, on the bits that were read. */
  function Form(modrm: int, sib: Option<int>, rex: RexBits): Encode.Ea {
    Encode.Ea(0, NO_REX.(x := rex.x, b := rex.b), false, modrm, sib, NoDisplacement)
  }

  /** Reads the operand at `at`, under the bits of whatever prefix there was. */
  function ReadOperandAt(addrbits: int, cells: seq<Cell>, at: nat, rex: RexBits): Option<Read> {
    if at >= |cells| || !cells[at].Raw? then None
    else
      var modrm := cells[at].byte;
      var s := if HasSib(addrbits, modrm) then 1 else 0;
      if s == 1 && (at + 1 >= |cells| || !cells[at + 1].Raw?) then None
      else
        var sib := if s == 1 then Some(cells[at + 1].byte) else None;
        var size := DispSize(addrbits, modrm, sib);
        if at + 1 + s + size > |cells| then None
        else Some(Read(rex, modrm, sib, cells[at + 1 + s..at + 1 + s + size]))
  }

  /** Reads the operand behind an opcode of `n` bytes. */
  function ReadOperand(bits: int, addrbits: int, cells: seq<Cell>, n: nat): Option<Read> {
    ReadOperandAt(addrbits, cells, OpcodeAt(bits, cells) + n, ReadRex(bits, cells))
  }

  /** The cells are bytes with the number `v` in them. */
  ghost predicate Holds(cells: seq<Cell>, v: int) {
    exists b: seq<int> :: cells == Raws(b) && LittleEndian(b) == v && forall k :: 0 <= k < |b| ==> 0 <= b[k] < 256
  }

  /** The address that is read, when the field holds `d`. */
  function ReadAddress(v: Ea.Valuation, bits: int, addrbits: int, r: Read, d: int, end: int): int {
    Ea.Registers(v, bits, addrbits, Form(r.modrm, r.sib, r.rex), end)
    + if |r.disp| == 0 then 0 else Ea.SignExtend(d, 8 * |r.disp|)
  }

  /** The number of the register in the reg field, and in the r/m field of a register form. */
  function ReadSpare(r: Read): int {
    r.modrm / 8 % 8 + if r.rex.r then 8 else 0
  }

  function ReadRegister(r: Read): int {
    r.modrm % 8 + if r.rex.b then 8 else 0
  }

  // ----- one opcode, one operand, and fields behind them -----

  /** A template of an opcode and an operand; only plain fields follow. */
  predicate Simple(codes: seq<Code>) {
    && |codes| >= 2 && codes[0].Literal? && |codes[0].bytes| > 0 && codes[1].ModRM?
    && Fields(codes[2..])
  }

  lemma SimpleParts(codes: seq<Code>)
    requires Simple(codes)
    ensures |codes| >= 2 && codes[0].Literal? && |codes[0].bytes| > 0 && codes[1].ModRM?
  {
  }

  predicate Fields(codes: seq<Code>) {
    forall k :: 0 <= k < |codes| ==> !Structural(codes[k]) && !Prefixing(codes[k])
  }

  /** The cells of the fields. */
  function FieldsCells(i: Instruction, w: Work, codes: seq<Code>, end: int): seq<Cell> {
    if |codes| == 0 then [] else FieldCells(i, w, codes[0], end) + FieldsCells(i, w, codes[1..], end)
  }

  lemma {:induction false} FieldsSize(i: Instruction, s: Sizing, codes: seq<Code>)
    requires Fields(codes) && s.ok
    ensures var t := SizeCodes(i, s, codes); t.ok && t.work == s.work && t.keepW == s.keepW
    decreases |codes|
  {
    hide FixedSize;
    if |codes| > 0 {
      assert forall k :: 0 <= k < |codes[1..]| ==> codes[1..][k] == codes[k + 1];
      assert !Structural(codes[0]) && !Prefixing(codes[0]);
      FieldsSize(i, SizeStep(i, s, codes[0]), codes[1..]);
    }
  }

  lemma {:induction false} FieldsEmitted(i: Instruction, place: Place, g: Gen, codes: seq<Code>)
    requires Fields(codes)
    ensures GenCodes(i, place, g, codes)
         == g.(out := g.out + FieldsCells(i, g.work, codes, place.start + place.length))
    decreases |codes|
  {
    hide FieldCells;
    if |codes| > 0 {
      assert forall k :: 0 <= k < |codes[1..]| ==> codes[1..][k] == codes[k + 1];
      assert !Structural(codes[0]) && !Prefixing(codes[0]);
      var t := GenStep(i, place, g, codes[0]);
      var f := FieldCells(i, g.work, codes[0], place.start + place.length);
      assert t == g.(out := g.out + f);
      FieldsEmitted(i, place, t, codes[1..]);
      var rest := FieldsCells(i, g.work, codes[1..], place.start + place.length);
      assert g.out + f + rest == g.out + (f + rest);
    } else {
      assert g.out + [] == g.out;
    }
  }

  /** The instruction carries an operand-size prefix for 64 bits. */
  predicate AsksWide(p: Prefixes) {
    p[OSIZE] == O64
  }

  /** The REX bits that calcsize arrives at: W by prefix or operand, the rest by operand. */
  function OperandRex(p: Prefixes, ea: Encode.Ea): Rex {
    NO_REX.(w := AsksWide(p)).Or(ea.rex)
  }

  lemma SimpleSized(i: Instruction, p: Prefixes, codes: seq<Code>)
    requires Simple(codes) && Calcsize(i, p, codes).ok && i.bits in {16, 32, 64}
    requires PlainRex(i.ea(codes[1], false).rex)
    ensures var w := Calcsize(i, p, codes).work;
            && w.rex == OperandRex(p, i.ea(codes[1], false))
            && (w.rex.Mask() ==> i.bits == 64)
  {
    hide FixedSize, PrefixBytes, Finish, SizeStep;
    var s0 := Start(p);
    var s1 := SizeStep(i, s0, codes[0]);
    var s2 := SizeStep(i, s1, codes[1]);
    assert SizeCodes(i, s0, codes) == SizeCodes(i, s1, codes[1..]);
    assert codes[1..][1..] == codes[2..] && codes[1..][0] == codes[1];
    if !s2.ok {
      FailureStays(i, s2, codes[2..]);
      FinishNeedsOk(i, s2);
    }
    OperandSized(i, s0, codes[0], codes[1]);
    FieldsSize(i, s2, codes[2..]);
    PlainFinish(i, SizeCodes(i, s2, codes[2..]));
  }

  lemma OperandSized(i: Instruction, s: Sizing, c: Code, d: Code)
    requires s.ok && c.Literal? && d.ModRM? && !s.work.rex.ev && SizeStep(i, SizeStep(i, s, c), d).ok
    ensures var t := SizeStep(i, SizeStep(i, s, c), d);
            t.work.rex == s.work.rex.Or(i.ea(d, false).rex) && t.keepW == s.keepW
  {
  }

  /** Without vector bits the checks after the loop leave the REX bits alone. */
  lemma PlainFinish(i: Instruction, s: Sizing)
    requires Finish(i, s).ok && s.keepW && !s.work.rex.Vector() && !s.work.rex.nh && !s.work.rex.l
    ensures var w := Finish(i, s).work; w.rex == s.work.rex && (w.rex.Mask() ==> i.bits == 64)
  {
    hide PrefixBytes;
  }

  /** The REX byte, if the bits ask for one. */
  function RexCells(bits: int, r: Rex): seq<Cell> {
    if bits == 64 && NeedsRex(r) then [Raw(RexByte(r))] else []
  }

  lemma OpcodeEmitted(i: Instruction, place: Place, g: Gen, op: seq<int>)
    requires !g.rexDone
    ensures var t := GenStep(i, place, g, Literal(op));
            t.work == g.work && t.out == g.out + RexCells(i.bits, g.work.rex) + Raws(op)
  {
    hide RexByte;
    assert g.out + [] == g.out;
  }

  lemma SimpleEmitted(i: Instruction, place: Place, w: Work, codes: seq<Code>)
    requires Simple(codes) && !w.rex.ev
    ensures Gencode(i, place, w, codes).out
         == Raws(PrefixBytes(i.bits, w.prefixes)) + RexCells(i.bits, w.rex) + Raws(codes[0].bytes)
            + EaCells(i, codes[1].op, i.ea(codes[1], false), place.start + place.length)
            + FieldsCells(i, w.(kind := 0), codes[2..], place.start + place.length)
  {
    hide FieldCells, FieldsCells, EaCells, RexByte, PrefixBytes, RexCells, Fields;
    var g0 := Gen(w.(kind := 0), false, Raws(PrefixBytes(i.bits, w.prefixes)));
    var g1 := GenStep(i, place, g0, codes[0]);
    OpcodeEmitted(i, place, g0, codes[0].bytes);
    var g2 := GenStep(i, place, g1, codes[1]);
    assert codes[1..][1..] == codes[2..] && codes[1..][0] == codes[1];
    assert GenCodes(i, place, g0, codes) == GenCodes(i, place, g2, codes[2..]);
    FieldsEmitted(i, place, g2, codes[2..]);
  }

  // ----- reading a simple instruction back -----

  /** The REX byte is read as the bits it was made of. */
  lemma RexReads(bits: int, r: Rex, op: seq<int>, rest: seq<Cell>)
    requires |op| > 0 && (bits == 64 ==> !(0x40 <= op[0] < 0x50)) && !r.Vector()
    requires bits in {16, 32, 64} && (r.Mask() ==> bits == 64)
    ensures var cells := RexCells(bits, r) + Raws(op) + rest;
            && ReadRex(bits, cells) == RexBits(r.w, r.r, r.x, r.b)
            && OpcodeAt(bits, cells) == |RexCells(bits, r)|
  {
    var cells := RexCells(bits, r) + Raws(op) + rest;
    if bits == 64 && r.Mask() {
      assert cells[0] == Raw(RexByte(r));
      RexByteBits(r);
    } else {
      assert RexCells(bits, r) == [] && cells[0] == Raw(op[0]);
    }
  }

  lemma RexByteBits(r: Rex)
    ensures var x := RexByte(r);
            && 0x40 <= x < 0x50
            && (x / 8 % 2 == 1 <==> r.w) && (x / 4 % 2 == 1 <==> r.r)
            && (x / 2 % 2 == 1 <==> r.x) && (x % 2 == 1 <==> r.b)
  {
  }

  /** The operand's cells are read as its parts. */
  lemma OperandReads(i: Instruction, addrbits: int, k: nat, ea: Encode.Ea, end: int,
                     front: seq<Cell>, rest: seq<Cell>, rex: RexBits)
    requires ea.sib.Some? <==> HasSib(addrbits, ea.modrm)
    requires ea.Width() == DispSize(addrbits, ea.modrm, ea.sib)
    ensures ReadOperandAt(addrbits, front + EaCells(i, k, ea, end) + rest, |front|, rex)
         == Some(Read(rex, ea.modrm, ea.sib, DispCells(i, k, ea, end)))
  {
    hide DispSize, RelativeField, ImmediateField;
    var e := EaCells(i, k, ea, end);
    var cells := front + e + rest;
    var s := if ea.sib.Some? then 1 else 0;
    assert e == [Raw(ea.modrm)] + (if ea.sib.Some? then [Raw(ea.sib.value)] else []) + DispCells(i, k, ea, end);
    assert cells[|front|] == Raw(ea.modrm);
    assert s == 1 ==> cells[|front| + 1] == Raw(ea.sib.value);
    assert e[1 + s..] == DispCells(i, k, ea, end);
    assert cells[|front| + 1 + s..|front| + |e|] == e[1 + s..];
    assert |e| == 1 + s + ea.Width();
  }

  /** The displacement field of an operand. */
  function DispCells(i: Instruction, k: nat, ea: Encode.Ea, end: int): (r: seq<Cell>)
    ensures |r| == ea.Width()
  {
    match ea.disp
    case NoDisplacement => []
    case Compressed(b) => [Raw(b)]
    case RipRelative(n) => RelativeField(i, i.Op(k), n, end)
    case Plain(n) => ImmediateField(i, i.Op(k), n)
  }

  /** What the instruction's cells are read as. */
  ghost predicate ReadsAs(i: Instruction, addrbits: int, p: Prefixes, codes: seq<Code>, start: int,
                          ea: Encode.Ea, r: Read)
    requires Simple(codes)
  {
    var s := Calcsize(i, p, codes);
    var out := Gencode(i, Place(start, s.length), s.work, codes).out;
    var n := |PrefixBytes(i.bits, s.work.prefixes)|;
    && n <= |out| && out[..n] == Raws(PrefixBytes(i.bits, s.work.prefixes))
    && var at, k := n + OpcodeAt(i.bits, out[n..]), |codes[0].bytes|;
       && at + k <= |out| && out[at..at + k] == Raws(codes[0].bytes)
       && ReadOperand(i.bits, addrbits, out[n..], k) == Some(r)
       && r.rex == RexBits(ea.rex.w || AsksWide(p), ea.rex.r, ea.rex.x, ea.rex.b)
       && r.modrm == ea.modrm && r.sib == ea.sib && r.disp == DispCells(i, codes[1].op, ea, start + s.length)
       // a REX prefix is there whenever a bit, or a low byte register, asks for it
       && (RexAt(i.bits, out[n..]) <==> i.bits == 64 && (r.rex != RexBits(false, false, false, false) || ea.rex.p))
  }

  lemma SimpleReads(i: Instruction, addrbits: int, p: Prefixes, codes: seq<Code>, start: int, ea: Encode.Ea)
      returns (r: Read)
    requires Simple(codes) && Calcsize(i, p, codes).ok && i.bits in {16, 32, 64}
    requires i.bits == 64 ==> !(0x40 <= codes[0].bytes[0] < 0x50)
    requires i.ea(codes[1], false) == ea && PlainRex(ea.rex)
    requires (ea.sib.Some? <==> HasSib(addrbits, ea.modrm)) && ea.Width() == DispSize(addrbits, ea.modrm, ea.sib)
    ensures ReadsAs(i, addrbits, p, codes, start, ea, r)
    ensures r.rex == RexBits(ea.rex.w || AsksWide(p), ea.rex.r, ea.rex.x, ea.rex.b)
    ensures r.modrm == ea.modrm && r.sib == ea.sib
    ensures r.disp == DispCells(i, codes[1].op, ea, start + Calcsize(i, p, codes).length)
  {
    hide Calcsize, Gencode, PrefixBytes, EaCells, FieldsCells, RexCells, ReadOperand;
    hide HasSib, DispSize, DispCells, Fields, OpcodeAt, RexAt, Raws, AsksWide, OperandRex;
    hide Rex.Mask, PlainRex;
    var s := Calcsize(i, p, codes);
    var end := start + s.length;
    SimpleSized(i, p, codes);
    OperandRexBits(p, ea);
    SimpleEmitted(i, Place(start, s.length), s.work, codes);
    var pre, op, rex := PrefixBytes(i.bits, s.work.prefixes), codes[0].bytes, s.work.rex;
    var e, tail := EaCells(i, codes[1].op, ea, end), FieldsCells(i, s.work.(kind := 0), codes[2..], end);
    var out := Gencode(i, Place(start, s.length), s.work, codes).out;
    assert out == Raws(pre) + RexCells(i.bits, rex) + Raws(op) + e + tail;
    BodyReads(i, addrbits, codes[1].op, ea, end, rex, op, tail);
    OutSplits(Raws(pre), RexCells(i.bits, rex), Raws(op), e, tail);
    r := Read(RexBits(rex.w, rex.r, rex.x, rex.b), ea.modrm, ea.sib, DispCells(i, codes[1].op, ea, end));
  }

  lemma OperandRexBits(p: Prefixes, ea: Encode.Ea)
    requires PlainRex(ea.rex)
    ensures var r := OperandRex(p, ea);
            && !r.Vector()
            && RexBits(r.w, r.r, r.x, r.b) == RexBits(ea.rex.w || AsksWide(p), ea.rex.r, ea.rex.x, ea.rex.b)
            && (r.Mask() <==> RexBits(r.w, r.r, r.x, r.b) != RexBits(false, false, false, false) || ea.rex.p)
  {
  }

  lemma OutSplits(a: seq<Cell>, b: seq<Cell>, c: seq<Cell>, d: seq<Cell>, e: seq<Cell>)
    ensures var out := a + b + c + d + e;
            && out[..|a|] == a && out[|a|..] == b + c + d + e
            && out[|a| + |b|..|a| + |b| + |c|] == c
  {
    var out := a + b + c + d + e;
    assert out == a + (b + c + d + e);
    Middle(a, b + c + d + e);
    assert out == a + b + (c + (d + e));
    Middle(a + b, c + (d + e));
    Middle(c, d + e);
    assert out[|a| + |b|..][..|c|] == out[|a| + |b|..|a| + |b| + |c|];
  }

  lemma Middle(a: seq<Cell>, b: seq<Cell>)
    ensures (a + b)[..|a|] == a && (a + b)[|a|..] == b
  {
  }

  lemma BodyReads(i: Instruction, addrbits: int, k: nat, ea: Encode.Ea, end: int, rex: Rex, op: seq<int>,
                  tail: seq<Cell>)
    requires i.bits in {16, 32, 64} && (rex.Mask() ==> i.bits == 64) && !rex.Vector()
    requires |op| > 0 && (i.bits == 64 ==> !(0x40 <= op[0] < 0x50))
    requires (ea.sib.Some? <==> HasSib(addrbits, ea.modrm)) && ea.Width() == DispSize(addrbits, ea.modrm, ea.sib)
    ensures var body := RexCells(i.bits, rex) + Raws(op) + EaCells(i, k, ea, end) + tail;
            && ReadOperand(i.bits, addrbits, body, |op|)
               == Some(Read(RexBits(rex.w, rex.r, rex.x, rex.b), ea.modrm, ea.sib, DispCells(i, k, ea, end)))
            && OpcodeAt(i.bits, body) == |RexCells(i.bits, rex)|
            && (RexAt(i.bits, body) <==> i.bits == 64 && rex.Mask())
  {
    hide EaCells, RexCells, ReadOperandAt, HasSib, DispSize, DispCells, ReadRex, OpcodeAt, RexAt, Rex.Mask, Rex.Vector;
    var e := EaCells(i, k, ea, end);
    var front := RexCells(i.bits, rex) + Raws(op);
    var body := front + e + tail;
    assert body == RexCells(i.bits, rex) + Raws(op) + (e + tail);
    RexReads(i.bits, rex, op, e + tail);
    RexAtIff(i.bits, rex, op, e + tail);
    assert OpcodeAt(i.bits, body) + |op| == |front| && ReadRex(i.bits, body) == RexBits(rex.w, rex.r, rex.x, rex.b);
    OperandReads(i, addrbits, k, ea, end, front, tail, RexBits(rex.w, rex.r, rex.x, rex.b));
  }

  lemma RexAtIff(bits: int, r: Rex, op: seq<int>, rest: seq<Cell>)
    requires |op| > 0 && (bits == 64 ==> !(0x40 <= op[0] < 0x50)) && !r.Vector()
    ensures RexAt(bits, RexCells(bits, r) + Raws(op) + rest) <==> bits == 64 && r.Mask()
  {
    var cells := RexCells(bits, r) + Raws(op) + rest;
    if bits == 64 && r.Mask() {
      assert cells[0] == Raw(RexByte(r));
      RexByteBits(r);
    } else {
      assert RexCells(bits, r) == [] && cells[0] == Raw(op[0]);
    }
  }

  // ----- numbers in fields -----

  lemma WrittenHolds(v: int, n: nat)
    ensures Holds(Raws(WriteAddr(v, n)), v % Power256(n))
  {
    hide Raws, WriteAddr, LittleEndian, Power256;
    WriteAddrValue(v, n);
    assert Raws(WriteAddr(v, n)) == Raws(WriteAddr(v, n)) && LittleEndian(WriteAddr(v, n)) == v % Power256(n);
  }

  predicate Sized(n: nat) {
    n == 1 || n == 2 || n == 4 || n == 8
  }

  /** A number of known value needs no relocation. */
  predicate IsNumber(i: Instruction, o: Operand) {
    o.segment == (if o.relative then i.segment else NO_SEG) && !o.wrt
  }

  /** An immediate is the operand's number, or is left to the back end byte by byte. */
  lemma ImmediateHolds(i: Instruction, o: Operand, n: nat)
    ensures IsNumber(i, o) ==> Holds(ImmediateField(i, o, n), o.offset % Power256(n))
    ensures |ImmediateField(i, o, n)| == n
    ensures !IsNumber(i, o) ==>
              forall k :: 0 <= k < n ==> ImmediateField(i, o, n)[k] == Reloc(Address(o.segment, o.offset), 0, k)
  {
    hide Raws, WriteAddr, LittleEndian, Power256;
    WrittenHolds(o.offset, n);
  }

  /** A relative field is the distance from the end of the instruction. */
  lemma RelativeHolds(i: Instruction, o: Operand, n: nat, end: int)
    ensures o.segment == i.segment && !o.wrt ==> Holds(RelativeField(i, o, n, end), (o.offset - end) % Power256(n))
    ensures |RelativeField(i, o, n, end)| == n
    ensures !(o.segment == i.segment && !o.wrt) ==>
              forall k :: 0 <= k < n ==> RelativeField(i, o, n, end)[k] == Reloc(Address(o.segment, o.offset), end, k)
  {
    hide Raws, WriteAddr, LittleEndian, Power256;
    WrittenHolds(o.offset - end, n);
  }

  lemma ByteModulus(n: nat)
    requires Sized(n)
    ensures Power256(n) == Ea.Modulus(8 * n)
  {
    assert Power256(0) == 1 && Power256(1) == 256 * Power256(0) && Power256(2) == 256 * Power256(1);
    assert Power256(3) == 256 * Power256(2) && Power256(4) == 256 * Power256(3);
    assert Power256(5) == 256 * Power256(4) && Power256(6) == 256 * Power256(5);
    assert Power256(7) == 256 * Power256(6) && Power256(8) == 256 * Power256(7);
  }

  lemma ExtendsCut(v: int, bits: int)
    ensures Ea.SignExtend(v % Ea.Modulus(bits), bits) == Ea.SignExtend(v, bits)
  {
    hide Ea.Modulus;
    CutTwice(v, Ea.Modulus(bits));
  }

  lemma CutTwice(v: int, m: nat)
    requires m > 0
    ensures v % m % m == v % m
  {
    DivModUnique(v % m, m, 0, v % m);
  }

  // ----- memory operands -----

  /** The operand that gencode looks at is the memory operand's offset, with nothing in it
      for the back end to relocate. */
  predicate OffsetOf(i: Instruction, o: Operand, m: Ea.Memory, ea: Encode.Ea) {
    && o.offset == m.offset && !o.wrt
    && o.segment == if ea.disp.RipRelative? || o.relative then i.segment else NO_SEG
  }

  lemma DispHolds(i: Instruction, k: nat, m: Ea.Memory, ea: Encode.Ea, end: int)
    requires OffsetOf(i, i.Op(k), m, ea) && !ea.disp.Compressed?
    ensures Holds(DispCells(i, k, ea, end), Ea.FieldValue(m, ea, end) % Power256(ea.Width()))
  {
    hide ImmediateField, RelativeField, LittleEndian, Power256;
    match ea.disp {
      case NoDisplacement => NothingHolds(Ea.FieldValue(m, ea, end));
      case RipRelative(n) => RelativeHolds(i, i.Op(k), n, end);
      case Plain(n) => ImmediateHolds(i, i.Op(k), n);
    }
  }

  lemma NothingHolds(v: int)
    ensures Holds([], v % Power256(0))
  {
    assert Raws([]) == [] && LittleEndian([]) == 0 && Power256(0) == 1;
  }

  lemma ShapeAgrees(addrbits: int, rfield: nat, ea: Encode.Ea)
    requires Ea.WellFormed(addrbits, rfield, ea) && addrbits in {16, 32, 64}
    ensures (ea.sib.Some? <==> HasSib(addrbits, ea.modrm)) && ea.Width() == DispSize(addrbits, ea.modrm, ea.sib)
    ensures ea.Width() == 0 || Sized(ea.Width())
    ensures PlainRex(ea.rex) && !ea.disp.Compressed? && ea.modrm / 8 % 8 + (if ea.rex.r then 8 else 0) == rfield
  {
  }

  lemma SameForm(v: Ea.Valuation, bits: int, addrbits: int, ea: Encode.Ea, r: Read, end: int)
    requires r.modrm == ea.modrm && r.sib == ea.sib && r.rex.x == ea.rex.x && r.rex.b == ea.rex.b
    ensures Ea.Registers(v, bits, addrbits, Form(r.modrm, r.sib, r.rex), end)
         == Ea.Registers(v, bits, addrbits, ea, end)
  {
  }

  /**
    From operand to cells and back: what gencode emits for an opcode and a memory operand is
    read as the operand's address, for every valuation of the registers, and the register
    or digit in the spare field; provided that the displacement fits.
   */
  lemma MemoryDecodes(i: Instruction, m: Ea.Memory, addrbits: int, spare: Register, p: Prefixes, codes: seq<Code>,
                      start: int) returns (r: Read, d: int)
    requires Simple(codes) && Calcsize(i, p, codes).ok && i.bits in {16, 32, 64} && addrbits in {16, 32, 64}
    requires i.bits == 64 ==> !(0x40 <= codes[0].bytes[0] < 0x50)
    requires spare.value >= 0
    requires var ea := i.ea(codes[1], false);
             && Ea.WellFormed(addrbits, spare.value, ea) && Ea.SameRegisters(i.bits, addrbits, m, ea)
             && Ea.SpareFlags(spare, ea.rex) && OffsetOf(i, i.Op(codes[1].op), m, ea)
             && Ea.Fits(addrbits, m, ea, start + Calcsize(i, p, codes).length)
    ensures ReadsAs(i, addrbits, p, codes, start, i.ea(codes[1], false), r) && Holds(r.disp, d)
    ensures ReadSpare(r) == spare.value
    ensures r.rex.w <==> spare.wide || AsksWide(p)
    ensures forall v: Ea.Valuation ::
              ReadAddress(v, i.bits, addrbits, r, d, start + Calcsize(i, p, codes).length) % Ea.Modulus(addrbits)
              == Ea.Meaning(v, m) % Ea.Modulus(addrbits)
  {
    hide *;
    SimpleParts(codes);
    var k, ea, end := codes[1].op, i.ea(codes[1], false), start + Calcsize(i, p, codes).length;
    ShapeAgrees(addrbits, spare.value, ea);
    r := SimpleReads(i, addrbits, p, codes, start, ea);
    d := Ea.FieldValue(m, ea, end) % Power256(ea.Width());
    DispHolds(i, k, m, ea, end);
    AddressReads(i, m, addrbits, ea, r, d, end);
    SpareReads(spare, ea, r);
  }

  lemma SpareReads(spare: Register, ea: Encode.Ea, r: Read)
    requires r.modrm == ea.modrm && r.rex.r == ea.rex.r && Ea.SpareFlags(spare, ea.rex)
    requires ea.modrm / 8 % 8 + (if ea.rex.r then 8 else 0) == spare.value
    ensures ReadSpare(r) == spare.value && ea.rex.w == spare.wide
  {
  }

  lemma AddressReads(i: Instruction, m: Ea.Memory, addrbits: int, ea: Encode.Ea, r: Read, d: int, end: int)
    requires Ea.SameRegisters(i.bits, addrbits, m, ea) && Ea.Fits(addrbits, m, ea, end)
    requires r.modrm == ea.modrm && r.sib == ea.sib && r.rex.x == ea.rex.x && r.rex.b == ea.rex.b
    requires |r.disp| == ea.Width() && (ea.Width() == 0 || Sized(ea.Width()))
    requires d == Ea.FieldValue(m, ea, end) % Power256(ea.Width())
    ensures forall v: Ea.Valuation ::
              (ReadAddress(v, i.bits, addrbits, r, d, end) % Ea.Modulus(addrbits)
               == Ea.Meaning(v, m) % Ea.Modulus(addrbits))
  {
    hide *;
    if ea.Width() > 0 {
      ByteModulus(ea.Width());
      ExtendsCut(Ea.FieldValue(m, ea, end), 8 * ea.Width());
    }
    forall v: Ea.Valuation
      ensures (ReadAddress(v, i.bits, addrbits, r, d, end) % Ea.Modulus(addrbits)
               == Ea.Meaning(v, m) % Ea.Modulus(addrbits))
    {
      SameForm(v, i.bits, addrbits, ea, r, end);
      AddressIs(v, i.bits, addrbits, m, ea, r, d, end);
      Ea.DecodesIff(v, i.bits, addrbits, m, ea, end);
    }
  }

  lemma AddressIs(v: Ea.Valuation, bits: int, addrbits: int, m: Ea.Memory, ea: Encode.Ea, r: Read, d: int, end: int)
    requires |r.disp| == ea.Width()
    requires ea.Width() > 0 ==>
              Ea.SignExtend(d, 8 * ea.Width()) == Ea.SignExtend(Ea.FieldValue(m, ea, end), 8 * ea.Width())
    requires Ea.Registers(v, bits, addrbits, Form(r.modrm, r.sib, r.rex), end)
          == Ea.Registers(v, bits, addrbits, ea, end)
    ensures ReadAddress(v, bits, addrbits, r, d, end) == Ea.Decoded(v, bits, addrbits, m, ea, end)
  {
    hide Ea.Registers, Ea.SignExtend, Form, Ea.FieldValue;
  }

  // ----- registers -----

  /** A direct register operand comes back from r/m and REX.B, the other from reg and REX.R. */
  lemma RegisterDecodes(i: Instruction, operand: Register, addrbits: int, spare: Register, p: Prefixes,
                        codes: seq<Code>, start: int) returns (r: Read)
    requires Simple(codes) && Calcsize(i, p, codes).ok && i.bits in {16, 32, 64}
    requires i.bits == 64 ==> !(0x40 <= codes[0].bytes[0] < 0x50)
    requires var ea := i.ea(codes[1], false);
             && 192 <= ea.modrm < 256 && ea.sib.None? && ea.disp.NoDisplacement? && PlainRex(ea.rex)
             && ea.modrm % 8 + (if ea.rex.b then 8 else 0) == operand.value
             && ea.modrm / 8 % 8 + (if ea.rex.r then 8 else 0) == spare.value
             && (ea.rex.w <==> operand.wide || spare.wide)
    ensures ReadsAs(i, addrbits, p, codes, start, i.ea(codes[1], false), r) && r.disp == []
    ensures r.modrm / 64 == 3 && ReadRegister(r) == operand.value && ReadSpare(r) == spare.value
    ensures r.rex.w <==> operand.wide || spare.wide || AsksWide(p)
  {
    assert codes[1].ModRM?;
    hide Calcsize, Gencode, ReadOperand, RexAt, OpcodeAt, Simple;
    r := SimpleReads(i, addrbits, p, codes, start, i.ea(codes[1], false));
  }

  // ----- a register in the opcode -----

  /** A template of one opcode byte with a register in it, and fields. */
  predicate OpcodeRegister(codes: seq<Code>) {
    |codes| >= 1 && codes[0].PlusRegister? && Fields(codes[1..])
  }

  lemma RegisterParts(codes: seq<Code>)
    requires OpcodeRegister(codes)
    ensures |codes| >= 1 && codes[0].PlusRegister?
  {
  }

  lemma RegisterSized(i: Instruction, p: Prefixes, codes: seq<Code>)
    requires OpcodeRegister(codes) && Calcsize(i, p, codes).ok && i.bits in {16, 32, 64}
    ensures var w := Calcsize(i, p, codes).work;
            && w.rex == NO_REX.(w := AsksWide(p)).Or(RegisterRex(i.Op(codes[0].op).register))
            && (w.rex.Mask() ==> i.bits == 64)
  {
    hide FixedSize, PrefixBytes, RegisterRex, Finish;
    RegisterRexPlain(i.Op(codes[0].op).register);
    var s1 := SizeStep(i, Start(p), codes[0]);
    FieldsSize(i, s1, codes[1..]);
    PlainFinish(i, SizeCodes(i, s1, codes[1..]));
  }

  lemma RegisterRexPlain(r: Register)
    ensures PlainRex(RegisterRex(r)) && !RegisterRex(r).r && !RegisterRex(r).x
  {
  }

  lemma RegisterEmitted(i: Instruction, place: Place, w: Work, codes: seq<Code>)
    requires OpcodeRegister(codes)
    ensures Gencode(i, place, w, codes).out
         == Raws(PrefixBytes(i.bits, w.prefixes)) + RexCells(i.bits, w.rex)
            + [Raw((codes[0].byte + i.Op(codes[0].op).register.value % 8) % 256)]
            + FieldsCells(i, w.(kind := 0), codes[1..], place.start + place.length)
  {
    hide FieldCells, FieldsCells, RexByte, PrefixBytes, Fields;
    var g0 := Gen(w.(kind := 0), false, Raws(PrefixBytes(i.bits, w.prefixes)));
    var g1 := GenStep(i, place, g0, codes[0]);
    assert g0.out + [] == g0.out;
    FieldsEmitted(i, place, g1, codes[1..]);
  }

  /** Cells of an opcode byte `b` with the register `o` in it, and `tail` behind. */
  ghost predicate ReadsRegister(bits: int, cells: seq<Cell>, b: int, o: Register, wide: bool, tail: seq<Cell>) {
    var at, rex := OpcodeAt(bits, cells), ReadRex(bits, cells);
    && at < |cells| && cells[at].Raw? && cells[at].byte / 8 == b / 8
    && cells[at].byte % 8 + (if rex.b then 8 else 0) == o.value
    && rex == RexBits(o.wide || wide, false, false, o.value >= 8)
    && cells[at + 1..] == tail
  }

  lemma RegisterReads(bits: int, rex: Rex, b: int, o: Register, wide: bool, tail: seq<Cell>)
    requires bits in {16, 32, 64} && (rex.Mask() ==> bits == 64) && rex == NO_REX.(w := wide).Or(RegisterRex(o))
    requires 0 <= b < 256 && b % 8 == 0 && (bits == 64 ==> !(0x40 <= b < 0x50)) && 0 <= o.value < 16
    ensures ReadsRegister(bits, RexCells(bits, rex) + [Raw((b + o.value % 8) % 256)] + tail, b, o, wide, tail)
  {
    hide RexCells, OpcodeAt, ReadRex, RexAt, Raws, RegisterRex, Rex.Or, Rex.Mask, Rex.Vector, NO_REX;
    var x := RegisterByte(b, o.value);
    assert Raws([x]) == [Raw(x)] by { OneRaw(x); }
    NewRexBits(o, wide, rex);
    RexReads(bits, rex, [x], tail);
    RegisterFollows(RexCells(bits, rex), Raw(x), tail);
  }

  lemma OneRaw(x: int)
    ensures Raws([x]) == [Raw(x)]
  {
  }

  /** The opcode byte keeps its upper bits and gets the register's lower ones. */
  lemma RegisterByte(b: int, v: int) returns (x: int)
    requires 0 <= b < 256 && b % 8 == 0 && 0 <= v < 16
    ensures x == (b + v % 8) % 256 && x / 8 == b / 8 && x % 8 + (if v >= 8 then 8 else 0) == v
    ensures 0x40 <= x < 0x50 ==> 0x40 <= b < 0x50
  {
    x := b + v % 8;
  }

  lemma NewRexBits(o: Register, wide: bool, rex: Rex)
    requires rex == NO_REX.(w := wide).Or(RegisterRex(o)) && 0 <= o.value < 16
    ensures RexBits(rex.w, rex.r, rex.x, rex.b) == RexBits(o.wide || wide, false, false, o.value >= 8)
    ensures !rex.Vector()
  {
  }

  lemma RegisterFollows(a: seq<Cell>, x: Cell, tail: seq<Cell>)
    ensures var cells := a + [x] + tail;
            |a| < |cells| && cells[|a|] == x && cells[|a| + 1..] == tail
  {
  }

  /** The register comes back from the low bits of the opcode and REX.B. */
  lemma OpcodeRegisterDecodes(i: Instruction, p: Prefixes, codes: seq<Code>, start: int)
    requires OpcodeRegister(codes) && Calcsize(i, p, codes).ok && i.bits in {16, 32, 64}
    requires 0 <= codes[0].byte < 256 && codes[0].byte % 8 == 0
    requires i.bits == 64 ==> !(0x40 <= codes[0].byte < 0x50)
    requires 0 <= i.Op(codes[0].op).register.value < 16
    ensures var s := Calcsize(i, p, codes);
            var out, pre := Gencode(i, Place(start, s.length), s.work, codes).out, PrefixBytes(i.bits, s.work.prefixes);
            && |pre| <= |out| && out[..|pre|] == Raws(pre)
            && ReadsRegister(i.bits, out[|pre|..], codes[0].byte, i.Op(codes[0].op).register, AsksWide(p),
                             FieldsCells(i, s.work.(kind := 0), codes[1..], start + s.length))
  {
    hide *;
    RegisterParts(codes);
    var s, c := Calcsize(i, p, codes), codes[0];
    var o := i.Op(c.op).register;
    RegisterSized(i, p, codes);
    RegisterEmitted(i, Place(start, s.length), s.work, codes);
    var pre, rex := PrefixBytes(i.bits, s.work.prefixes), s.work.rex;
    var x, tail := Raw((c.byte + o.value % 8) % 256), FieldsCells(i, s.work.(kind := 0), codes[1..], start + s.length);
    RegisterReads(i.bits, rex, c.byte, o, AsksWide(p), tail);
    OutSplits(Raws(pre), RexCells(i.bits, rex), [x], tail, []);
    assert Gencode(i, Place(start, s.length), s.work, codes).out
        == Raws(pre) + RexCells(i.bits, rex) + [x] + tail + [];
    assert RexCells(i.bits, rex) + [x] + tail + [] == RexCells(i.bits, rex) + [x] + tail;
  }

  // ----- what is refused -----

  /** A REX byte is needed for wide operands, for registers from 8 on, and for SPL to DIL. */
  predicate RexNeeded(p: Prefixes, ea: Encode.Ea) {
    AsksWide(p) || ea.rex.w || ea.rex.r || ea.rex.x || ea.rex.b || ea.rex.p
  }

  /** The instructions of one opcode and one operand that can be encoded: no vector prefix is
      demanded, and a REX byte is needed only in 64-bit mode and not beside AH to BH. */
  lemma SimpleAcceptedIff(i: Instruction, p: Prefixes, codes: seq<Code>)
    requires Simple(codes) && PlainRex(i.ea(codes[1], false).rex)
    ensures var ea := i.ea(codes[1], false);
            Calcsize(i, p, codes).ok <==>
              && ea.kind == 0 && p[VEX] !in {ForceEvex, Vex3, Vex2}
              && (RexNeeded(p, ea) ==> i.bits == 64 && !ea.rex.h)
  {
    hide FixedSize, PrefixBytes, Finish, SizeStep, Fields;
    var s0 := Start(p);
    var s1 := SizeStep(i, s0, codes[0]);
    var s2 := SizeStep(i, s1, codes[1]);
    assert SizeCodes(i, s0, codes) == SizeCodes(i, s1, codes[1..]);
    assert codes[1..][1..] == codes[2..] && codes[1..][0] == codes[1];
    OperandAccepted(i, p, codes[0], codes[1]);
    if s2.ok {
      FieldsSize(i, s2, codes[2..]);
      FinishAccepts(i, p, i.ea(codes[1], false), SizeCodes(i, s2, codes[2..]));
    } else {
      FailureStays(i, s2, codes[2..]);
      FailedFinishes(i, SizeCodes(i, s2, codes[2..]));
    }
  }

  lemma OperandAccepted(i: Instruction, p: Prefixes, c: Code, d: Code)
    requires c.Literal? && d.ModRM?
    ensures var t, ea := SizeStep(i, SizeStep(i, Start(p), c), d), i.ea(d, false);
            && (t.ok <==> ea.kind == 0)
            && (t.ok ==> t.work.rex == OperandRex(p, ea) && t.work.prefixes == p && t.keepW)
  {
  }

  lemma FinishAccepts(i: Instruction, p: Prefixes, ea: Encode.Ea, s: Sizing)
    requires PlainRex(ea.rex) && s.ok && s.keepW && s.work.rex == OperandRex(p, ea) && s.work.prefixes == p
    ensures Finish(i, s).ok <==>
              p[VEX] !in {ForceEvex, Vex3, Vex2} && (RexNeeded(p, ea) ==> i.bits == 64 && !ea.rex.h)
  {
    hide PrefixBytes;
  }

  lemma FailedFinishes(i: Instruction, s: Sizing)
    requires !s.ok
    ensures !Finish(i, s).ok
  {
  }

  // ----- lengths and fields -----

  /** The cells of a simple template are as many as announced; so its end is where the next
      instruction starts. */
  lemma SimpleLength(i: Instruction, p: Prefixes, codes: seq<Code>, start: int)
    requires Simple(codes) || OpcodeRegister(codes)
    requires Calcsize(i, p, codes).ok && i.bits in {16, 32, 64} && PlainEas(i) && NoNarrowQword(i, codes)
    ensures var s := Calcsize(i, p, codes); |Gencode(i, Place(start, s.length), s.work, codes).out| == s.length
  {
    hide Calcsize, Gencode, PlainEas, NoNarrowQword, SteadyCode;
    var r := Calcsize(i, p, codes).work.rex;
    var n := if Simple(codes) then 2 else 1;
    forall k | 0 <= k < |codes|
      ensures SteadyCode(i, r, codes[k]) && !codes[k].Vex? && !codes[k].Evex? && !codes[k].Reserve?
    {
      if k >= n {
        assert codes[n..][k - n] == codes[k];
      }
      PlainIsSteady(i, r, codes[k]);
    }
    assert IsOpcode(codes[0]);
    DisciplinedMatchesIff(i, p, codes, start);
  }

  lemma PlainIsSteady(i: Instruction, r: Rex, c: Code)
    ensures !Structural(c) || c.Literal? || c.ModRM? || c.PlusRegister? ==> SteadyCode(i, r, c)
  {
  }

  /** The cells of the fields that carry numbers, code by code. */
  lemma FieldHolds(i: Instruction, w: Work, c: Code, end: int)
    requires c.Immediate? || c.Relative?
    ensures c.Immediate? && IsNumber(i, i.Op(c.op)) ==>
              Holds(FieldCells(i, w, c, end), i.Op(c.op).offset % Power256(c.size))
    ensures c.Relative? && i.Op(c.op).segment == i.segment && !i.Op(c.op).wrt ==>
              Holds(FieldCells(i, w, c, end), (i.Op(c.op).offset - end) % Power256(c.size))
  {
    hide Power256, ImmediateField, RelativeField, IsNumber, Holds, Instruction.Op;
    if c.Immediate? {
      assert FieldCells(i, w, c, end) == ImmediateField(i, i.Op(c.op), c.size);
      ImmediateHolds(i, i.Op(c.op), c.size);
    } else {
      assert FieldCells(i, w, c, end) == RelativeField(i, i.Op(c.op), c.size, end);
      RelativeHolds(i, i.Op(c.op), c.size, end);
    }
  }

  /** The other fields: a segment for the back end, a condition added to an opcode, and the
      distance across a near jump, which is an opcode byte and an offset of the mode's size. */
  lemma OtherFields(i: Instruction, w: Work, c: Code, end: int)
    ensures c.SegmentOf? ==>
              FieldCells(i, w, c, end) == [Selector(i.Op(c.op).segment, 0), Selector(i.Op(c.op).segment, 1)]
    ensures c.PlusCondition? && 0 <= c.byte < 256 && c.byte % 16 == 0 && 0 <= i.condition < 16 ==>
              FieldCells(i, w, c, end) == [Raw(c.byte + i.condition)]
    ensures c.LongJumpOver? ==> FieldCells(i, w, c, end) == [Raw(1 + if i.bits == 16 then 2 else 4)]
    ensures c.Byte? ==> FieldCells(i, w, c, end) == [Raw(c.byte)]
  {
    hide Bits.Xor, Is4Cell;
    if c.PlusCondition? && 0 <= c.byte < 256 && c.byte % 16 == 0 && 0 <= i.condition < 16 {
      Sixteen();
      Bits.XorDisjoint(c.byte, i.condition, 4);
    }
  }

  lemma Sixteen()
    ensures Pow2(4) == 16
  {
    assert Pow2(0) == 1 && Pow2(1) == 2 * Pow2(0) && Pow2(2) == 2 * Pow2(1) && Pow2(3) == 2 * Pow2(2);
  }

  // ----- prefixes -----

  /** The operand size that the processor works with (section 3.6.1 of volume 1), by mode and
      with or without a prefix 0x66. */
  function OperandSize(bits: int, prefixed: bool): int {
    if bits == 16 then (if prefixed then 32 else 16) else if prefixed then 16 else 32
  }

  /** The address size, by mode and with or without a prefix 0x67. */
  function AddressSize(bits: int, prefixed: bool): int {
    if bits == 16 then (if prefixed then 32 else 16)
    else if bits == 32 then (if prefixed then 16 else 32)
    else if prefixed then 32 else 64
  }

  /** The size prefixes are emitted where the mode needs them, and only there. */
  lemma SizePrefixes(bits: int)
    requires bits in {16, 32, 64}
    ensures OperandSize(bits, PrefixByte(bits, O16) == Some(0x66)) == 16
    ensures OperandSize(bits, PrefixByte(bits, O32) == Some(0x66)) == 32
    ensures OperandSize(bits, PrefixByte(bits, Osp) == Some(0x66)) != OperandSize(bits, false)
    ensures bits != 64 ==> AddressSize(bits, PrefixByte(bits, A16) == Some(0x67)) == 16
    ensures AddressSize(bits, PrefixByte(bits, A32) == Some(0x67)) == 32
    ensures AddressSize(bits, PrefixByte(bits, Asp) == Some(0x67)) != AddressSize(bits, false)
  {
  }

  lemma OnlySizePrefixes(bits: int)
    ensures forall p :: p in {O16, O32, Osp} ==> PrefixByte(bits, p) in {None, Some(0x66)}
    ensures forall p :: p in {A16, A32, Asp} ==> PrefixByte(bits, p) in {None, Some(0x67)}
    ensures forall p :: p in {Empty, BadSegment, O64, A64, ForceEvex, Vex3, Vex2, NoBnd} ==> PrefixByte(bits, p) == None
  {
  }

  /** The remaining legacy prefixes (section 2.1.1 of the Intel SDM, volume 2A). */
  lemma LegacyPrefixes(bits: int)
    ensures PrefixByte(bits, Lock) == Some(0xF0)
    ensures forall p :: p in {Repne, Bnd, Xacquire} ==> PrefixByte(bits, p) == Some(0xF2)
    ensures forall p :: p in {Rep, Xrelease} ==> PrefixByte(bits, p) == Some(0xF3)
    ensures (PrefixByte(bits, Es), PrefixByte(bits, Cs), PrefixByte(bits, Ss), PrefixByte(bits, Ds))
         == (Some(0x26), Some(0x2E), Some(0x36), Some(0x3E))
    ensures (PrefixByte(bits, Fs), PrefixByte(bits, Gs)) == (Some(0x64), Some(0x65))
    ensures PrefixByte(bits, WaitPrefix) == Some(0x9B)
  {
  }
}
