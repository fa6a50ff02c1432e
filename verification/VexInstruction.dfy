/** Instructions behind a VEX prefix, read back from the cells that gencode emits. */
module VexInstruction {
  import opened Wrappers
  import opened Bytes
  import opened Output
  import opened Bytecode
  import opened Encode
  import opened EncodeSizes
  import opened InstructionDecode
  import Ea = EffectiveAddress
  import Vex = VexPrefix

  /** A template of a VEX code, an opcode and an operand; only plain fields follow. */
  predicate VexForm(codes: seq<Code>) {
    && |codes| >= 3 && codes[0].Vex? && codes[0].cm >= 0 && codes[0].wlp >= 0
    && codes[1].Literal? && |codes[1].bytes| > 0 && codes[2].ModRM?
    && Fields(codes[3..])
  }

  lemma VexParts(codes: seq<Code>)
    requires VexForm(codes)
    ensures |codes| >= 3 && codes[0].Vex? && codes[0].cm >= 0 && codes[0].wlp >= 0
    ensures codes[1].Literal? && |codes[1].bytes| > 0 && codes[2].ModRM?
  {
  }

  /** W as the template's W field has it: fixed, ignored, or the operand's. */
  predicate WBit(wlp: int, p: Prefixes, ea: Encode.Ea) {
    var ww := wlp / 16 % 4;
    ww == 1 || (ww == 3 && (AsksWide(p) || ea.rex.w))
  }

  // ----- calcsize -----

  lemma VexStep(i: Instruction, p: Prefixes, c: Code, d: Code, e: Code)
    requires c.Vex? && d.Literal? && e.ModRM? && PlainRex(i.ea(e, false).rex)
    requires SizeStep(i, SizeStep(i, SizeStep(i, Start(p), c), d), e).ok
    ensures var t := SizeStep(i, SizeStep(i, SizeStep(i, Start(p), c), d), e);
            && t.keepW && t.work.prefixes == p && t.work.cm == c.cm && t.work.wlp == c.wlp
            && t.work.vexreg == SourceRegister(i, c.source)
            && t.work.rex == OperandRex(p, i.ea(e, false)).(v := true)
  {
    hide FixedSize, SourceRegister;
  }

  lemma VexFinish(i: Instruction, s: Sizing)
    requires Finish(i, s).ok && s.keepW && s.work.rex.v && !s.work.rex.ev && !s.work.rex.nh
    ensures var w, ww := Finish(i, s).work, s.work.wlp / 16 % 4;
            && w.rex == s.work.rex.(w := ww == 1 || (s.work.rex.w && ww != 0 && ww != 2))
            && w.cm == s.work.cm && w.wlp == s.work.wlp && w.vexreg == s.work.vexreg && w.vexreg <= 15
  {
    hide PrefixBytes, VexLength;
  }

  lemma VexSized(i: Instruction, p: Prefixes, codes: seq<Code>)
    requires VexForm(codes) && Calcsize(i, p, codes).ok && PlainRex(i.ea(codes[2], false).rex)
    ensures var w, ea := Calcsize(i, p, codes).work, i.ea(codes[2], false);
            && w.cm == codes[0].cm && w.wlp == codes[0].wlp
            && w.vexreg == SourceRegister(i, codes[0].source) <= 15
            && w.rex.v && !w.rex.ev && w.rex.r == ea.rex.r && w.rex.x == ea.rex.x && w.rex.b == ea.rex.b
            && (w.rex.w <==> WBit(codes[0].wlp, p, ea))
  {
    hide SizeStep, Finish, Fields, SourceRegister;
    var s1 := SizeStep(i, Start(p), codes[0]);
    var s2 := SizeStep(i, s1, codes[1]);
    var s3 := SizeStep(i, s2, codes[2]);
    assert codes[1..][1..] == codes[2..] && codes[2..][1..] == codes[3..];
    assert codes[1..][0] == codes[1] && codes[2..][0] == codes[2];
    assert SizeCodes(i, Start(p), codes) == SizeCodes(i, s1, codes[1..]);
    assert SizeCodes(i, s1, codes[1..]) == SizeCodes(i, s3, codes[3..]);
    if !s3.ok {
      FailureStays(i, s3, codes[3..]);
      FinishNeedsOk(i, s3);
    }
    VexStep(i, p, codes[0], codes[1], codes[2]);
    FieldsSize(i, s3, codes[3..]);
    VexFinish(i, SizeCodes(i, s3, codes[3..]));
  }

  /** The VEX instructions that can be encoded: not with the EVEX form demanded, with no AH to
      BH, and outside 64-bit mode with nothing that only 64-bit mode has. */
  lemma VexAcceptedIff(i: Instruction, p: Prefixes, codes: seq<Code>)
    requires VexForm(codes) && PlainRex(i.ea(codes[2], false).rex)
    ensures var c, ea, source := codes[0], i.ea(codes[2], false), SourceRegister(i, codes[0].source);
            Calcsize(i, p, codes).ok <==>
              && ea.kind == 0 && p[VEX] != ForceEvex && !ea.rex.h && !ea.high16 && source <= 15
              && (i.bits != 64 ==> !ea.rex.r && !ea.rex.x && !ea.rex.b && source <= 7
                                   && (c.wlp / 16 % 4 == 3 ==> !AsksWide(p) && !ea.rex.w))
  {
    hide SizeStep, Finish, Fields, SourceRegister;
    var s1 := SizeStep(i, Start(p), codes[0]);
    var s2 := SizeStep(i, s1, codes[1]);
    var s3 := SizeStep(i, s2, codes[2]);
    assert codes[1..][1..] == codes[2..] && codes[2..][1..] == codes[3..];
    assert codes[1..][0] == codes[1] && codes[2..][0] == codes[2];
    assert SizeCodes(i, Start(p), codes) == SizeCodes(i, s1, codes[1..]);
    assert SizeCodes(i, s1, codes[1..]) == SizeCodes(i, s3, codes[3..]);
    VexOperand(i, p, codes[0], codes[1], codes[2]);
    if s3.ok {
      VexStep(i, p, codes[0], codes[1], codes[2]);
      FieldsSize(i, s3, codes[3..]);
      VexFinishAccepts(i, p, i.ea(codes[2], false), SizeCodes(i, s3, codes[3..]));
    } else {
      FailureStays(i, s3, codes[3..]);
      FailedFinishes(i, SizeCodes(i, s3, codes[3..]));
    }
  }

  lemma VexOperand(i: Instruction, p: Prefixes, c: Code, d: Code, e: Code)
    requires c.Vex? && d.Literal? && e.ModRM?
    ensures var t := SizeStep(i, SizeStep(i, SizeStep(i, Start(p), c), d), e);
            && (t.ok <==> i.ea(e, false).kind == 0)
            && (t.ok ==> t.work.high16 == i.ea(e, false).high16)
  {
    hide FixedSize, SourceRegister;
  }

  lemma VexFinishAccepts(i: Instruction, p: Prefixes, ea: Encode.Ea, s: Sizing)
    requires PlainRex(ea.rex) && s.ok && s.keepW && s.work.prefixes == p && s.work.high16 == ea.high16
    requires s.work.rex == OperandRex(p, ea).(v := true)
    ensures Finish(i, s).ok <==>
              && p[VEX] != ForceEvex && !ea.rex.h && !ea.high16 && s.work.vexreg <= 15
              && (i.bits != 64 ==> !ea.rex.r && !ea.rex.x && !ea.rex.b && s.work.vexreg <= 7
                                   && (s.work.wlp / 16 % 4 == 3 ==> !AsksWide(p) && !ea.rex.w))
  {
    hide PrefixBytes, VexLength, Settle, VectorRex, VectorFits, OperandRex;
    VexSettles(p, ea, s);
    VexFits(i, p, ea, s.work);
  }

  lemma VexSettles(p: Prefixes, ea: Encode.Ea, s: Sizing)
    requires PlainRex(ea.rex) && s.ok && s.keepW && s.work.prefixes == p
    requires s.work.rex == OperandRex(p, ea).(v := true)
    ensures Settle(s) == s.(ok := p[VEX] != ForceEvex) && s.work.rex.Vector()
  {
  }

  lemma VexFits(i: Instruction, p: Prefixes, ea: Encode.Ea, w: Work)
    requires PlainRex(ea.rex) && w.high16 == ea.high16 && w.rex == OperandRex(p, ea).(v := true)
    ensures VectorFits(i, w.(rex := VectorRex(w))) <==>
              && !ea.rex.h && !ea.high16 && w.vexreg <= 15
              && (i.bits != 64 ==> !ea.rex.r && !ea.rex.x && !ea.rex.b && w.vexreg <= 7
                                   && (w.wlp / 16 % 4 == 3 ==> !AsksWide(p) && !ea.rex.w))
  {
  }

  // ----- gencode -----

  lemma VexEmitted(i: Instruction, place: Place, w: Work, codes: seq<Code>)
    requires VexForm(codes) && w.rex.v && !w.rex.ev
    ensures Gencode(i, place, w, codes).out
         == Raws(PrefixBytes(i.bits, w.prefixes)) + Raws(VexBytes(w.(kind := 0))) + Raws(codes[1].bytes)
            + EaCells(i, codes[2].op, i.ea(codes[2], false), place.start + place.length)
            + FieldsCells(i, w.(kind := 0), codes[3..], place.start + place.length)
  {
    hide FieldCells, FieldsCells, EaCells, RexByte, PrefixBytes, VexBytes, Fields, GenStep;
    var g0 := Gen(w.(kind := 0), false, Raws(PrefixBytes(i.bits, w.prefixes)));
    var g1 := GenStep(i, place, g0, codes[0]);
    var g2 := GenStep(i, place, g1, codes[1]);
    var g3 := GenStep(i, place, g2, codes[2]);
    assert codes[1..][1..] == codes[2..] && codes[2..][1..] == codes[3..];
    assert codes[1..][0] == codes[1] && codes[2..][0] == codes[2];
    assert GenCodes(i, place, g0, codes) == GenCodes(i, place, g1, codes[1..]);
    assert GenCodes(i, place, g1, codes[1..]) == GenCodes(i, place, g3, codes[3..]);
    VexSteps(i, place, g0, codes[0], codes[1], codes[2]);
    FieldsEmitted(i, place, g3, codes[3..]);
  }

  lemma VexSteps(i: Instruction, place: Place, g: Gen, c: Code, d: Code, e: Code)
    requires c.Vex? && d.Literal? && e.ModRM? && g.work.rex.v && !g.work.rex.ev
    ensures var t := GenStep(i, place, GenStep(i, place, GenStep(i, place, g, c), d), e);
            && t.work == g.work
            && t.out == g.out + Raws(VexBytes(g.work)) + Raws(d.bytes)
                        + EaCells(i, e.op, i.ea(e, false), place.start + place.length)
  {
    hide EaCells, RexByte, VexBytes;
  }

  /** The first `n` cells as bytes. */
  function ByteValues(cells: seq<Cell>, n: nat): seq<int>
    requires n <= |cells| && forall k :: 0 <= k < n ==> cells[k].Raw?
  {
    seq(n, k requires 0 <= k < n => cells[k].byte)
  }

  /** What stands behind the legacy prefixes: a VEX prefix with these fields, the opcode, and
      an operand. */
  ghost predicate VexReads(addrbits: int, cells: seq<Cell>, fields: Vex.Fields, xop: bool, op: seq<int>, r: Read) {
    exists n :: 2 <= n <= 3 && VexReadsAt(addrbits, cells, n, fields, xop, op, r)
  }

  ghost predicate VexReadsAt(addrbits: int, cells: seq<Cell>, n: nat, fields: Vex.Fields, xop: bool, op: seq<int>,
                             r: Read)
  {
    && 0 < n <= n + |op| <= |cells| && (forall k :: 0 <= k < n ==> cells[k].Raw? && 0 <= cells[k].byte < 256)
    && Vex.DecodeVex(ByteValues(cells, n)) == Some(fields) && (cells[0].byte == 0x8F <==> xop)
    && cells[n..n + |op|] == Raws(op)
    && ReadOperandAt(addrbits, cells, n + |op|, RexBits(fields.w, fields.r, fields.x, fields.b)) == Some(r)
  }

  lemma CellsRead(i: Instruction, addrbits: int, w: Work, op: seq<int>, k: nat, ea: Encode.Ea, end: int,
                  tail: seq<Cell>, fields: Vex.Fields)
    requires w.cm >= 0 && w.wlp >= 0
    requires fields == Vex.Fields(w.rex.r, w.rex.x, w.rex.b, w.rex.w, w.vexreg % 16, w.cm % 32, w.wlp % 8)
    requires (ea.sib.Some? <==> HasSib(addrbits, ea.modrm)) && ea.Width() == DispSize(addrbits, ea.modrm, ea.sib)
    ensures VexReads(addrbits, Raws(VexBytes(w)) + Raws(op) + EaCells(i, k, ea, end) + tail, fields, w.cm >= 64, op,
                     Read(RexBits(fields.w, fields.r, fields.x, fields.b), ea.modrm, ea.sib, DispCells(i, k, ea, end)))
  {
    hide VexBytes, EaCells, DispCells, HasSib, DispSize, ReadOperandAt, Vex.DecodeVex;
    Vex.VexPrefixDecodes(w);
    var v := VexBytes(w);
    var front := Raws(v) + Raws(op);
    var cells := front + EaCells(i, k, ea, end) + tail;
    VexLengths(w);
    OperandReads(i, addrbits, k, ea, end, front, tail, RexBits(fields.w, fields.r, fields.x, fields.b));
    assert cells == Raws(v) + Raws(op) + (EaCells(i, k, ea, end) + tail);
    FrontReads(v, op, EaCells(i, k, ea, end) + tail);
    var r := Read(RexBits(fields.w, fields.r, fields.x, fields.b), ea.modrm, ea.sib, DispCells(i, k, ea, end));
    assert VexReadsAt(addrbits, cells, |v|, fields, w.cm >= 64, op, r);
  }

  lemma FrontReads(v: seq<int>, op: seq<int>, rest: seq<Cell>)
    ensures var cells := Raws(v) + Raws(op) + rest;
            && |v| + |op| <= |cells| && (forall k :: 0 <= k < |v| ==> cells[k] == Raw(v[k]))
            && ByteValues(cells, |v|) == v && cells[|v|..|v| + |op|] == Raws(op)
  {
    var cells := Raws(v) + Raws(op) + rest;
    assert forall k :: 0 <= k < |v| ==> cells[k] == Raws(v)[k];
  }

  lemma VexLengths(w: Work)
    ensures |VexBytes(w)| in {2, 3}
  {
  }

  /**
    A VEX instruction with a memory operand: the prefix carries the extension bits, the W bit,
    the source register, the map and the fixed bits; read with them, the operand's address is
    the one that was written, for every valuation of the registers.
   */
  lemma VexMemoryDecodes(i: Instruction, m: Ea.Memory, addrbits: int, spare: Register, p: Prefixes, codes: seq<Code>,
                         start: int) returns (fields: Vex.Fields, r: Read, d: int)
    requires VexForm(codes) && Calcsize(i, p, codes).ok && i.bits in {16, 32, 64} && addrbits in {16, 32, 64}
    requires spare.value >= 0 && SourceRegister(i, codes[0].source) >= 0
    requires var ea := i.ea(codes[2], false);
             && Ea.WellFormed(addrbits, spare.value, ea) && Ea.SameRegisters(i.bits, addrbits, m, ea)
             && Ea.SpareFlags(spare, ea.rex) && OffsetOf(i, i.Op(codes[2].op), m, ea)
             && Ea.Fits(addrbits, m, ea, start + Calcsize(i, p, codes).length)
    ensures var s := Calcsize(i, p, codes);
            var out, n := Gencode(i, Place(start, s.length), s.work, codes).out, |PrefixBytes(i.bits, s.work.prefixes)|;
            && n <= |out| && out[..n] == Raws(PrefixBytes(i.bits, s.work.prefixes))
            && VexReads(addrbits, out[n..], fields, codes[0].cm >= 64, codes[1].bytes, r)
    ensures fields.source == SourceRegister(i, codes[0].source)
    ensures fields.opcodeMap == codes[0].cm % 32 && fields.lpp == codes[0].wlp % 8
    ensures fields.w <==> WBit(codes[0].wlp, p, i.ea(codes[2], false))
    ensures ReadSpare(r) == spare.value && Holds(r.disp, d)
    ensures forall v: Ea.Valuation ::
              (ReadAddress(v, i.bits, addrbits, r, d, start + Calcsize(i, p, codes).length) % Ea.Modulus(addrbits)
               == Ea.Meaning(v, m) % Ea.Modulus(addrbits))
  {
    hide *;
    VexParts(codes);
    var k, ea, s := codes[2].op, i.ea(codes[2], false), Calcsize(i, p, codes);
    var end, w := start + s.length, s.work;
    ShapeAgrees(addrbits, spare.value, ea);
    VexSized(i, p, codes);
    VexEmitted(i, Place(start, s.length), w, codes);
    fields := Vex.Fields(w.rex.r, w.rex.x, w.rex.b, w.rex.w, w.vexreg % 16, w.cm % 32, w.wlp % 8);
    r := Read(RexBits(fields.w, fields.r, fields.x, fields.b), ea.modrm, ea.sib, DispCells(i, k, ea, end));
    d := Ea.FieldValue(m, ea, end) % Power256(ea.Width());
    var tail := FieldsCells(i, w.(kind := 0), codes[3..], end);
    CellsRead(i, addrbits, w.(kind := 0), codes[1].bytes, k, ea, end, tail, fields);
    OutSplits(Raws(PrefixBytes(i.bits, w.prefixes)), Raws(VexBytes(w.(kind := 0))), Raws(codes[1].bytes),
              EaCells(i, k, ea, end), tail);
    DispHolds(i, k, m, ea, end);
    AddressReads(i, m, addrbits, ea, r, d, end);
    SpareReads(spare, ea, r);
  }
}
