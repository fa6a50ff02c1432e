/** calcsize, emit_rex, emit_prefix and gencode of assemble.c, over the raw bytecode. */
module Encoder {
  import opened Labels
  import opened Output
  import opened Bytecode
  import opened Encode
  import opened EncodeSizes

  /** `struct out_data`: where output goes, and how far into the instruction it is. */
  class OutData {
    var offset: int
    var insoffs: int
    var inslen: int
    var cells: seq<Cell>

    constructor (start: int)
      ensures offset == start && insoffs == 0 && inslen == 0 && cells == []
    {
      offset, insoffs, inslen, cells := start, 0, 0, [];
    }

    /** out */
    method Out(c: seq<Cell>)
      modifies this
      ensures cells == old(cells) + c && inslen == old(inslen)
      ensures offset == old(offset) + |c| && insoffs == old(insoffs) + |c|
    {
      cells := cells + c;
      offset := offset + |c|;
      insoffs := insoffs + |c|;
    }

    /** The end of the instruction, as out_reladdr computes it. */
    function RelBase(): int
      reads this
    {
      offset + (inslen - insoffs)
    }
  }

  /** The fields of an `insn` that the two interpreters share. */
  class Insn {
    const i: Instruction
    var rex: Rex
    var prefixes: Prefixes
    var vexreg: int
    var cm: int
    var wlp: int
    var high16: bool
    var rexDone: bool

    constructor (i: Instruction, p: Prefixes)
      ensures this.i == i && prefixes == p
    {
      this.i := i;
      rex, prefixes, vexreg, cm, wlp, high16, rexDone := NO_REX, p, 0, 0, 0, false, false;
    }

    ghost function Now(kind: nat): Work
      reads this
    {
      Work(rex, prefixes, vexreg, cm, wlp, high16, kind)
    }

    // ----- emit_prefix -----

    /** emit_prefix; without a destination it only counts. */
    method EmitPrefix(data: OutData?) returns (count: nat)
      modifies data
      ensures count == |PrefixBytes(i.bits, prefixes)|
      ensures data != null ==>
                && data.cells == old(data.cells) + Raws(PrefixBytes(i.bits, prefixes))
                && data.offset - data.insoffs == old(data.offset - data.insoffs)
                && data.insoffs == old(data.insoffs) + count && data.inslen == old(data.inslen)
    {
      count := 0;
      var j := 0;
      while j < 7
        invariant 0 <= j <= 7 && count == |PrefixBytes(i.bits, prefixes[..j])|
        invariant data != null ==>
                    && data.cells == old(data.cells) + Raws(PrefixBytes(i.bits, prefixes[..j]))
                    && data.offset - data.insoffs == old(data.offset - data.insoffs)
                    && data.insoffs == old(data.insoffs) + count && data.inslen == old(data.inslen)
      {
        assert prefixes[..j + 1][..j] == prefixes[..j];
        var c := PrefixByte(i.bits, prefixes[j]);
        if c.Some? {
          RawsAppend(PrefixBytes(i.bits, prefixes[..j]), c.value);
          if data != null {
            data.Out([Raw(c.value)]);
          }
          count := count + 1;
        }
        j := j + 1;
      }
      assert prefixes[..7] == prefixes;
    }

    // ----- calcsize -----

    /** One code of calcsize: the fields are updated in place, the locals returned. */
    method SizeOne(c: Code, length0: int, keepW0: bool, kind0: nat)
      returns (length: int, keepW: bool, kind: nat, ok: bool)
      modifies this
      ensures Sizing(Now(kind), length, keepW, ok) == SizeStep(i, old(Sizing(Now(kind0), length0, keepW0, true)), c)
    {
      length, keepW, kind, ok := length0, keepW0, kind0, true;
      if Prefixing(c) {
        keepW := SizePrefixing(c, length, keepW, kind);
      } else if Introducing(c) {
        SizeIntroducing(c, length, keepW, kind);
      } else if Addressing(c) {
        length, ok := SizeAddressing(c, length, keepW, kind);
      } else {
        hide RegisterRex, Rex.Or, FixedSize;
        match c {
          case PlusRegister(op, _) =>
            rex := rex.Or(RegisterRex(i.Op(op).register));
            length := length + 1;
          case ModRM(_, _) =>
            var ea := i.ea(c, rex.ev);
            if ea.kind != kind {
              ok := false;
            } else {
              rex := rex.Or(ea.rex);
              length := length + ea.Size();
              high16 := high16 || ea.high16;
            }
          case Vsib(k) => kind := k + 1;
          case _ => length := length + FixedSize(i, c);
        }
      }
    }

    /** The codes that set prefixes and operand-size flags. */
    method SizePrefixing(c: Code, ghost length: int, keepW0: bool, ghost kind: nat) returns (keepW: bool)
      requires Prefixing(c)
      modifies this
      ensures Sizing(Now(kind), length, keepW, true) == SizeStep(i, old(Sizing(Now(kind), length, keepW0, true)), c)
    {
      hide Rex.Or;
      keepW := keepW0;
      match c {
        case Operand16 => Complete(OSIZE, O16);
        case Operand32 => Complete(OSIZE, O32);
        case MustRep => Complete(REP, Rep);
        case MustRepne => Complete(REP, Repne);
        case Wait => Complete(WAIT, WaitPrefix);
        case NoRexW => keepW := false;
        case NoHigh => rex := rex.Or(NO_REX.(nh := true));
      }
    }

    /** The codes that fix the address size. */
    method SizeAddressing(c: Code, length0: int, ghost keepW: bool, ghost kind: nat) returns (length: int, ok: bool)
      requires Addressing(c)
      ensures Sizing(Now(kind), length, keepW, ok) == SizeStep(i, Sizing(Now(kind), length0, keepW, true), c)
    {
      length, ok := length0, true;
      match c {
        case Address16 =>
          if i.bits == 64 {
            ok := false;
          } else if i.bits != 16 && prefixes[ASIZE] != A16 {
            length := length + 1;
          }
        case Address32 =>
          if i.bits != 32 && prefixes[ASIZE] != A32 {
            length := length + 1;
          }
        case Address64 => ok := i.bits == 64 && prefixes[ASIZE] != A16 && prefixes[ASIZE] != A32;
      }
    }

    /** The codes that only set flags of `ins->rex`, and the vector introducers. */
    method SizeIntroducing(c: Code, ghost length: int, ghost keepW: bool, ghost kind: nat)
      requires Introducing(c)
      modifies this
      ensures Sizing(Now(kind), length, keepW, true) == SizeStep(i, old(Sizing(Now(kind), length, keepW, true)), c)
    {
      hide Rex.Or, SourceRegister;
      match c {
        case Evex(source, newCm, newWlp, _) =>
          rex := rex.Or(NO_REX.(ev := true));
          vexreg, cm, wlp := SourceRegister(i, source), newCm, newWlp;
        case Vex(source, newCm, newWlp) =>
          rex := rex.Or(NO_REX.(v := true));
          vexreg, cm, wlp := SourceRegister(i, source), newCm, newWlp;
        case WithRexW => rex := rex.Or(NO_REX.(w := true));
        case LockAsRexR => rex := rex.Or(NO_REX.(l := true));
      }
    }

    /** Sets a prefix that is not given yet. */
    method Complete(at: nat, p: Prefix)
      requires at < 7
      modifies this`prefixes
      ensures prefixes == if old(prefixes[at]) == Empty then old(prefixes)[at := p] else old(prefixes)
    {
      if prefixes[at] == Empty {
        prefixes := prefixes[at := p];
      }
    }

    /** calcsize: -1 for an instruction that cannot be encoded. */
    method Calcsize(t: bytes) returns (size: int, ghost kind: nat)
      requires Codes(t, 0, 0).Some?
      modifies this
      ensures var s := Encode.Calcsize(i, old(prefixes), Codes(t, 0, 0).value);
              && (s.ok ==> size == s.length && Now(kind) == s.work)
              && (!s.ok ==> size == -1)
    {
      hide SizeStep, Finish, Codes, Dispatch;
      rex := NO_REX.(w := prefixes[OSIZE] == O64);
      vexreg, cm, wlp, high16 := 0, 0, 0, false;
      var pos, opex := 0, 0;
      var length, keepW, eat, ok := 0, true, 0, true;
      ghost var codes := Codes(t, 0, 0).value;
      ghost var s0 := Encode.Start(prefixes);
      CodesStep(t, pos, opex);
      while t[pos] != 0
        invariant 0 <= pos < |t| && (opex == 0 || 5 <= opex <= 7) && ok
        invariant Codes(t, pos, opex).Some? && CodesStepOk(t, pos, opex)
        invariant SizeCodes(i, Sizing(Now(eat), length, keepW, ok), Codes(t, pos, opex).value)
               == SizeCodes(i, s0, codes)
        decreases |t| - pos
      {
        var c := t[pos];
        CodesStep(t, pos, opex);
        if 5 <= c <= 7 {
          opex := c;
          pos := pos + 1;
        } else {
          var code := Fetch(t, pos, opex);
          ghost var s := Sizing(Now(eat), length, keepW, true);
          ghost var rest := Codes(t, pos + 1 + Trailing(c), 0).value;
          SizeCodesStep(i, s, code, rest);
          length, keepW, eat, ok := SizeOne(code, length, keepW, eat);
          opex := 0;
          pos := pos + 1 + Trailing(c);
          if !ok {
            FailureStays(i, SizeStep(i, s, code), rest);
            FailedFinish(i, SizeCodes(i, s0, codes));
            return -1, eat;
          }
        }
        CodesStep(t, pos, opex);
      }
      CodesStep(t, pos, opex);
      NoMoreCodes(i, Sizing(Now(eat), length, keepW, ok));
      ghost var u := Sizing(Now(eat), length, keepW, ok);
      size := Conclude(length, keepW, eat);
      kind := eat;
    }

    /** The part of calcsize after the loop. */
    method Conclude(length: int, keepW: bool, ghost kind: nat) returns (size: int)
      modifies this
      ensures var s := Finish(i, old(Sizing(Now(kind), length, keepW, true)));
              && (s.ok ==> size == s.length && Now(kind) == s.work)
              && (!s.ok ==> size == -1)
    {
      hide FinishRex, FinishVector, Rex.Vector, Settle;
      var ok := SettleRex(length, keepW, kind);
      if !ok {
        return -1;
      }
      if rex.Vector() {
        size := ConcludeVector(length, keepW, kind);
      } else {
        size := ConcludeRex(length, keepW, kind);
      }
    }

    method SettleRex(ghost length: int, keepW: bool, ghost kind: nat) returns (ok: bool)
      modifies this`rex
      ensures var s := Settle(old(Sizing(Now(kind), length, keepW, true)));
              ok == s.ok && (ok ==> s == Sizing(Now(kind), length, keepW, true))
    {
      var r := rex.(w := rex.w && keepW);
      if r.nh {
        if r.h {
          return false;
        }
        r := r.(p := false);
      }
      rex := r;
      var vex := prefixes[VEX];
      return !((vex == ForceEvex && !r.ev) || ((vex == Vex3 || vex == Vex2) && !r.v));
    }

    method ConcludeRex(length: int, ghost keepW: bool, ghost kind: nat) returns (size: int)
      modifies this
      ensures var s := FinishRex(i, old(Sizing(Now(kind), length, keepW, true)));
              && (s.ok ==> size == s.length && Now(kind) == s.work)
              && (!s.ok ==> size == -1)
    {
      hide FinishPrefixes;
      var n := 0;
      if rex.Mask() {
        if rex.h {
          return -1;
        } else if i.bits == 64 || (rex.l && !(rex.p || rex.w || rex.x || rex.b) && i.cpu64) {
          n := 1;
        } else {
          return -1;
        }
      }
      PrefixesAlwaysFit(i, Sizing(Now(kind), length + n, keepW, true));
      size := ConcludePrefixes(length + n, keepW, kind);
    }

    method ConcludeVector(length: int, ghost keepW: bool, ghost kind: nat) returns (size: int)
      requires rex.Vector()
      modifies this
      ensures var s := FinishVector(i, old(Sizing(Now(kind), length, keepW, true)));
              && (s.ok ==> size == s.length && Now(kind) == s.work)
              && (!s.ok ==> size == -1)
    {
      hide FinishPrefixes, VexLength, VectorFits, VectorRex, Announced;
      SettleW(kind);
      var ok := CheckVector(kind);
      if !ok {
        return -1;
      }
      var n := VectorLength(kind);
      PrefixesAlwaysFit(i, Sizing(Now(kind), length + n, keepW, true));
      size := ConcludePrefixes(length + n, keepW, kind);
    }

    method CheckVector(ghost kind: nat) returns (ok: bool)
      ensures ok == VectorFits(i, Now(kind))
    {
      if rex.h {
        return false;
      }
      if i.bits != 64 && (rex.r || rex.x || rex.b || (rex.w && wlp / 16 % 4 != 1) || vexreg > 7) {
        return false;
      }
      return rex.ev || !(vexreg > 15 || high16);
    }

    method SettleW(ghost kind: nat)
      modifies this`rex
      ensures rex == VectorRex(old(Now(kind))) && rex.Vector() == old(rex.Vector())
    {
      var field := wlp / 16 % 4;
      if field == 0 || field == 2 {
        rex := rex.(w := false);
      } else if field == 1 {
        rex := rex.(w := true);
      }
    }

    method VectorLength(ghost kind: nat) returns (n: nat)
      requires rex.Vector()
      ensures n == Announced(Now(kind))
    {
      if rex.ev {
        n := 4;
      } else if cm != 1 || rex.w || rex.x || rex.b || prefixes[VEX] == Vex3 {
        n := 3;
      } else {
        n := 2;
      }
    }

    method ConcludePrefixes(length: int, ghost keepW: bool, ghost kind: nat) returns (size: int)
      modifies this
      ensures var s := FinishPrefixes(i, old(Sizing(Now(kind), length, keepW, true)));
              size == s.length && Now(kind) == s.work
    {
      hide PrefixBytes;
      if i.bndDefault && prefixes[REP] != NoBnd {
        prefixes := prefixes[REP := Bnd];
      }
      var n := EmitPrefix(null);
      return length + n;
    }

    // ----- gencode -----

    /** emit_rex */
    method EmitRexByte(data: OutData, ghost kind: nat)
      modifies this`rexDone, data
      ensures Gen(Now(kind), rexDone, data.cells) == EmitRex(i, old(Gen(Now(kind), rexDone, data.cells)))
      ensures data.RelBase() == old(data.RelBase()) && data.inslen == old(data.inslen)
      ensures data.offset - data.insoffs == old(data.offset - data.insoffs)
      ensures data.insoffs - |data.cells| == old(data.insoffs - |data.cells|)
    {
      if i.bits == 64 && rex.Mask() && !rex.Vector() && !rexDone {
        data.Out([Raw(RexByte(rex))]);
        rexDone := true;
      }
    }

    /** One code of gencode. */
    method GenOne(data: OutData, c: Code, kind0: nat, ghost place: Place) returns (kind: nat)
      requires data.RelBase() == place.start + place.length
      modifies this, data
      ensures Gen(Now(kind), rexDone, data.cells) == GenStep(i, place, old(Gen(Now(kind0), rexDone, data.cells)), c)
      ensures data.RelBase() == old(data.RelBase()) && data.inslen == old(data.inslen)
      ensures data.insoffs - |data.cells| == old(data.insoffs - |data.cells|)
    {
      hide GenStep;
      kind := kind0;
      if IsOpcode(c) {
        GenOpcode(data, c, kind, place);
      } else if RexChanging(c) {
        GenRex(data, c, kind, place);
      } else if Structural(c) {
        if c.Vsib? {
          kind := c.kind + 1;
          VsibStep(i, place, Gen(Now(kind0), rexDone, data.cells), c);
        } else {
          GenStructural(data, c, kind, place);
        }
      } else {
        GenField(data, c, kind, place);
      }
    }

    /** The codes that write one field of fixed size. */
    method GenField(data: OutData, c: Code, ghost kind: nat, ghost place: Place)
      requires data.RelBase() == place.start + place.length && !Structural(c)
      modifies data
      ensures Gen(Now(kind), rexDone, data.cells) == GenStep(i, place, old(Gen(Now(kind), rexDone, data.cells)), c)
      ensures data.RelBase() == old(data.RelBase()) && data.inslen == old(data.inslen)
      ensures data.insoffs - |data.cells| == old(data.insoffs - |data.cells|)
    {
      hide FieldCells;
      FieldIgnoresKind(i, Now(kind), c, data.RelBase());
      data.Out(FieldCells(i, Work(rex, prefixes, vexreg, cm, wlp, high16, 0), c, data.RelBase()));
    }

    /** Opcode bytes, with the REX byte before the first of them. */
    method GenOpcode(data: OutData, c: Code, ghost kind: nat, ghost place: Place)
      requires data.RelBase() == place.start + place.length && IsOpcode(c)
      modifies this`rexDone, data
      ensures Gen(Now(kind), rexDone, data.cells) == GenStep(i, place, old(Gen(Now(kind), rexDone, data.cells)), c)
      ensures data.RelBase() == old(data.RelBase()) && data.inslen == old(data.inslen)
      ensures data.insoffs - |data.cells| == old(data.insoffs - |data.cells|)
    {
      hide Raws, RexByte, Rex.Mask, Rex.Vector;
      EmitRexByte(data, kind);
      match c {
        case Literal(b) => data.Out(Raws(b));
        case PlusRegister(op, b) => data.Out([Raw((b + i.Op(op).register.value % 8) % 256)]);
      }
    }

    /** The codes that change the REX bits on the way. */
    method GenRex(data: OutData, c: Code, ghost kind: nat, ghost place: Place)
      requires data.RelBase() == place.start + place.length && RexChanging(c)
      modifies this`rex, data
      ensures Gen(Now(kind), rexDone, data.cells) == GenStep(i, place, old(Gen(Now(kind), rexDone, data.cells)), c)
      ensures data.RelBase() == old(data.RelBase()) && data.inslen == old(data.inslen)
      ensures data.insoffs - |data.cells| == old(data.insoffs - |data.cells|)
    {
      match c {
        case Address64 => rex := NO_REX;
        case WithRexW => rex := rex.(w := true);
        case LockAsRexR =>
          if rex.r {
            data.Out([Raw(0xF0)]);
          }
          rex := rex.(l := false, r := false);
      }
    }

    /** The other codes that read the state of the instruction. */
    method GenStructural(data: OutData, c: Code, ghost kind: nat, ghost place: Place)
      requires data.RelBase() == place.start + place.length
      requires Structural(c) && !c.Vsib? && !IsOpcode(c) && !RexChanging(c)
      modifies data
      ensures Gen(Now(kind), rexDone, data.cells) == GenStep(i, place, old(Gen(Now(kind), rexDone, data.cells)), c)
      ensures data.RelBase() == old(data.RelBase()) && data.inslen == old(data.inslen)
      ensures data.insoffs - |data.cells| == old(data.insoffs - |data.cells|)
    {
      hide ImmediateField, RelativeField, RexByte, Raws, EaCells;
      match c {
        case ModRM(op, _) => GenEa(data, op, i.ea(c, rex.ev));
        case Evex(_, _, _, _) => data.Out([Raw(0x62), EvexPayload(0), EvexPayload(1), EvexPayload(2)]);
        case Vex(_, _, _) =>
          VexBytesIgnoreKind(Now(kind));
          data.Out(Raws(VexBytes(Work(rex, prefixes, vexreg, cm, wlp, high16, 0))));
        case Address16 =>
          if i.bits == 32 && prefixes[ASIZE] != A16 {
            data.Out([Raw(0x67)]);
          }
        case Address32 =>
          if i.bits != 32 && prefixes[ASIZE] != A32 {
            data.Out([Raw(0x67)]);
          }
        case Reserve =>
          if i.Op(0).segment == NO_SEG {
            data.Out(seq(Unsigned64(i.Op(0).offset), k => Reserved));
          }
      }
    }

    /** ModRM, SIB, and the displacement in one of its four shapes. */
    method GenEa(data: OutData, op: nat, ea: Ea)
      modifies data
      ensures data.cells == old(data.cells) + EaCells(i, op, ea, old(data.RelBase()))
      ensures data.RelBase() == old(data.RelBase()) && data.inslen == old(data.inslen)
      ensures data.insoffs - |data.cells| == old(data.insoffs - |data.cells|)
    {
      hide ImmediateField, RelativeField;
      data.Out([Raw(ea.modrm)] + if ea.sib.Some? then [Raw(ea.sib.value)] else []);
      match ea.disp {
        case NoDisplacement =>
        case Compressed(b) => data.Out([Raw(b)]);
        case RipRelative(n) => data.Out(RelativeField(i, i.Op(op), n, data.RelBase()));
        case Plain(n) => data.Out(ImmediateField(i, i.Op(op), n));
      }
    }

    /** gencode */
    method Gencode(data: OutData, t: bytes)
      requires Codes(t, 0, 0).Some? && data.insoffs == 0 && data.cells == []
      modifies this, data
      ensures data.cells
           == Encode.Gencode(i, Place(old(data.offset), old(data.inslen)), old(Now(0)), Codes(t, 0, 0).value).out
      ensures data.insoffs == |data.cells| && data.inslen == old(data.inslen)
    {
      hide GenStep, Codes, Dispatch, PrefixBytes;
      rexDone := false;
      ghost var place := Place(data.offset, data.inslen);
      ghost var codes := Codes(t, 0, 0).value;
      var _ := EmitPrefix(data);
      assert data.cells == Raws(PrefixBytes(i.bits, prefixes));
      var pos, opex, eat := 0, 0, 0;
      ghost var g0 := Gen(Now(0), false, data.cells);
      CodesStep(t, pos, opex);
      while t[pos] != 0
        invariant 0 <= pos < |t| && (opex == 0 || 5 <= opex <= 7)
        invariant Codes(t, pos, opex).Some? && CodesStepOk(t, pos, opex)
        invariant GenCodes(i, place, Gen(Now(eat), rexDone, data.cells), Codes(t, pos, opex).value)
               == GenCodes(i, place, g0, codes)
        invariant data.RelBase() == place.start + place.length
        invariant data.insoffs == |data.cells| && data.inslen == place.length
        decreases |t| - pos
      {
        var c := t[pos];
        CodesStep(t, pos, opex);
        if 5 <= c <= 7 {
          opex := c;
          pos := pos + 1;
        } else {
          var code := Fetch(t, pos, opex);
          GenCodesStep(i, place, Gen(Now(eat), rexDone, data.cells), code, Codes(t, pos + 1 + Trailing(c), 0).value);
          eat := GenOne(data, code, eat, place);
          opex := 0;
          pos := pos + 1 + Trailing(c);
        }
        CodesStep(t, pos, opex);
      }
      CodesStep(t, pos, opex);
      NoMoreGen(i, place, Gen(Now(eat), rexDone, data.cells));
    }

    /** The two halves of assemble: for a regular template the emitted length is the announced
        one exactly when no operand is written narrower and the prefixes balance. */
    method Assemble(t: bytes, start: int) returns (size: int, data: OutData)
      requires Codes(t, 0, 0).Some? && i.bits in {16, 32, 64} && PlainEas(i)
      modifies this
      ensures size >= 0 ==> data.inslen == size
      ensures var codes := Codes(t, 0, 0).value;
              var s := Encode.Calcsize(i, old(prefixes), codes);
              s.ok && s.length >= 0 ==>
                && size == s.length
                && (Regular(codes) && CountedReserve(i, codes) ==>
                      (data.insoffs == size <==> NoNarrowQword(i, codes) && PrefixesBalance(i, s.work, codes)))
                && (Disciplined(i, s.work.rex, codes) ==>
                      (data.insoffs == size <==> NoNarrowQword(i, codes) && !MissingRex(i, s.work, codes)))
    {
      hide Encode.Calcsize, Encode.Gencode, Disciplined, Regular, CountedReserve, NoNarrowQword, MissingRex,
        PrefixesBalance, Codes, PlainEas;
      data := new OutData(start);
      ghost var p := prefixes;
      ghost var kind;
      size, kind := Calcsize(t);
      if size >= 0 {
        data.inslen := size;
        ghost var w, codes := Now(kind), Codes(t, 0, 0).value;
        GencodeIgnoresKind(i, Place(start, size), w, codes);
        Gencode(data, t);
        if Encode.Calcsize(i, p, codes).ok {
          if Regular(codes) && CountedReserve(i, codes) {
            GencodeMatchesIff(i, p, codes, start);
          }
          if Disciplined(i, w.rex, codes) {
            DisciplinedMatchesIff(i, p, codes, start);
          }
        }
      }
    }
  }

  predicate Addressing(c: Code) {
    c.Address16? || c.Address32? || c.Address64?
  }

  predicate RexChanging(c: Code) {
    c.Address64? || c.WithRexW? || c.LockAsRexR?
  }

  predicate Introducing(c: Code) {
    c.Evex? || c.Vex? || c.WithRexW? || c.LockAsRexR?
  }

  // ----- reading the bytecode -----

  /** The code at `pos`, with its trailing bytes. */
  function Fetch(t: bytes, pos: nat, opex: int): Code
    requires pos < |t| && (opex == 0 || 5 <= opex <= 7)
    requires CodesStepOk(t, pos, opex) && t[pos] != 0 && !(5 <= t[pos] <= 7)
  {
    var n := Trailing(t[pos]);
    if t[pos] <= 4 then Literal(t[pos + 1..pos + 1 + n])
    else Dispatch(t[pos], opex, (t[pos + 1..pos + 1 + n] + [0, 0, 0])[..3]).value
  }

  /** What the reader can rely on at a position of a sound template. */
  predicate CodesStepOk(t: bytes, pos: nat, opex: int)
    requires pos < |t| && (opex == 0 || 5 <= opex <= 7)
  {
    t[pos] != 0 && !(5 <= t[pos] <= 7) ==>
      var n := Trailing(t[pos]);
      && pos + 1 + n <= |t|
      && (t[pos] > 4 ==> Dispatch(t[pos], opex, (t[pos + 1..pos + 1 + n] + [0, 0, 0])[..3]).Some?)
  }

  lemma CodesStep(t: bytes, pos: nat, opex: int)
    requires pos <= |t| && (opex == 0 || 5 <= opex <= 7) && Codes(t, pos, opex).Some?
    ensures pos < |t| && CodesStepOk(t, pos, opex)
    ensures t[pos] == 0 ==> Codes(t, pos, opex).value == []
    ensures 5 <= t[pos] <= 7 ==> Codes(t, pos + 1, t[pos]) == Codes(t, pos, opex)
    ensures t[pos] != 0 && !(5 <= t[pos] <= 7) ==>
              var rest := Codes(t, pos + 1 + Trailing(t[pos]), 0);
              rest.Some? && Codes(t, pos, opex).value == [Fetch(t, pos, opex)] + rest.value
  {
    hide Dispatch;
  }

  lemma RawsAppend(b: seq<int>, x: int)
    ensures Raws(b + [x]) == Raws(b) + [Raw(x)]
  {
  }

  lemma SizeCodesStep(i: Instruction, s: Sizing, c: Code, rest: seq<Code>)
    ensures SizeCodes(i, s, [c] + rest) == SizeCodes(i, SizeStep(i, s, c), rest)
  {
    assert ([c] + rest)[1..] == rest;
  }

  lemma GenCodesStep(i: Instruction, place: Place, g: Gen, c: Code, rest: seq<Code>)
    ensures GenCodes(i, place, g, [c] + rest) == GenCodes(i, place, GenStep(i, place, g, c), rest)
  {
    assert ([c] + rest)[1..] == rest;
  }

  lemma NoMoreCodes(i: Instruction, s: Sizing)
    ensures SizeCodes(i, s, []) == s
  {
  }

  lemma NoMoreGen(i: Instruction, place: Place, g: Gen)
    ensures GenCodes(i, place, g, []) == g
  {
  }

  lemma PrefixesAlwaysFit(i: Instruction, s: Sizing)
    requires s.ok
    ensures FinishPrefixes(i, s).ok
  {
  }

  lemma FieldIgnoresKind(i: Instruction, w: Work, c: Code, end: int)
    ensures FieldCells(i, w.(kind := 0), c, end) == FieldCells(i, w, c, end)
  {
  }

  lemma VexBytesIgnoreKind(w: Work)
    ensures VexBytes(w.(kind := 0)) == VexBytes(w)
  {
  }

  lemma VsibStep(i: Instruction, place: Place, g: Gen, c: Code)
    requires c.Vsib?
    ensures GenStep(i, place, g, c) == g.(work := g.work.(kind := c.kind + 1))
  {
  }

  lemma FailedFinish(i: Instruction, s: Sizing)
    requires !s.ok
    ensures !Finish(i, s).ok
  {
  }

  /** The kind left over from calcsize plays no part in gencode. */
  lemma GencodeIgnoresKind(i: Instruction, place: Place, w: Work, codes: seq<Code>)
    ensures Encode.Gencode(i, place, w.(kind := 0), codes) == Encode.Gencode(i, place, w, codes)
  {
  }
}
