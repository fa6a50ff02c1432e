/** process_ea and add_asp of assemble.c: addressing modes and the decoder they answer to. */
module EffectiveAddress {
  import opened Wrappers
  import opened Bytecode
  import opened Encode
  import opened EncodeSizes
  import Powers

  // ----- operands -----

  /** A register that is no vector register: its number, its size, whether it is a GPR. */
  datatype Reg = Reg(n: nat, bits: nat, gpr: bool)

  datatype Hint = NoHint | MakeBase(reg: Option<Reg>) | NotBase(reg: Option<Reg>) | Summed

  /** A memory operand `[base + index*scale + offset]` with the flags of the parser. */
  datatype Memory = Memory(
    base: Option<Reg>, index: Option<Reg>, scale: int, offset: int,
    absolute: bool, unknown: bool, relative: bool, ipRel: bool,
    byteOffs: bool, wordOffs: bool, timesTwo: bool, dispSize: int, hint: Hint)
  {
    /** A scale of zero means that there is no index. */
    function Index(): Option<Reg> {
      if scale == 0 then None else index
    }
  }

  const ESP := 4
  const EBP := 5
  const BX := 3
  const BP := 5
  const SI := 6
  const DI := 7

  // ----- numbers of fixed width -----

  /** Two to the number of bits of an address or a displacement. */
  function Modulus(bits: int): (m: nat)
    ensures m > 0
  {
    if bits == 8 then 0x100 else if bits == 16 then 0x1_0000
    else if bits == 32 then 0x1_0000_0000 else 0x1_0000_0000_0000_0000
  }

  /** The low bits of `v` as a signed number. */
  function SignExtend(v: int, bits: int): int {
    var m := v % Modulus(bits);
    if 2 * m >= Modulus(bits) then m - Modulus(bits) else m
  }

  // ----- what an operand denotes, and what the processor makes of an encoding -----

  type Valuation = nat -> int

  /** base + index*scale, by register number. */
  function Sum(v: Valuation, base: Option<nat>, index: Option<nat>, scale: int): int {
    (if base.Some? then v(base.value) else 0) + (if index.Some? then v(index.value) * scale else 0)
  }

  function Number(r: Option<Reg>): Option<nat> {
    match r
    case None => None
    case Some(reg) => Some(reg.n)
  }

  /** The address a memory operand stands for, before it is cut to the address size. */
  function Meaning(v: Valuation, m: Memory): int {
    Sum(v, Number(m.base), Number(m.Index()), m.scale) + m.offset
  }

  /** Table 2-1 of section 2.1.5 of the Intel SDM, volume 2A: 16-bit addressing forms. */
  function Registers16(v: Valuation, mod: int, rm: int): int {
    if rm == 0 then v(BX) + v(SI)
    else if rm == 1 then v(BX) + v(DI)
    else if rm == 2 then v(BP) + v(SI)
    else if rm == 3 then v(BP) + v(DI)
    else if rm == 4 then v(SI)
    else if rm == 5 then v(DI)
    else if rm == 6 then (if mod == 0 then 0 else v(BP))
    else v(BX)
  }

  /** Table 2-3, with the REX extensions of section 2.2.1.2. */
  function RegistersSib(v: Valuation, mod: int, rex: Rex, sib: int): int {
    var base := sib % 8 + if rex.b then 8 else 0;
    var index := sib / 8 % 8 + if rex.x then 8 else 0;
    var scale := if sib / 64 == 0 then 1 else if sib / 64 == 1 then 2 else if sib / 64 == 2 then 4 else 8;
    (if sib % 8 == 5 && mod == 0 then 0 else if base >= 0 then v(base) else 0)
    + if index == 4 || index < 0 then 0 else v(index) * scale
  }

  /** Table 2-2: the part of the address that registers contribute; in 64-bit mode the
      form without registers is relative to the next instruction (section 2.2.1.6). */
  function Registers(v: Valuation, bits: int, addrbits: int, ea: Ea, end: int): int {
    var mod, rm := ea.modrm / 64, ea.modrm % 8;
    if addrbits == 16 then Registers16(v, mod, rm)
    else if rm == 4 && ea.sib.Some? then RegistersSib(v, mod, ea.rex, ea.sib.value)
    else if rm == 5 && mod == 0 then (if bits == 64 then end else 0)
    else v(rm + if ea.rex.b then 8 else 0)
  }

  /** The size of the displacement that the processor expects. */
  function DisplacementSize(addrbits: int, ea: Ea): nat {
    var mod, rm := ea.modrm / 64, ea.modrm % 8;
    var base := if rm == 4 && ea.sib.Some? then ea.sib.value % 8 else rm;
    if mod == 1 then 1
    else if mod == 2 then (if addrbits == 16 then 2 else 4)
    else if addrbits == 16 then (if rm == 6 then 2 else 0)
    else if base == 5 then 4
    else 0
  }

  /** What gencode puts in the displacement field: the offset, or its distance from `end`. */
  function FieldValue(m: Memory, ea: Ea, end: int): int {
    if ea.disp.RipRelative? then m.offset - end else m.offset
  }

  /** The displacement as the processor extends it from the bytes of the field. */
  function Extended(m: Memory, ea: Ea, end: int): int {
    if ea.Width() == 0 then 0 else SignExtend(FieldValue(m, ea, end), 8 * ea.Width())
  }

  function Decoded(v: Valuation, bits: int, addrbits: int, m: Memory, ea: Ea, end: int): int {
    Registers(v, bits, addrbits, ea, end) + Extended(m, ea, end)
  }

  /** The displacement survives the width that was chosen for it. */
  predicate Fits(addrbits: int, m: Memory, ea: Ea, end: int) {
    (Extended(m, ea, end) - FieldValue(m, ea, end)) % Modulus(addrbits) == 0
  }

  /** The encoding is one the processor reads back field by field. */
  predicate WellFormed(addrbits: int, rfield: nat, ea: Ea) {
    && 0 <= ea.modrm < 192
    && ea.modrm / 8 % 8 + (if ea.rex.r then 8 else 0) == rfield
    && (ea.sib.Some? <==> addrbits != 16 && ea.modrm % 8 == 4)
    && (ea.sib.Some? ==> 0 <= ea.sib.value < 256)
    && ea.Width() == DisplacementSize(addrbits, ea)
    && !ea.disp.Compressed?
    && ea.kind == 0 && PlainRex(ea.rex)
  }

  /** For every register valuation: the registers of the encoding are those of the operand. */
  ghost predicate SameRegisters(bits: int, addrbits: int, m: Memory, ea: Ea) {
    forall v: Valuation, end: int ::
      Registers(v, bits, addrbits, ea, end) + FieldValue(m, ea, end) == Meaning(v, m)
  }

  /**
    The decoded address is the operand's, for every valuation, exactly when the
    displacement fits its field.
   */
  lemma DecodesIff(v: Valuation, bits: int, addrbits: int, m: Memory, ea: Ea, end: int)
    requires SameRegisters(bits, addrbits, m, ea)
    ensures Decoded(v, bits, addrbits, m, ea, end) % Modulus(addrbits) == Meaning(v, m) % Modulus(addrbits)
       <==> Fits(addrbits, m, ea, end)
  {
    hide Registers, Extended, FieldValue, Meaning, Modulus;
    var x, y, d := Decoded(v, bits, addrbits, m, ea, end), Meaning(v, m), Modulus(addrbits);
    assert Registers(v, bits, addrbits, ea, end) + FieldValue(m, ea, end) == y;
    SameRemainder(x, y, d);
  }

  lemma SameRemainder(x: int, y: int, d: nat)
    requires d > 0
    ensures x % d == y % d <==> (x - y) % d == 0
  {
    var q, r := x / d - y / d, x % d - y % d;
    assert x == (x / d) * d + x % d && y == (y / d) * d + y % d;
    assert x - y == q * d + r by { assert (x / d - y / d) * d == (x / d) * d - (y / d) * d; }
    if r >= 0 {
      Powers.DivModUnique(x - y, d, q, r);
    } else {
      assert (q - 1) * d == q * d - d;
      Powers.DivModUnique(x - y, d, q - 1, r + d);
    }
  }

  // ----- the choice of the displacement -----

  /** The condition of IS_MOD_01 outside EVEX. */
  predicate ByteForm(m: Memory, o: int) {
    !m.wordOffs && (m.byteOffs || (-128 <= o <= 127 && m.absolute && !m.unknown))
  }

  /** The mod field, for the truncated offset `o` and a base that may be (R)BP or R13. */
  method ChooseMod(m: Memory, o: int, needsDisplacement: bool) returns (mod: nat)
    ensures mod <= 2
    ensures mod == 0 <==> !needsDisplacement && o == 0 && m.absolute && !m.unknown && !m.byteOffs && !m.wordOffs
    ensures mod == 1 ==> ByteForm(m, o)
    ensures mod == 2 ==> !ByteForm(m, o)
  {
    if !needsDisplacement && o == 0 && m.absolute && !m.unknown && !(m.byteOffs || m.wordOffs) {
      mod := 0;
    } else if ByteForm(m, o) {
      mod := 1;
    } else {
      mod := 2;
    }
  }

  /** What is known of the offset when `width` bytes are spent on it. */
  predicate OffsetKnown(m: Memory, o: int, width: nat) {
    && (width == 0 ==> o == 0 && m.absolute && !m.unknown && !m.byteOffs && !m.wordOffs)
    && (width == 1 ==> ByteForm(m, o))
    && (width > 1 ==> !ByteForm(m, o))
  }

  // ----- reorganizing base and index -----

  /** The index registers and scales that the code can place, for register numbers. */
  predicate Placeable(b: Option<nat>, i: Option<nat>, s: int) {
    if i.None? then true
    else if b.None? then
      s == 1 || (i.value != ESP && s in {2, 3, 4, 5, 8, 9})
    else
      s in {1, 2, 4, 8} && (i.value == ESP ==> s == 1 && b.value != ESP)
  }

  ghost predicate SameSum(b: Option<nat>, i: Option<nat>, s: int, b': Option<nat>, i': Option<nat>, s': int) {
    forall v: Valuation :: Sum(v, b', i', s') == Sum(v, b, i, s)
  }

  /**
    The rearrangements of the 32/64-bit path: swaps that follow the hints, a lone register
    as base, [reg*2], [reg*3], [reg*5] and [reg*9] split, [NOSPLIT reg*1], and ESP moved
    into the base.  They keep the sum, and succeed exactly for what can be placed.
   */
  method Reorganize(m: Memory, b: Option<nat>, i: Option<nat>)
    returns (bt: Option<nat>, it: Option<nat>, s: int, ok: bool)
    requires b == Number(m.base) && i == Number(m.Index()) && (b.Some? || i.Some?)
    ensures ok <==> Placeable(b, i, m.scale)
    ensures ok ==> SameSum(b, i, m.scale, bt, it, s)
    ensures ok && b.Some? && !(m.timesTwo && m.hint.NotBase?) ==> bt.Some?
    ensures ok ==> it != Some(ESP) && (it.Some? ==> s in {1, 2, 4, 8}) && (bt.Some? || it.Some?)
    ensures bt == b || bt == i || bt.None?
    ensures it == b || it == i || it.None?
  {
    bt, it, s := b, i, m.scale;
    if s == 1 && bt != it && bt.Some? && it.Some?
       && ((m.hint.NotBase? && m.hint.reg == m.base) || (m.hint.MakeBase? && m.hint.reg == m.index)) {
      bt, it := it, bt;
    }
    if bt.None? && s == 1 && !(m.hint.NotBase? && m.hint.reg == m.index) {
      bt, it := it, None;
    }
    if ((s == 2 && it != Some(ESP) && (!m.timesTwo || m.hint.Summed?)) || s == 3 || s == 5 || s == 9) && bt.None? {
      bt, s := it, s - 1;
    }
    if it.None? && bt.Some? && bt.value % 8 != ESP && m.timesTwo && m.hint.NotBase? && m.hint.reg == m.base {
      it, bt, s := bt, None, 1;
    }
    if s == 1 && it == Some(ESP) {
      it, bt := bt, it;
    }
    ok := !(it == Some(ESP) || (s != 1 && s != 2 && s != 4 && s != 8 && it.Some?));
  }

  // ----- the bytes -----

  /** GEN_MODRM */
  function GenModRM(mod: nat, reg: nat, rm: nat): int {
    64 * mod + 8 * (reg % 8) + rm % 8
  }

  /** GEN_SIB */
  function GenSib(scale: nat, index: nat, base: nat): int {
    64 * scale + 8 * index + base
  }

  lemma ModRMFields(mod: nat, reg: nat, rm: nat)
    requires mod <= 3
    ensures var y := GenModRM(mod, reg, rm);
            0 <= y < 64 * mod + 64 && y / 64 == mod && y / 8 % 8 == reg % 8 && y % 8 == rm % 8
  {
    SibFields(mod, reg % 8, rm % 8);
  }

  lemma SibFields(scale: nat, index: nat, base: nat)
    requires scale <= 3 && index < 8 && base < 8
    ensures var y := GenSib(scale, index, base);
            0 <= y < 256 && y / 64 == scale && y / 8 % 8 == index && y % 8 == base
  {
    var y := GenSib(scale, index, base);
    assert y / 8 == 8 * scale + index;
  }

  /** The low byte registers 4 to 7, which are SPL, BPL, SIL and DIL only with a REX prefix. */
  predicate NeedsPrefix(r: Register) {
    r.low8 && !r.high && r.value >= 4
  }

  /** The flags that come with the register or digit in the spare field. */
  predicate SpareFlags(spare: Register, rex: Rex) {
    (rex.w <==> spare.wide) && (rex.h <==> spare.high) && (rex.p <==> NeedsPrefix(spare))
  }

  /** The REX bits of the register or digit in the spare field. */
  function SpareRex(r: Register): Rex {
    RegisterRex(r).(b := false, r := r.value / 8 % 2 == 1)
  }

  function Bit3(r: Option<nat>): bool {
    r.Some? && r.value / 8 % 2 == 1
  }

  predicate Numbered(r: Option<nat>) {
    r.Some? ==> r.value < 16
  }

  /** What the address of an encoding is, displacement aside, for every valuation. */
  ghost predicate DecodesTo(bits: int, addrbits: int, ea: Ea, b: Option<nat>, i: Option<nat>, s: int) {
    forall v: Valuation, end: int :: Registers(v, bits, addrbits, ea, end) == Sum(v, b, i, s)
  }

  function ScaleLog(s: int): nat {
    if s == 1 then 0 else if s == 2 then 1 else if s == 4 then 2 else 3
  }

  /** ModRM, SIB and displacement of the 32/64-bit forms, after the reorganization. */
  method EncodeIndirect(m: Memory, bits: int, addrbits: int, spare: Register,
                        bt: Option<nat>, it: Option<nat>, s: int) returns (ea: Ea)
    requires 0 <= spare.value < 16 && addrbits != 16 && Numbered(bt) && Numbered(it)
    requires it != Some(ESP) && (it.Some? ==> s in {1, 2, 4, 8}) && (bt.Some? || it.Some?)
    ensures WellFormed(addrbits, spare.value, ea) && !ea.disp.RipRelative? && SpareFlags(spare, ea.rex)
    ensures DecodesTo(bits, addrbits, ea, bt, it, s)
    ensures bt.Some? ==> OffsetKnown(m, SignExtend(m.offset, 32), ea.Width())
    ensures ea.Width() == 4 || (bt.Some? && ea.Width() <= 1)
  {
    hide OffsetKnown, WellFormed, DecodesTo, Registers, GenModRM, GenSib, SpareRex;
    SpareBits(spare);
    var rex := SpareRex(spare).(x := Bit3(it), b := Bit3(bt));
    var o := SignExtend(m.offset, 32);
    var mod := 0;
    if bt.Some? {
      mod := ChooseMod(m, o, bt.value % 8 == EBP);
    }
    var size := if bt.None? || mod == 2 then 4 else mod;
    var disp := if size == 0 then NoDisplacement else Plain(size);
    if it.None? && bt.value % 8 != ESP {
      ea := Ea(0, rex, false, GenModRM(mod, spare.value, bt.value % 8), None, disp);
      DirectForm(bits, addrbits, spare, bt.value, mod, size, ea, s);
    } else {
      var index := if it.None? then 4 else it.value % 8;
      var scale := if it.None? then 0 else ScaleLog(s);
      var base := if bt.None? then 5 else bt.value % 8;
      ea := Ea(0, rex, false, GenModRM(mod, spare.value, 4), Some(GenSib(scale, index, base)), disp);
      SibForm(bits, addrbits, spare, bt, it, s, mod, size, ea);
    }
    if bt.Some? {
      KnownOffset(m, o, mod, size);
    }
  }

  lemma KnownOffset(m: Memory, o: int, mod: nat, size: nat)
    requires size == (if mod == 2 then 4 else mod) && mod <= 2
    requires mod == 0 ==> o == 0 && m.absolute && !m.unknown && !m.byteOffs && !m.wordOffs
    requires mod == 1 <==> ByteForm(m, o) && mod != 0
    ensures mod == 0 || mod == 1 || !ByteForm(m, o)
    ensures OffsetKnown(m, o, size)
  {
  }

  lemma SpareBits(spare: Register)
    requires 0 <= spare.value < 16
    ensures var r := SpareRex(spare);
            && spare.value % 8 + (if r.r then 8 else 0) == spare.value && PlainRex(r) && !r.x && !r.b
            && SpareFlags(spare, r)
  {
  }

  lemma NumberBits(r: nat)
    requires r < 16
    ensures r % 8 + (if Bit3(Some(r)) then 8 else 0) == r
  {
  }

  lemma DirectForm(bits: int, addrbits: int, spare: Register, bt: nat, mod: nat, size: nat, ea: Ea, s: int)
    requires 0 <= spare.value < 16 && addrbits != 16 && bt < 16 && bt % 8 != ESP
    requires mod <= 2 && (mod == 0 ==> bt % 8 != EBP) && size == (if mod == 2 then 4 else mod)
    requires ea == Ea(0, SpareRex(spare).(x := false, b := Bit3(Some(bt))), false,
                      GenModRM(mod, spare.value, bt % 8), None, if size == 0 then NoDisplacement else Plain(size))
    ensures WellFormed(addrbits, spare.value, ea) && DecodesTo(bits, addrbits, ea, Some(bt), None, s)
  {
    hide GenModRM, SpareRex;
    ModRMFields(mod, spare.value, bt % 8);
    SpareBits(spare);
    NumberBits(bt);
  }

  lemma SibForm(bits: int, addrbits: int, spare: Register, bt: Option<nat>, it: Option<nat>, s: int,
                mod: nat, size: nat, ea: Ea)
    requires 0 <= spare.value < 16 && addrbits != 16 && Numbered(bt) && Numbered(it)
    requires it != Some(ESP) && (it.Some? ==> s in {1, 2, 4, 8})
    requires mod <= 2 && (bt.None? ==> mod == 0) && (mod == 0 && bt.Some? ==> bt.value % 8 != EBP)
    requires size == if bt.None? || mod == 2 then 4 else mod
    requires var index := if it.None? then 4 else it.value % 8;
             var scale := if it.None? then 0 else ScaleLog(s);
             var base := if bt.None? then 5 else bt.value % 8;
             ea == Ea(0, SpareRex(spare).(x := Bit3(it), b := Bit3(bt)), false, GenModRM(mod, spare.value, 4),
                      Some(GenSib(scale, index, base)), if size == 0 then NoDisplacement else Plain(size))
    ensures WellFormed(addrbits, spare.value, ea) && DecodesTo(bits, addrbits, ea, bt, it, s)
  {
    hide GenModRM, GenSib, SpareRex, RegistersSib;
    var index := if it.None? then 4 else it.value % 8;
    var scale := if it.None? then 0 else ScaleLog(s);
    var base := if bt.None? then 5 else bt.value % 8;
    ModRMFields(mod, spare.value, 4);
    SibFields(scale, index, base);
    SpareBits(spare);
    forall v: Valuation, end: int
      ensures Registers(v, bits, addrbits, ea, end) == Sum(v, bt, it, s)
    {
      SibMeans(v, mod, ea.rex, bt, it, s, ea.sib.value);
    }
  }

  lemma SibMeans(v: Valuation, mod: nat, rex: Rex, bt: Option<nat>, it: Option<nat>, s: int, sib: int)
    requires Numbered(bt) && Numbered(it) && it != Some(ESP) && (it.Some? ==> s in {1, 2, 4, 8})
    requires rex.x == Bit3(it) && rex.b == Bit3(bt)
    requires (bt.None? ==> mod == 0) && (mod == 0 && bt.Some? ==> bt.value % 8 != EBP)
    requires sib % 8 == (if bt.None? then 5 else bt.value % 8)
    requires sib / 8 % 8 == (if it.None? then 4 else it.value % 8)
    requires sib / 64 == if it.None? then 0 else ScaleLog(s)
    ensures RegistersSib(v, mod, rex, sib) == Sum(v, bt, it, s)
  {
    if bt.Some? { NumberBits(bt.value); }
    if it.Some? { NumberBits(it.value); }
  }

  // ----- the three kinds of memory reference -----

  /** An address without registers. */
  method EncodeOffset(m: Memory, bits: int, addrbits: int, spare: Register) returns (ea: Ea, ipRel: bool)
    requires 0 <= spare.value < 16 && addrbits in {16, 32, 64} && (addrbits == 16 ==> bits != 64)
    ensures WellFormed(addrbits, spare.value, ea) && SpareFlags(spare, ea.rex)
    ensures ipRel == (m.ipRel && !(bits == 64 && (m.absolute || m.relative)))
    ensures ea.disp.RipRelative? <==> bits == 64 && ipRel
    ensures forall v: Valuation, end: int ::
              Registers(v, bits, addrbits, ea, end) == if ea.disp.RipRelative? then end else 0
    ensures ea.Width() == if addrbits == 16 then 2 else 4
  {
    ipRel := m.ipRel;
    if bits == 64 && ipRel && (m.absolute || m.relative) {
      ipRel := false;
    }
    var rex := SpareRex(spare);
    SpareBits(spare);
    ModRMFields(0, spare.value, 4);
    ModRMFields(0, spare.value, 5);
    ModRMFields(0, spare.value, 6);
    if bits == 64 && !ipRel {
      SibFields(0, 4, 5);
      ea := Ea(0, rex, false, GenModRM(0, spare.value, 4), Some(GenSib(0, 4, 5)), Plain(4));
    } else {
      var size := if addrbits != 16 then 4 else 2;
      ea := Ea(0, rex, false, GenModRM(0, spare.value, if addrbits != 16 then 5 else 6), None,
               if bits == 64 then RipRelative(size) else Plain(size));
    }
  }

  /** The 16-bit registers that can be combined. */
  predicate Placeable16(b: Option<nat>, i: Option<nat>, s: int) {
    && (i.Some? ==> s == 1)
    && (b.Some? ==> b.value in {BX, BP, SI, DI}) && (i.Some? ==> i.value in {BX, BP, SI, DI})
    && (b.Some? && i.Some? ==> (b.value in {BX, BP} <==> i.value in {SI, DI}))
  }

  method Encode16(m: Memory, bits: int, spare: Register, b0: Option<nat>, i0: Option<nat>, s: int)
    returns (ok: bool, ea: Ea)
    requires 0 <= spare.value < 16 && (b0.Some? || i0.Some?)
    requires (b0.Some? ==> b0.value in {BX, BP, SI, DI}) && (i0.Some? ==> i0.value in {BX, BP, SI, DI})
    ensures ok <==> Placeable16(b0, i0, s)
    ensures ok ==> WellFormed(16, spare.value, ea) && !ea.disp.RipRelative? && SpareFlags(spare, ea.rex)
    ensures ok ==> DecodesTo(bits, 16, ea, b0, i0, s)
    ensures ok ==> OffsetKnown(m, SignExtend(m.offset, 16), ea.Width())
  {
    hide WellFormed, DecodesTo, GenModRM, SpareRex;
    SpareBits(spare);
    var b, i := b0, i0;
    ea := Ea(0, NO_REX, false, 0, None, NoDisplacement);
    if s != 1 && i.Some? {
      return false, ea;
    }
    if b.None? {
      b, i := i, b;
    }
    if (b == Some(SI) || b == Some(DI)) && i.Some? {
      b, i := i, b;
    }
    if b == i || (i.Some? && (i == Some(BP) || i == Some(BX) || b == Some(SI) || b == Some(DI))) {
      return false, ea;
    }
    var rm;
    if i.Some? {
      rm := if i == Some(SI) then (if b == Some(BX) then 0 else 2) else if b == Some(BX) then 1 else 3;
    } else {
      rm := if b == Some(SI) then 4 else if b == Some(DI) then 5 else if b == Some(BP) then 6 else 7;
    }
    var o := SignExtend(m.offset, 16);
    var mod := ChooseMod(m, o, rm == 6);
    ea := Ea(0, SpareRex(spare), false, GenModRM(mod, spare.value, rm), None,
             if mod == 0 then NoDisplacement else Plain(mod));
    ok := true;
    Form16(bits, spare, b0, i0, rm, mod, ea);
  }

  lemma Form16(bits: int, spare: Register, b: Option<nat>, i: Option<nat>, rm: nat, mod: nat, ea: Ea)
    requires 0 <= spare.value < 16 && rm < 8 && mod <= 2 && (mod == 0 ==> rm != 6)
    requires ea == Ea(0, SpareRex(spare), false, GenModRM(mod, spare.value, rm), None,
                      if mod == 0 then NoDisplacement else Plain(mod))
    requires forall v: Valuation :: Registers16(v, mod, rm) == Sum(v, b, i, 1)
    ensures WellFormed(16, spare.value, ea) && DecodesTo(bits, 16, ea, b, i, 1)
    ensures i.None? ==> forall s :: DecodesTo(bits, 16, ea, b, i, s)
  {
    hide GenModRM, SpareRex, Registers16;
    ModRMFields(mod, spare.value, rm);
    SpareBits(spare);
    forall v: Valuation, s: int | i.None?
      ensures Sum(v, b, i, s) == Sum(v, b, i, 1)
    {
    }
  }

  // ----- process_ea for memory operands -----

  predicate PureOffset(m: Memory) {
    m.base.None? && m.Index().None?
  }

  /** A GPR of the size of the address. */
  predicate Fitting(r: Option<Reg>, addrbits: int) {
    r.Some? ==> r.value.gpr && r.value.bits == addrbits
  }

  /** Exactly the memory operands that have an encoding. */
  predicate Encodable(m: Memory, addrbits: int) {
    if PureOffset(m) then true
    else
      && Fitting(m.base, addrbits) && Fitting(m.Index(), addrbits)
      && if addrbits == 16 then
           m.dispSize != 32 && m.dispSize != 64 && Placeable16(Number(m.base), Number(m.Index()), m.scale)
         else
           m.dispSize != 16 && m.dispSize != 64 && Placeable(Number(m.base), Number(m.Index()), m.scale)
  }

  predicate ValidRegister(r: Option<Reg>) {
    r.Some? && r.value.gpr ==> r.value.n < 16
  }

  predicate Is(r: Option<Reg>, bits: int) {
    r.Some? && r.value.bits == bits
  }

  /** What add_asp sees to: 16-bit registers only under 16-bit addressing. */
  predicate SizeAgrees(m: Memory, addrbits: int) {
    (Is(m.base, 16) || Is(m.Index(), 16)) ==> addrbits == 16
  }

  /** What is known of the displacement for an accepted operand. */
  predicate WidthKnown(m: Memory, addrbits: int, ea: Ea) {
    || (ea.Width() == if addrbits == 16 then 2 else 4)
    || (ea.Width() <= 1 && OffsetKnown(m, SignExtend(m.offset, if addrbits == 16 then 16 else 32), ea.Width())
        && !ea.disp.RipRelative?)
  }

  /**
    process_ea on a memory operand: it accepts exactly the encodable operands, and what it
    delivers contributes the same registers as the operand for every valuation.
   */
  method ProcessMemory(m: Memory, bits: int, addrbits: int, spare: Register) returns (ok: bool, ea: Ea)
    requires 0 <= spare.value < 16 && addrbits in {16, 32, 64} && (addrbits == 16 ==> bits != 64)
    requires SizeAgrees(m, addrbits) && ValidRegister(m.base) && ValidRegister(m.index)
    ensures ok <==> Encodable(m, addrbits)
    ensures ok ==> WellFormed(addrbits, spare.value, ea) && SameRegisters(bits, addrbits, m, ea)
    ensures ok ==> SpareFlags(spare, ea.rex)
    ensures ok ==> WidthKnown(m, addrbits, ea)
    ensures ok && m.base.Some? && !(m.timesTwo && m.hint.NotBase?) ==>
              OffsetKnown(m, SignExtend(m.offset, if addrbits == 16 then 16 else 32), ea.Width())
    ensures ok ==> (ea.disp.RipRelative? <==>
                      PureOffset(m) && bits == 64 && m.ipRel && !m.absolute && !m.relative)
  {
    hide WellFormed, Placeable, Placeable16, OffsetKnown, Registers, DecodesTo, SignExtend;
    var i, b := m.Index(), m.base;
    ea := Ea(0, NO_REX, false, 0, None, NoDisplacement);
    if b.None? && i.None? {
      var ipRel;
      ea, ipRel := EncodeOffset(m, bits, addrbits, spare);
      ok := true;
      return;
    }
    if Is(b, 32) || Is(b, 64) || Is(i, 32) || Is(i, 64) {
      if i.Some? && !(i.value.gpr && (i.value.bits == 32 || i.value.bits == 64)) {
        return false, ea;
      }
      var sok := if i.Some? then {i.value.bits} else {32, 64};
      if b.Some? {
        if !b.value.gpr || b.value.bits !in sok {
          return false, ea;
        }
        sok := {b.value.bits};
      }
      if m.dispSize == 16 || m.dispSize == 64 || addrbits == 16 || addrbits !in sok {
        return false, ea;
      }
      var bt, it, s, placed := Reorganize(m, Number(b), Number(i));
      if !placed {
        return false, ea;
      }
      ea := EncodeIndirect(m, bits, addrbits, spare, bt, it, s);
      SumsAgree(m, bits, addrbits, ea, bt, it, s);
      ok := true;
    } else {
      if addrbits == 64 || (b.Some? && !(b.value.gpr && b.value.bits == 16 && b.value.n in {BX, BP, SI, DI}))
         || (i.Some? && !(i.value.gpr && i.value.bits == 16 && i.value.n in {BX, BP, SI, DI})) {
        NotPlaceable16(Number(b), Number(i), m.scale);
        return false, ea;
      }
      if m.dispSize == 32 || m.dispSize == 64 {
        return false, ea;
      }
      ok, ea := Encode16(m, bits, spare, Number(b), Number(i), m.scale);
      if ok {
        SumsAgree(m, bits, addrbits, ea, Number(b), Number(i), m.scale);
        Width16(spare.value, ea);
      }
    }
  }

  lemma NotPlaceable16(b: Option<nat>, i: Option<nat>, s: int)
    ensures (b.Some? && b.value !in {BX, BP, SI, DI}) || (i.Some? && i.value !in {BX, BP, SI, DI}) ==>
              !Placeable16(b, i, s)
  {
  }

  lemma Width16(rfield: nat, ea: Ea)
    requires WellFormed(16, rfield, ea)
    ensures ea.Width() <= 2
  {
  }

  lemma SumsAgree(m: Memory, bits: int, addrbits: int, ea: Ea, bt: Option<nat>, it: Option<nat>, s: int)
    requires DecodesTo(bits, addrbits, ea, bt, it, s) && !ea.disp.RipRelative?
    requires SameSum(Number(m.base), Number(m.Index()), m.scale, bt, it, s)
    ensures SameRegisters(bits, addrbits, m, ea)
  {
    hide Registers, Sum;
    forall v: Valuation, end: int
      ensures Registers(v, bits, addrbits, ea, end) + FieldValue(m, ea, end) == Meaning(v, m)
    {
      assert Registers(v, bits, addrbits, ea, end) == Sum(v, bt, it, s);
      assert Sum(v, bt, it, s) == Sum(v, Number(m.base), Number(m.Index()), m.scale);
    }
  }

  // ----- when the displacement fits -----

  /** Without a forced size, 16- and 32-bit addresses always come out right. */
  lemma NarrowAddressesFit(m: Memory, addrbits: int, ea: Ea, end: int)
    requires addrbits in {16, 32} && !m.byteOffs && WidthKnown(m, addrbits, ea)
    ensures Fits(addrbits, m, ea, end)
  {
    hide SignExtend;
    var x := FieldValue(m, ea, end);
    ExtendedRemainder(x, addrbits);
    if ea.Width() == (if addrbits == 16 then 2 else 4) {
    } else {
      ShortDisplacement(m.offset, addrbits);
      ZeroIsZero(m.offset, addrbits);
    }
  }

  lemma ExtendedRemainder(x: int, bits: int)
    requires bits in {8, 16, 32, 64}
    ensures (SignExtend(x, bits) - x) % Modulus(bits) == 0
  {
    var d := Modulus(bits);
    assert x == (x / d) * d + x % d;
    var q := if 2 * (x % d) >= d then 0 - (x / d) - 1 else 0 - (x / d);
    assert SignExtend(x, bits) - x == q * d by {
      assert (0 - x / d) * d == 0 - (x / d) * d;
      assert (0 - x / d - 1) * d == 0 - (x / d) * d - d;
    }
    Powers.DivModUnique(q * d, d, q, 0);
  }

  /** A truncated offset in byte range is what a byte displacement extends to. */
  lemma ShortDisplacement(offset: int, addrbits: int)
    requires addrbits in {16, 32, 64}
    ensures var o := SignExtend(offset, if addrbits == 16 then 16 else 32);
            -128 <= o <= 127 ==> SignExtend(offset, 8) == o
  {
  }

  lemma ZeroIsZero(offset: int, addrbits: int)
    requires addrbits in {16, 32}
    ensures SignExtend(offset, addrbits) == 0 ==> (0 - offset) % Modulus(addrbits) == 0
  {
  }

  /** A 64-bit address comes out right if the offset, or the distance for a RIP-relative
      one, is a signed 32-bit number. */
  lemma WideAddressesFit(m: Memory, ea: Ea, end: int)
    requires !m.byteOffs && WidthKnown(m, 64, ea)
    requires -0x8000_0000 <= FieldValue(m, ea, end) < 0x8000_0000
    ensures Fits(64, m, ea, end)
  {
    SmallExtends(FieldValue(m, ea, end));
    hide SignExtend;
  }

  lemma SmallExtends(x: int)
    requires -0x8000_0000 <= x < 0x8000_0000
    ensures SignExtend(x, 32) == x
    ensures -128 <= x <= 127 ==> SignExtend(x, 8) == x
  {
  }

  // ----- direct registers -----

  /** What process_ea delivers: a memory form that reads back, or a direct register. */
  ghost predicate Processed(ea: Ea) {
    || (exists addrbits, rfield: nat :: WellFormed(addrbits, rfield, ea))
    || (192 <= ea.modrm < 256 && ea.kind == 0 && ea.sib.None? && ea.disp.NoDisplacement? && PlainRex(ea.rex))
  }

  /** process_ea on a register operand: mod 3, and the register's number in rm and REX.B. */
  method ProcessRegister(operand: Register, usable: bool, spare: Register) returns (ok: bool, ea: Ea)
    requires 0 <= spare.value < 16 && 0 <= operand.value < 16
    ensures ok <==> usable
    ensures ok ==> 192 <= ea.modrm < 256 && ea.sib.None? && ea.disp.NoDisplacement? && PlainRex(ea.rex)
    ensures ok ==> Processed(ea)
    ensures ok ==> ea.modrm % 8 + (if ea.rex.b then 8 else 0) == operand.value
    ensures ok ==> ea.modrm / 8 % 8 + (if ea.rex.r then 8 else 0) == spare.value
    ensures ok ==> (ea.rex.w <==> operand.wide || spare.wide) && (ea.rex.h <==> operand.high || spare.high)
    ensures ok ==> (ea.rex.p <==> NeedsPrefix(operand) || NeedsPrefix(spare))
  {
    ea := Ea(0, NO_REX, false, 0, None, NoDisplacement);
    if !usable {
      return false, ea;
    }
    SpareBits(spare);
    NumberBits(operand.value);
    ModRMFields(3, spare.value, operand.value);
    var modrm := GenModRM(3, spare.value, operand.value);
    ea := Ea(0, SpareRex(spare).Or(RegisterRex(operand)), false, modrm, None, NoDisplacement);
    return true, ea;
  }

  // ----- the two interpreters on addresses made here -----

  /** Such addresses meet what EncodeSizes asks of an instruction. */
  lemma ProcessedEasArePlain(i: Instruction)
    requires forall c: Code, ev :: c.ModRM? ==> Processed(i.ea(c, ev))
    ensures PlainEas(i)
  {
    forall c: Code, ev | c.ModRM?
      ensures PlainRex(i.ea(c, ev).rex)
    {
      assert Processed(i.ea(c, ev));
    }
  }

  /** A memory operand handed to both interpreters: they see the same address, so it plays no
      part in the difference of their lengths, and the relation of SizesRelate holds. */
  method UseMemory(i: Instruction, m: Memory, addrbits: int, spare: Register, ghost p: Prefixes, ghost codes: seq<Code>)
    returns (ok: bool, r: Instruction)
    requires i.bits in {16, 32, 64} && 0 <= spare.value < 16 && addrbits in {16, 32, 64}
    requires (addrbits == 16 ==> i.bits != 64) && SizeAgrees(m, addrbits)
    requires ValidRegister(m.base) && ValidRegister(m.index)
    ensures ok <==> Encodable(m, addrbits)
    ensures ok ==> forall c, ev :: r == i.(ea := r.ea) && Processed(r.ea(c, ev))
                                   && SameRegisters(i.bits, addrbits, m, r.ea(c, ev))
    ensures ok && Calcsize(r, p, codes).ok && Regular(codes) && CountedReserve(r, codes) ==>
              var s := Calcsize(r, p, codes);
              (|Gencode(r, Place(0, s.length), s.work, codes).out| == s.length
               <==> NoNarrowQword(r, codes) && PrefixesBalance(r, s.work, codes))
  {
    hide Calcsize, Gencode, Regular, CountedReserve, NoNarrowQword, PrefixesBalance, WellFormed, SameRegisters,
      Encodable;
    var ea;
    ok, ea := ProcessMemory(m, i.bits, addrbits, spare);
    r := i.(ea := (c, ev) => ea);
    if ok {
      assert Processed(ea);
      ProcessedEasArePlain(r) by { hide *; }
      if Calcsize(r, p, codes).ok && Regular(codes) && CountedReserve(r, codes) {
        GencodeMatchesIff(r, p, codes, 0);
      }
    }
  }

  // ----- add_asp -----

  datatype AddressPrefix = NoPrefix | PrefixA16 | PrefixA32 | PrefixA64 | PrefixAsp

  /** The address sizes that the mode and the prefix allow. */
  function AllowedSizes(bits: int, p: AddressPrefix): set<int> {
    var base := if bits == 64 then {64, 32} else {32, 16};
    match p
    case NoPrefix => base
    case PrefixA16 => base * {16}
    case PrefixA32 => base * {32}
    case PrefixA64 => base * {64}
    case PrefixAsp => base * (if bits == 32 then {16} else {32})
  }

  /** A general register of address size in a memory operand. */
  predicate Mentions(m: Memory, r: Reg) {
    (m.base == Some(r) || m.Index() == Some(r)) && r.gpr && r.bits in {16, 32, 64}
  }

  /** The sizes left by one memory operand. */
  function NarrowedBy(valid: set<int>, bits: int, m: Memory): set<int> {
    if m.base.None? && m.Index().None? then
      if (bits != 64 && m.dispSize > 8) || (bits == 64 && m.dispSize == 16) then valid * {m.dispSize} else valid
    else
      var v := if m.base.Some? && m.base.value.gpr && m.base.value.bits in {16, 32, 64}
               then valid * {m.base.value.bits} else valid;
      if m.Index().Some? && m.index.value.gpr && m.index.value.bits in {16, 32, 64} then v * {m.index.value.bits} else v
  }

  /** Whether a memory operand can be had with addresses of size `a`. */
  ghost predicate Accepts(bits: int, m: Memory, a: int) {
    if m.base.None? && m.Index().None? then
      (bits != 64 && m.dispSize > 8) || (bits == 64 && m.dispSize == 16) ==> a == m.dispSize
    else forall r :: Mentions(m, r) ==> r.bits == a
  }

  lemma NarrowedIff(valid: set<int>, bits: int, m: Memory, a: int)
    ensures a in NarrowedBy(valid, bits, m) <==> a in valid && Accepts(bits, m, a)
  {
    if m.base.Some? {
      assert m.base.value.gpr && m.base.value.bits in {16, 32, 64} ==> Mentions(m, m.base.value);
    }
    if m.Index().Some? {
      assert m.index.value.gpr && m.index.value.bits in {16, 32, 64} ==> Mentions(m, m.index.value);
    }
  }

  /** The mode, the prefix and all operands go together with addresses of size `a`. */
  ghost predicate Possible(operands: seq<Memory>, bits: int, p: AddressPrefix, a: int) {
    a in AllowedSizes(bits, p) && forall k :: 0 <= k < |operands| ==> Accepts(bits, operands[k], a)
  }

  /**
    The address size: the mode's own if everything can have it, the other one with a prefix
    if that is possible, and an error exactly when no size is.
   */
  method AddAsp(operands: seq<Memory>, bits: int, p: AddressPrefix) returns (ok: bool, addrbits: int, prefixed: bool)
    requires bits in {16, 32, 64}
    ensures ok <==> exists a :: Possible(operands, bits, p, a)
    ensures ok ==> Possible(operands, bits, p, addrbits)
    ensures prefixed <==> ok && !Possible(operands, bits, p, bits)
    ensures !prefixed <==> addrbits == bits
    ensures ok ==> forall k, r :: 0 <= k < |operands| && Mentions(operands[k], r) ==> r.bits == addrbits
  {
    hide NarrowedBy, Mentions, Accepts;
    var valid := AllowedSizes(bits, p);
    var j := 0;
    while j < |operands|
      invariant 0 <= j <= |operands|
      invariant forall a :: a in valid <==> Possible(operands[..j], bits, p, a)
    {
      ghost var before := valid;
      valid := NarrowedBy(valid, bits, operands[j]);
      j := j + 1;
      forall a
        ensures a in valid <==> Possible(operands[..j], bits, p, a)
      {
        NarrowedIff(before, bits, operands[j - 1], a);
        OneMore(operands, j, bits, p, a);
      }
    }
    assert operands[..j] == operands;
    forall k, r, a | 0 <= k < |operands| && Mentions(operands[k], r) && Possible(operands, bits, p, a)
      ensures r.bits == a
    {
      AcceptedSize(bits, operands[k], r, a);
    }
    OnlyTwoSizes(bits, p);
    if bits in valid {
      return true, bits, false;
    }
    var other := if bits == 32 then 16 else 32;
    if other in valid {
      return true, other, true;
    }
    return false, bits, false;
  }

  lemma OneMore(operands: seq<Memory>, j: nat, bits: int, p: AddressPrefix, a: int)
    requires 0 < j <= |operands|
    ensures Possible(operands[..j], bits, p, a)
       <==> Possible(operands[..j - 1], bits, p, a) && Accepts(bits, operands[j - 1], a)
  {
    hide Accepts, AllowedSizes;
    assert operands[..j] == operands[..j - 1] + [operands[j - 1]];
  }

  lemma AcceptedSize(bits: int, m: Memory, r: Reg, a: int)
    requires Mentions(m, r) && Accepts(bits, m, a)
    ensures r.bits == a
  {
  }

  lemma OnlyTwoSizes(bits: int, p: AddressPrefix)
    requires bits in {16, 32, 64}
    ensures forall a :: a in AllowedSizes(bits, p) ==> a == bits || a == if bits == 32 then 16 else 32
  {
  }
}
