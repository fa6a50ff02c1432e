/** What single codes of a template leave in the output, as the processor reads it. */
module CodeEffects {
  import opened Bytes
  import opened Output
  import opened Bytecode
  import opened Encode
  import opened InstructionDecode

  // ----- fields whose size depends on the operand -----

  /** The size of \34 and \64: what the operand says, and the mode's own size otherwise. */
  predicate WordBytes(bits: int, o: Operand, n: nat) {
    n == if o.bits16 then 2 else if o.bits32 then 4 else if bits == 16 then 2 else 4
  }

  /** The fields with a size of their own hold the operand's number; a 64-bit relative operand
      takes four bytes in every mode. */
  lemma SizedFields(i: Instruction, w: Work, c: Code, end: int, n: nat)
    requires c.ByWord? || c.ByAddressSize? || c.SignedByte? || c.RelativeByWord?
    ensures c.ByWord? && IsNumber(i, i.Op(c.op)) && WordBytes(i.bits, i.Op(c.op), n) ==>
              Holds(FieldCells(i, w, c, end), i.Op(c.op).offset % Power256(n)) && |FieldCells(i, w, c, end)| == n
    ensures c.ByAddressSize? && IsNumber(i, i.Op(c.op)) && i.addressSize == 8 * n ==>
              Holds(FieldCells(i, w, c, end), i.Op(c.op).offset % Power256(n)) && |FieldCells(i, w, c, end)| == n
    ensures c.SignedByte? && i.Op(c.op).Absolute() ==> FieldCells(i, w, c, end) == [Raw(i.Op(c.op).offset % 256)]
    ensures c.RelativeByWord? && i.Op(c.op).segment == i.segment && !i.Op(c.op).wrt
            && (if i.Op(c.op).bits64 then n == if i.Op(c.op).bits16 then 2 else 4
                else WordBytes(i.bits, i.Op(c.op), n)) ==>
              Holds(FieldCells(i, w, c, end), (i.Op(c.op).offset - end) % Power256(n))
              && |FieldCells(i, w, c, end)| == n
  {
    hide Power256, ImmediateField, RelativeField, IsNumber, Holds, Instruction.Op;
    match c
    case ByWord(op) => ImmediateHolds(i, i.Op(op), EmittedWordSize(i, i.Op(op)));
    case ByAddressSize(op) => ImmediateHolds(i, i.Op(op), i.addressSize / 8);
    case RelativeByWord(op) => RelativeHolds(i, i.Op(op), WordSize(i, i.Op(op)), end);
    case _ =>
  }

  /** An is4 byte: the register's low four bits above, its fifth bit or the constant below. */
  lemma Is4Reads(i: Instruction, w: Work, reg: nat, low: Nibble, end: int)
    requires 0 <= i.Op(reg).register.value < 32
    requires low.Fixed? ==> low.value < 16
    ensures var x := Is4Cell(i, w, reg, low);
            && FieldCells(i, w, Is4(reg, low), end) == [Raw(x)]
            && 0 <= x < 256 && x / 16 == i.Op(reg).register.value % 16
            && (i.Op(reg).register.value < 16 && low.Fixed? ==> x % 16 == low.value)
            && (i.Op(reg).register.value < 16 && low.FromOperand? && w.prefixes[VEX] != ForceEvex ==>
                  x % 16 == i.Op(low.op).offset % 16)
            && (i.Op(reg).register.value >= 16 ==> x / 8 % 2 == 1)
  {
  }

  // ----- prefixes -----

  /** The byte of one prefix, or nothing. */
  function One(bits: int, p: Prefix): seq<int> {
    if PrefixByte(bits, p).Some? then [PrefixByte(bits, p).value] else []
  }

  /** Prefixes are emitted from the first position to the last. */
  lemma PrefixesInOrder(bits: int, p: Prefixes)
    ensures PrefixBytes(bits, p)
         == One(bits, p[0]) + One(bits, p[1]) + One(bits, p[2]) + One(bits, p[3]) + One(bits, p[4]) + One(bits, p[5])
            + One(bits, p[6])
  {
    hide PrefixBytes, One;
    PrefixesFrom(bits, p, 7);
    PrefixesFrom(bits, p, 6);
    PrefixesFrom(bits, p, 5);
    PrefixesFrom(bits, p, 4);
    PrefixesFrom(bits, p, 3);
    PrefixesFrom(bits, p, 2);
    PrefixesFrom(bits, p, 1);
    assert p[..7] == p;
    NoPrefixes(bits, p[..0]);
  }

  lemma NoPrefixes(bits: int, p: seq<Prefix>)
    requires p == []
    ensures PrefixBytes(bits, p) == []
  {
  }

  lemma PrefixesFrom(bits: int, p: Prefixes, k: nat)
    requires 1 <= k <= 7
    ensures PrefixBytes(bits, p[..k]) == PrefixBytes(bits, p[..k - 1]) + One(bits, p[k - 1])
  {
    hide PrefixByte;
    assert p[..k][..k - 1] == p[..k - 1];
  }

  /** The operand-size codes: with the prefixes that they leave, the processor works with
      operands of that size, unless the instruction came with another size prefix. */
  lemma OperandSizeCodes(i: Instruction, s: Sizing)
    requires s.ok && i.bits in {16, 32, 64} && s.work.prefixes[OSIZE] == Empty
    ensures var p := SizeStep(i, s, Operand16).work.prefixes[OSIZE];
            OperandSize(i.bits, One(i.bits, p) == [0x66]) == 16 && One(i.bits, p) in {[], [0x66]}
    ensures var p := SizeStep(i, s, Operand32).work.prefixes[OSIZE];
            OperandSize(i.bits, One(i.bits, p) == [0x66]) == 32 && One(i.bits, p) in {[], [0x66]}
  {
  }

  /** The codes that demand a prefix: it is there afterwards, unless another one was. */
  lemma DemandedPrefixes(i: Instruction, s: Sizing)
    requires s.ok
    ensures s.work.prefixes[REP] == Empty ==> One(i.bits, SizeStep(i, s, MustRep).work.prefixes[REP]) == [0xF3]
    ensures s.work.prefixes[REP] == Empty ==> One(i.bits, SizeStep(i, s, MustRepne).work.prefixes[REP]) == [0xF2]
    ensures s.work.prefixes[WAIT] == Empty ==> One(i.bits, SizeStep(i, s, Wait).work.prefixes[WAIT]) == [0x9B]
  {
  }

  /** A prefix that was written stays. */
  lemma WrittenPrefixes(i: Instruction, s: Sizing, c: Code, k: nat)
    requires k < 7 && s.work.prefixes[k] != Empty
    requires c in {Operand16, Operand32, MustRep, MustRepne, Wait}
    ensures SizeStep(i, s, c).work.prefixes[k] == s.work.prefixes[k]
  {
  }

  /** The address-size codes: the byte that they emit gives the processor addresses of that
      size, and is left out when the prefix was written. */
  lemma AddressSizeCodes(i: Instruction, place: Place, g: Gen)
    requires i.bits in {16, 32, 64}
    ensures i.bits != 64 && g.work.prefixes[ASIZE] == Empty ==>
              exists b: seq<int> :: b in {[], [0x67]} && AddressSize(i.bits, b == [0x67]) == 16
                                    && GenStep(i, place, g, Address16).out == g.out + Raws(b)
    ensures g.work.prefixes[ASIZE] == Empty ==>
              exists b: seq<int> :: b in {[], [0x67]} && AddressSize(i.bits, b == [0x67]) == 32
                                    && GenStep(i, place, g, Address32).out == g.out + Raws(b)
    ensures g.work.prefixes[ASIZE] == A16 ==> GenStep(i, place, g, Address16).out == g.out
    ensures g.work.prefixes[ASIZE] == A32 ==> GenStep(i, place, g, Address32).out == g.out
  {
    assert Raws([]) == [] && Raws([0x67]) == [Raw(0x67)] && g.out + [] == g.out;
    var b16 := if i.bits == 32 then [0x67] else [];
    var b32 := if i.bits != 32 then [0x67] else [];
    assert GenStep(i, place, g, Address16).out == g.out + Raws(b16) || g.work.prefixes[ASIZE] == A16;
    assert GenStep(i, place, g, Address32).out == g.out + Raws(b32) || g.work.prefixes[ASIZE] == A32;
  }
}
