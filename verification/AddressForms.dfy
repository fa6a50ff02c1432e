/** The addressing forms that exist, against those that process_ea accepts. */
module AddressForms {
  import opened Wrappers
  import opened Encode
  import opened EffectiveAddress
  import InstructionDecode

  /** Some ModRM, SIB and REX has this sum of registers as its address, displacement aside. */
  ghost predicate HasForm(bits: int, addrbits: int, b: Option<nat>, i: Option<nat>, s: int) {
    exists ea :: WellFormed(addrbits, 0, ea) && DecodesTo(bits, addrbits, ea, b, i, s)
  }

  /** The valuation that sets one register. */
  function Only(r: nat): Valuation {
    k => if k == r then 1 else 0
  }

  /** How often a register is in a sum. */
  function Count(b: Option<nat>, i: Option<nat>, s: int, r: nat): int {
    (if b == Some(r) then 1 else 0) + if i == Some(r) then s else 0
  }

  lemma SumCounts(b: Option<nat>, i: Option<nat>, s: int, r: nat)
    ensures Sum(Only(r), b, i, s) == Count(b, i, s, r)
  {
  }

  lemma SameCounts(b: Option<nat>, i: Option<nat>, s: int, h: Option<nat>, x: Option<nat>, t: int, r: nat)
    requires SameSum(b, i, s, h, x, t)
    ensures Count(b, i, s, r) == Count(h, x, t, r)
  {
    SumCounts(b, i, s, r);
    SumCounts(h, x, t, r);
  }

  // ----- 32- and 64-bit addressing -----

  /** The sums of the processor's own forms: a base, and an index other than ESP scaled by
      1, 2, 4 or 8. */
  ghost predicate Native(h: Option<nat>, x: Option<nat>, t: int) {
    x != Some(ESP) && t in {1, 2, 4, 8}
  }

  lemma FormIsNative(bits: int, addrbits: int, ea: Ea, b: Option<nat>, i: Option<nat>, s: int)
    returns (h: Option<nat>, x: Option<nat>, t: int)
    requires addrbits != 16 && WellFormed(addrbits, 0, ea) && DecodesTo(bits, addrbits, ea, b, i, s)
    ensures Native(h, x, t) && SameSum(b, i, s, h, x, t)
  {
    var mod, rm := ea.modrm / 64, ea.modrm % 8;
    assert forall v: Valuation :: Registers(v, bits, addrbits, ea, 0) == Sum(v, b, i, s)
                               && Registers(v, bits, addrbits, ea, 1) == Sum(v, b, i, s);
    t := 1;
    x := None;
    if rm == 4 {
      var sib := ea.sib.value;
      h := if sib % 8 == 5 && mod == 0 then None else Some(sib % 8 + if ea.rex.b then 8 else 0);
      var index := sib / 8 % 8 + if ea.rex.x then 8 else 0;
      x := if index == 4 then None else Some(index);
      t := if sib / 64 == 0 then 1 else if sib / 64 == 1 then 2 else if sib / 64 == 2 then 4 else 8;
    } else if rm == 5 && mod == 0 {
      h := None;
      assert bits == 64 ==> Registers(Only(0), bits, addrbits, ea, 0) != Registers(Only(0), bits, addrbits, ea, 1);
    } else {
      h := Some(rm + if ea.rex.b then 8 else 0);
    }
  }

  /** What is a native sum can be placed: from how often each register occurs. */
  lemma NativeIsPlaceable(b: Option<nat>, i: Option<nat>, s: int, h: Option<nat>, x: Option<nat>, t: int)
    requires Native(h, x, t) && SameSum(b, i, s, h, x, t)
    requires (i.Some? ==> s != 0) && (b.Some? && i.Some? ==> b != i)
    ensures Placeable(b, i, s)
  {
    if i.Some? {
      SameCounts(b, i, s, h, x, t, i.value);
      if b.Some? {
        SameCounts(b, i, s, h, x, t, b.value);
      }
    }
  }

  /** An encoding, with a displacement of four bytes. */
  lemma NativeHasForm(bits: int, addrbits: int, h: Option<nat>, x: Option<nat>, t: int)
    requires addrbits != 16 && Numbered(h) && Numbered(x) && Native(h, x, t) && (h.Some? || x.Some?)
    ensures HasForm(bits, addrbits, h, x, t)
  {
    hide WellFormed, DecodesTo, GenModRM, GenSib, SpareRex;
    var mod := if h.None? then 0 else 2;
    var index, scale := if x.None? then 4 else x.value % 8, if x.None? then 0 else ScaleLog(t);
    var none := Register(0, false, false, false);
    var ea := Ea(0, SpareRex(none).(x := Bit3(x), b := Bit3(h)), false, GenModRM(mod, 0, 4),
                 Some(GenSib(scale, index, if h.None? then 5 else h.value % 8)), Plain(4));
    SibForm(bits, addrbits, none, h, x, t, mod, 4, ea);
  }

  lemma SameSumHasForm(bits: int, addrbits: int, b: Option<nat>, i: Option<nat>, s: int,
                       h: Option<nat>, x: Option<nat>, t: int)
    requires HasForm(bits, addrbits, h, x, t) && SameSum(b, i, s, h, x, t)
    ensures HasForm(bits, addrbits, b, i, s)
  {
    hide WellFormed, Registers, Sum;
    var ea :| WellFormed(addrbits, 0, ea) && DecodesTo(bits, addrbits, ea, h, x, t);
    assert DecodesTo(bits, addrbits, ea, b, i, s);
  }

  /** Registers can be placed exactly when the processor has a form for their sum. */
  lemma PlaceableIff(bits: int, addrbits: int, b: Option<nat>, i: Option<nat>, s: int)
    requires addrbits != 16 && Numbered(b) && Numbered(i) && (b.Some? || i.Some?)
    requires (i.Some? ==> s != 0) && (b.Some? && i.Some? ==> b != i)
    ensures Placeable(b, i, s) <==> HasForm(bits, addrbits, b, i, s)
  {
    hide WellFormed, DecodesTo;
    if HasForm(bits, addrbits, b, i, s) {
      var ea :| WellFormed(addrbits, 0, ea) && DecodesTo(bits, addrbits, ea, b, i, s);
      var h, x, t := FormIsNative(bits, addrbits, ea, b, i, s);
      NativeIsPlaceable(b, i, s, h, x, t);
    }
    if Placeable(b, i, s) {
      var h, x, t := b, i, s;
      if i.None? {
        t := 1;
      } else if b.None? && s == 1 {
        h, x := i, None;
      } else if b.None? && s in {3, 5, 9} {
        h, t := i, s - 1;
      } else if i == Some(ESP) {
        h, x := i, b;
      }
      NativeHasForm(bits, addrbits, h, x, t);
      SameSumHasForm(bits, addrbits, b, i, s, h, x, t);
    }
  }

  // ----- 16-bit addressing -----

  lemma Form16Counts(bits: int, ea: Ea, b: Option<nat>, i: Option<nat>, s: int, r: nat)
    requires WellFormed(16, 0, ea) && DecodesTo(bits, 16, ea, b, i, s)
    ensures Registers16(Only(r), ea.modrm / 64, ea.modrm % 8) == Count(b, i, s, r)
  {
    assert Registers(Only(r), bits, 16, ea, 0) == Sum(Only(r), b, i, s);
    SumCounts(b, i, s, r);
  }

  /** A form of the processor has each register once, in one of nine combinations. */
  lemma FormIsPlaceable16(bits: int, ea: Ea, b: Option<nat>, i: Option<nat>, s: int)
    requires WellFormed(16, 0, ea) && DecodesTo(bits, 16, ea, b, i, s)
    requires (i.Some? ==> s != 0) && (b.Some? && i.Some? ==> b != i)
    ensures Placeable16(b, i, s)
  {
    hide WellFormed, DecodesTo;
    if b.Some? {
      Form16Counts(bits, ea, b, i, s, b.value);
    }
    if i.Some? {
      Form16Counts(bits, ea, b, i, s, i.value);
    }
  }

  /** The rm field of a placeable combination. */
  function Field16(b: Option<nat>, i: Option<nat>): nat {
    var pair := (if b.Some? then {b.value} else {}) + if i.Some? then {i.value} else {};
    if pair == {BX, SI} then 0 else if pair == {BX, DI} then 1 else if pair == {BP, SI} then 2
    else if pair == {BP, DI} then 3 else if pair == {SI} then 4 else if pair == {DI} then 5
    else if pair == {BP} then 6 else 7
  }

  lemma PlaceableHasForm16(bits: int, b: Option<nat>, i: Option<nat>, s: int)
    requires Placeable16(b, i, s) && (b.Some? || i.Some?)
    ensures HasForm(bits, 16, b, i, s)
  {
    hide WellFormed, DecodesTo, GenModRM, SpareRex;
    var none, rm := Register(0, false, false, false), Field16(b, i);
    var ea := Ea(0, SpareRex(none), false, GenModRM(2, 0, rm), None, Plain(2));
    Pairs(b, i);
    Form16(bits, none, b, i, rm, 2, ea);
  }

  lemma Pairs(b: Option<nat>, i: Option<nat>)
    requires Placeable16(b, i, 1) && (b.Some? || i.Some?)
    ensures Field16(b, i) < 8
    ensures forall v: Valuation :: Registers16(v, 2, Field16(b, i)) == Sum(v, b, i, 1)
  {
  }

  lemma PlaceableIff16(bits: int, b: Option<nat>, i: Option<nat>, s: int)
    requires (b.Some? || i.Some?) && (i.Some? ==> s != 0) && (b.Some? && i.Some? ==> b != i)
    ensures Placeable16(b, i, s) <==> HasForm(bits, 16, b, i, s)
  {
    hide WellFormed, DecodesTo, Placeable16;
    if Placeable16(b, i, s) {
      PlaceableHasForm16(bits, b, i, s);
    }
    if HasForm(bits, 16, b, i, s) {
      var ea :| WellFormed(16, 0, ea) && DecodesTo(bits, 16, ea, b, i, s);
      FormIsPlaceable16(bits, ea, b, i, s);
    }
  }

  // ----- operands -----

  /** The sizes that may be written for a displacement. */
  predicate DisplacementAllowed(m: Memory, addrbits: int) {
    m.dispSize != 64 && m.dispSize != if addrbits == 16 then 32 else 16
  }

  /**
    An operand without a register twice is accepted exactly when its registers are general
    ones of the address size for which the processor has a form.
   */
  lemma AcceptedIffEncodable(m: Memory, bits: int, addrbits: int)
    requires addrbits in {16, 32, 64} && ValidRegister(m.base) && ValidRegister(m.Index()) && !PureOffset(m)
    requires m.base.Some? && m.Index().Some? ==> Number(m.base) != Number(m.Index())
    ensures Encodable(m, addrbits) <==>
              && Fitting(m.base, addrbits) && Fitting(m.Index(), addrbits) && DisplacementAllowed(m, addrbits)
              && HasForm(bits, addrbits, Number(m.base), Number(m.Index()), m.scale)
  {
    hide HasForm, Placeable, Placeable16;
    var b, i := Number(m.base), Number(m.Index());
    if Fitting(m.base, addrbits) && Fitting(m.Index(), addrbits) {
      if addrbits == 16 {
        PlaceableIff16(bits, b, i, m.scale);
      } else {
        PlaceableIff(bits, addrbits, b, i, m.scale);
      }
    }
  }

  /** Registers named twice are not added up, so a sum that has a form can be refused. */
  lemma RegisterTwice(bits: int)
    ensures !Placeable(Some(0), Some(0), 3) && HasForm(bits, 32, Some(0), Some(0), 3)
  {
    NativeHasForm(bits, 32, None, Some(0), 4);
    SameSumHasForm(bits, 32, Some(0), Some(0), 3, None, Some(0), 4);
  }

  // ----- displacements and address sizes -----

  /** The byte form is used exactly when it is forced, or its extension is the known offset. */
  lemma ByteFormIff(m: Memory, addrbits: int)
    requires addrbits in {16, 32, 64}
    ensures var o := SignExtend(m.offset, if addrbits == 16 then 16 else 32);
            ByteForm(m, o) <==>
              !m.wordOffs && (m.byteOffs || (m.absolute && !m.unknown && SignExtend(m.offset, 8) == o))
  {
    hide SignExtend;
    ShortDisplacement(m.offset, addrbits);
    ByteRange(m.offset);
  }

  lemma ByteRange(x: int)
    ensures -128 <= SignExtend(x, 8) <= 127
  {
  }

  /** The sizes that a mode has, and those of them that a written prefix asks for. */
  lemma AllowedAreTheProcessors(bits: int)
    requires bits in {16, 32, 64}
    ensures var own, other := InstructionDecode.AddressSize(bits, false), InstructionDecode.AddressSize(bits, true);
            && own == bits
            && AllowedSizes(bits, NoPrefix) == {own, other}
            && AllowedSizes(bits, PrefixAsp) == {other}
            && (forall a :: a in AllowedSizes(bits, PrefixA16) <==> a == 16 && a in {own, other})
            && (forall a :: a in AllowedSizes(bits, PrefixA32) <==> a == 32 && a in {own, other})
            && (forall a :: a in AllowedSizes(bits, PrefixA64) <==> a == 64 && a in {own, other})
  {
  }
}
