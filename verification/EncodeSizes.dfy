/** calcsize predicts what gencode emits: the exact difference, and when it is zero. */
module EncodeSizes {
  import opened Wrappers
  import opened Labels
  import opened Output
  import opened Bytecode
  import opened Encode

  // ----- quantities read off a template -----

  predicate IsOpcode(c: Code) {
    c.Literal? || c.PlusRegister?
  }

  predicate HasOpcode(codes: seq<Code>) {
    exists k :: 0 <= k < |codes| && IsOpcode(codes[k])
  }

  predicate HasLock(codes: seq<Code>) {
    exists k :: 0 <= k < |codes| && codes[k].LockAsRexR?
  }

  /** \313, with which gencode clears the REX bits. */
  predicate HasClear(codes: seq<Code>) {
    exists k :: 0 <= k < |codes| && codes[k].Address64?
  }

  predicate HasVex(codes: seq<Code>) {
    exists k :: 0 <= k < |codes| && codes[k].Vex?
  }

  predicate HasEvex(codes: seq<Code>) {
    exists k :: 0 <= k < |codes| && codes[k].Evex?
  }

  /** The size of one code on which both interpreters agree; effective addresses are apart. */
  function Common(i: Instruction, asize: Prefix, c: Code): int {
    match c
    case ModRM(_, _) => 0
    case Address16 => if i.bits == 32 && asize != A16 then 1 else 0
    case Address32 => if i.bits != 32 && asize != A32 then 1 else 0
    case _ => FixedSize(i, c)
  }

  function CommonSum(i: Instruction, asize: Prefix, codes: seq<Code>): int {
    if |codes| == 0 then 0 else Common(i, asize, codes[0]) + CommonSum(i, asize, codes[1..])
  }

  /** The size of an effective address, asked for with or without EVEX. */
  function EaSize(i: Instruction, ev: bool, c: Code): nat {
    if c.ModRM? then i.ea(c, ev).Size() else 0
  }

  /** The effective addresses as calcsize sees them: EVEX from its introducer on. */
  function EaCounted(i: Instruction, ev: bool, codes: seq<Code>): nat
    decreases |codes|
  {
    if |codes| == 0 then 0 else EaSize(i, ev, codes[0]) + EaCounted(i, ev || codes[0].Evex?, codes[1..])
  }

  // ----- the REX bits while gencode runs -----

  /** The three codes with which gencode changes the REX bits. */
  function RexAfter(r: Rex, c: Code): Rex {
    match c
    case Address64 => NO_REX
    case WithRexW => r.(w := true)
    case LockAsRexR => r.(l := false, r := false)
    case _ => r
  }

  /** The REX bits that gencode has in front of code `k`. */
  function RexBefore(r: Rex, codes: seq<Code>, k: nat): Rex
    requires k <= |codes|
    decreases k
  {
    if k == 0 then r else RexBefore(RexAfter(r, codes[0]), codes[1..], k - 1)
  }

  /** The effective addresses as gencode sees them. */
  function EaEmitted(i: Instruction, r: Rex, codes: seq<Code>): nat
    decreases |codes|
  {
    if |codes| == 0 then 0 else EaSize(i, r.ev, codes[0]) + EaEmitted(i, RexAfter(r, codes[0]), codes[1..])
  }

  /** The bits ask for a REX prefix. */
  predicate NeedsRex(r: Rex) {
    r.Mask() && !r.Vector()
  }

  /** Some opcode code finds bits that ask for a REX prefix. */
  predicate RexEmitted(i: Instruction, r: Rex, codes: seq<Code>) {
    i.bits == 64 && exists k :: 0 <= k < |codes| && IsOpcode(codes[k]) && NeedsRex(RexBefore(r, codes, k))
  }

  /** Some \334 finds REX.R set, and turns it into a LOCK prefix. */
  predicate LockEmitted(r: Rex, codes: seq<Code>) {
    exists k :: 0 <= k < |codes| && codes[k].LockAsRexR? && RexBefore(r, codes, k).r
  }

  /** The \34 operands that calcsize takes for four bytes and gencode for two. */
  function NarrowQwords(i: Instruction, codes: seq<Code>): nat {
    if |codes| == 0 then 0
    else
      (if codes[0].ByWord? && i.bits == 16 && NarrowQword(i.Op(codes[0].op)) then 1 else 0)
      + NarrowQwords(i, codes[1..])
  }

  predicate NarrowQword(o: Operand) {
    o.bits64 && !o.bits32 && !o.bits16
  }

  /** Space that is reserved by \340 but was not counted. */
  function Uncounted(i: Instruction, codes: seq<Code>): int {
    if |codes| == 0 then 0
    else (if codes[0].Reserve? then UncountedOne(i.Op(0)) else 0) + Uncounted(i, codes[1..])
  }

  function UncountedOne(o: Operand): int {
    if o.segment != NO_SEG then 0
    else Unsigned64(o.offset) - if o.Absolute() && !o.forward then o.offset else 0
  }

  /** The bytes of VEX and EVEX introducers, with the REX bits that gencode then has. */
  function Introducers(w: Work, r: Rex, codes: seq<Code>): nat
    decreases |codes|
  {
    if |codes| == 0 then 0
    else
      (if codes[0].Vex? then VexLength(w.(rex := r)) else if codes[0].Evex? then 4 else 0)
      + Introducers(w, RexAfter(r, codes[0]), codes[1..])
  }

  /** The codes with which gencode changes the REX bits leave the bits that matter alone. */
  predicate Steady(i: Instruction, r: Rex, codes: seq<Code>) {
    forall k :: 0 <= k < |codes| ==> SteadyCode(i, r, codes[k])
  }

  predicate SteadyCode(i: Instruction, r: Rex, c: Code) {
    match c
    case Address64 => !r.Mask() && !r.ev
    case LockAsRexR => i.bits == 64 ==> !r.r
    case WithRexW => r.w
    case _ => true
  }

  // ----- what calcsize adds up -----

  lemma {:induction false} FailureStays(i: Instruction, s: Sizing, codes: seq<Code>)
    requires !s.ok
    ensures SizeCodes(i, s, codes) == s
    decreases |codes|
  {
    if |codes| > 0 {
      FailureStays(i, s, codes[1..]);
    }
  }

  lemma HasTail(codes: seq<Code>)
    requires |codes| > 0
    ensures HasOpcode(codes) <==> IsOpcode(codes[0]) || HasOpcode(codes[1..])
    ensures HasLock(codes) <==> codes[0].LockAsRexR? || HasLock(codes[1..])
    ensures HasVex(codes) <==> codes[0].Vex? || HasVex(codes[1..])
    ensures HasEvex(codes) <==> codes[0].Evex? || HasEvex(codes[1..])
    ensures HasClear(codes) <==> codes[0].Address64? || HasClear(codes[1..])
  {
    var t := codes[1..];
    assert forall k :: 0 <= k < |t| ==> t[k] == codes[k + 1];
    if k :| 0 <= k < |codes| && IsOpcode(codes[k]) { assert k > 0 ==> t[k - 1] == codes[k]; }
    if k :| 0 <= k < |codes| && codes[k].LockAsRexR? { assert k > 0 ==> t[k - 1] == codes[k]; }
    if k :| 0 <= k < |codes| && codes[k].Vex? { assert k > 0 ==> t[k - 1] == codes[k]; }
    if k :| 0 <= k < |codes| && codes[k].Evex? { assert k > 0 ==> t[k - 1] == codes[k]; }
    if k :| 0 <= k < |codes| && codes[k].Address64? { assert k > 0 ==> t[k - 1] == codes[k]; }
  }

  /** One step: the length, the address-size prefix and the flags. */
  lemma SizeStepAdds(i: Instruction, s: Sizing, c: Code)
    requires s.ok && SizeStep(i, s, c).ok && i.bits in {16, 32, 64}
    ensures SizeStep(i, s, c).length == s.length + Common(i, s.work.prefixes[ASIZE], c) + EaSize(i, s.work.rex.ev, c)
    ensures SizeStep(i, s, c).work.prefixes[ASIZE] == s.work.prefixes[ASIZE]
  {
    hide SizeStep, Common;
    if c.PlusRegister? || c.ModRM? {
      RegisterSizeAdds(i, s, c);
    } else if Structural(c) {
      StructuralSizeAdds(i, s, c);
    } else if Prefixing(c) {
      PrefixingSizeAdds(i, s, c);
    } else {
      FieldSizeAdds(i, s, c);
    }
  }

  /** The codes that only set prefixes or flags. */
  predicate Prefixing(c: Code) {
    c.Operand16? || c.Operand32? || c.MustRep? || c.MustRepne? || c.Wait? || c.NoRexW? || c.NoHigh?
  }

  lemma RegisterSizeAdds(i: Instruction, s: Sizing, c: Code)
    requires s.ok && SizeStep(i, s, c).ok && (c.PlusRegister? || c.ModRM?)
    ensures SizeStep(i, s, c).length == s.length + Common(i, s.work.prefixes[ASIZE], c) + EaSize(i, s.work.rex.ev, c)
    ensures SizeStep(i, s, c).work.prefixes[ASIZE] == s.work.prefixes[ASIZE]
  {
    hide RegisterRex, Rex.Or;
  }

  lemma StructuralSizeAdds(i: Instruction, s: Sizing, c: Code)
    requires s.ok && SizeStep(i, s, c).ok && i.bits in {16, 32, 64}
    requires Structural(c) && !(c.PlusRegister? || c.ModRM?)
    ensures SizeStep(i, s, c).length == s.length + Common(i, s.work.prefixes[ASIZE], c) + EaSize(i, s.work.rex.ev, c)
    ensures SizeStep(i, s, c).work.prefixes[ASIZE] == s.work.prefixes[ASIZE]
  {
    hide RegisterRex, SourceRegister, Rex.Or;
  }

  lemma PrefixingSizeAdds(i: Instruction, s: Sizing, c: Code)
    requires s.ok && Prefixing(c)
    ensures SizeStep(i, s, c).length == s.length + Common(i, s.work.prefixes[ASIZE], c) + EaSize(i, s.work.rex.ev, c)
    ensures SizeStep(i, s, c).work.prefixes[ASIZE] == s.work.prefixes[ASIZE]
  {
    hide Rex.Or;
  }

  lemma FieldSizeAdds(i: Instruction, s: Sizing, c: Code)
    requires s.ok && !(Structural(c) || Prefixing(c))
    ensures SizeStep(i, s, c).length == s.length + Common(i, s.work.prefixes[ASIZE], c) + EaSize(i, s.work.rex.ev, c)
    ensures SizeStep(i, s, c).work.prefixes[ASIZE] == s.work.prefixes[ASIZE]
  {
    hide FixedSize;
  }

  /** The flags that only the codes set; an effective address adds register bits alone. */
  lemma SizeStepFlags(i: Instruction, s: Sizing, c: Code)
    requires s.ok && SizeStep(i, s, c).ok && (c.ModRM? ==> PlainRex(i.ea(c, s.work.rex.ev).rex))
    ensures SameFlags(s.work.rex, c, SizeStep(i, s, c).work.rex)
  {
    hide SizeStep, SameFlags, AddedRex;
    SizeStepRex(i, s, c);
    AddedFlags(i, s.work.rex.ev, c);
    FlagsOf(s.work.rex, c, AddedRex(i, s.work.rex.ev, c), SizeStep(i, s, c).work.rex);
  }

  /** The REX bits that a code contributes to calcsize. */
  function AddedRex(i: Instruction, ev: bool, c: Code): Rex {
    match c
    case PlusRegister(op, _) => RegisterRex(i.Op(op).register)
    case ModRM(_, _) => i.ea(c, ev).rex
    case Evex(_, _, _, _) => NO_REX.(ev := true)
    case Vex(_, _, _) => NO_REX.(v := true)
    case WithRexW => NO_REX.(w := true)
    case NoHigh => NO_REX.(nh := true)
    case LockAsRexR => NO_REX.(l := true)
    case _ => NO_REX
  }

  lemma AddedFlags(i: Instruction, ev: bool, c: Code)
    requires c.ModRM? ==> PlainRex(i.ea(c, ev).rex)
    ensures var r := AddedRex(i, ev, c); r.ev == c.Evex? && r.v == c.Vex? && r.l == c.LockAsRexR?
  {
  }

  lemma SizeStepRex(i: Instruction, s: Sizing, c: Code)
    requires s.ok && SizeStep(i, s, c).ok
    ensures SizeStep(i, s, c).work.rex == s.work.rex.Or(AddedRex(i, s.work.rex.ev, c))
  {
    hide SizeStep, AddedRex, Rex.Or;
    if c.PlusRegister? || c.ModRM? || c.Vex? || c.Evex? {
      RegisterStepRex(i, s, c);
    } else {
      OtherStepRex(i, s, c);
    }
  }

  lemma RegisterStepRex(i: Instruction, s: Sizing, c: Code)
    requires s.ok && SizeStep(i, s, c).ok && (c.PlusRegister? || c.ModRM? || c.Vex? || c.Evex?)
    ensures SizeStep(i, s, c).work.rex == s.work.rex.Or(AddedRex(i, s.work.rex.ev, c))
  {
    hide Rex.Or, SourceRegister, RegisterRex;
  }

  lemma OtherStepRex(i: Instruction, s: Sizing, c: Code)
    requires s.ok && SizeStep(i, s, c).ok && !(c.PlusRegister? || c.ModRM? || c.Vex? || c.Evex?)
    ensures SizeStep(i, s, c).work.rex == s.work.rex.Or(AddedRex(i, s.work.rex.ev, c))
  {
    hide Rex.Or;
    OrNothing(s.work.rex);
    if !(c.WithRexW? || c.NoHigh? || c.LockAsRexR?) {
      hide AddedRex, SizeStep;
      RexStays(i, s, c);
    }
  }

  lemma RexStays(i: Instruction, s: Sizing, c: Code)
    requires s.ok && !(c.PlusRegister? || c.ModRM? || c.Vex? || c.Evex?)
    requires !(c.WithRexW? || c.NoHigh? || c.LockAsRexR?)
    ensures SizeStep(i, s, c).work.rex == s.work.rex && AddedRex(i, s.work.rex.ev, c) == NO_REX
  {
    hide FixedSize;
  }

  lemma OrNothing(r: Rex)
    ensures r.Or(NO_REX) == r
  {
  }

  predicate SameFlags(r: Rex, c: Code, t: Rex) {
    t.ev == (r.ev || c.Evex?) && t.v == (r.v || c.Vex?) && t.l == (r.l || c.LockAsRexR?)
  }

  lemma FlagsOf(r: Rex, c: Code, added: Rex, t: Rex)
    requires added.ev == c.Evex? && added.v == c.Vex? && added.l == c.LockAsRexR?
    requires t == r.Or(added)
    ensures SameFlags(r, c, t)
  {
  }

  /** process_ea sets register bits only. */
  predicate PlainRex(r: Rex) {
    !r.ev && !r.v && !r.l && !r.nh
  }

  ghost predicate PlainEas(i: Instruction) {
    forall c: Code, ev :: c.ModRM? ==> PlainRex(i.ea(c, ev).rex)
  }

  lemma {:induction false} SizeCodesAdds(i: Instruction, s: Sizing, codes: seq<Code>)
    requires s.ok && SizeCodes(i, s, codes).ok && i.bits in {16, 32, 64} && PlainEas(i)
    ensures var t := SizeCodes(i, s, codes);
            && t.work.rex.ev == (s.work.rex.ev || HasEvex(codes))
            && t.work.rex.v == (s.work.rex.v || HasVex(codes))
            && t.work.rex.l == (s.work.rex.l || HasLock(codes))
            && t.work.prefixes[ASIZE] == s.work.prefixes[ASIZE]
            && t.length == s.length + CommonSum(i, s.work.prefixes[ASIZE], codes)
                                    + EaCounted(i, s.work.rex.ev, codes)
            && (i.bits != 64 ==> !HasClear(codes))
    decreases |codes|
  {
    hide SizeStep, Common, HasEvex, HasVex, HasLock, HasOpcode, HasClear, EaSize;
    if |codes| > 0 {
      var u := SizeStep(i, s, codes[0]);
      if !u.ok {
        FailureStays(i, u, codes[1..]);
      }
      HasTail(codes);
      SizeStepAdds(i, s, codes[0]);
      SizeStepFlags(i, s, codes[0]);
      SizeCodesAdds(i, u, codes[1..]);
      ClearNeeds64(i, s, codes[0]);
    } else {
      NothingThere();
    }
  }

  lemma ClearNeeds64(i: Instruction, s: Sizing, c: Code)
    requires s.ok && SizeStep(i, s, c).ok
    ensures c.Address64? ==> i.bits == 64
  {
  }

  lemma NothingThere()
    ensures !HasEvex([]) && !HasVex([]) && !HasLock([]) && !HasOpcode([]) && !HasClear([])
  {
  }

  // ----- what gencode adds up -----

  /** The codes whose size depends on more than the operands. */
  predicate Structural(c: Code) {
    || c.Literal? || c.PlusRegister? || c.ModRM? || c.Vex? || c.Evex? || c.Reserve? || c.LockAsRexR? || c.WithRexW?
    || c.Address16? || c.Address32? || c.Address64? || c.Vsib?
  }

  /** What one step of gencode adds. */
  function GenGrowth(i: Instruction, g: Gen, c: Code): int {
    Common(i, g.work.prefixes[ASIZE], c) + EaSize(i, g.work.rex.ev, c)
    + (if c.Reserve? then UncountedOne(i.Op(0)) else 0)
    + (if c.Vex? then VexLength(g.work) else if c.Evex? then 4 else 0)
    + (if IsOpcode(c) && RexPending(i, g) then 1 else 0)
    + (if c.LockAsRexR? && g.work.rex.r then 1 else 0)
    - (if c.ByWord? && i.bits == 16 && NarrowQword(i.Op(c.op)) then 2 else 0)
  }

  lemma GenStepAdds(i: Instruction, place: Place, g: Gen, c: Code)
    requires i.bits in {16, 32, 64}
    ensures |GenStep(i, place, g, c).out| == |g.out| + GenGrowth(i, g, c)
  {
    hide GenStep, GenGrowth;
    if Structural(c) {
      StructuralStepAdds(i, place, g, c);
    } else {
      FieldStepAdds(i, place, g, c);
    }
  }

  lemma StructuralStepAdds(i: Instruction, place: Place, g: Gen, c: Code)
    requires Structural(c) && i.bits in {16, 32, 64}
    ensures |GenStep(i, place, g, c).out| == |g.out| + GenGrowth(i, g, c)
  {
    hide VexLength, RexByte;
  }

  lemma FieldStepAdds(i: Instruction, place: Place, g: Gen, c: Code)
    requires !Structural(c)
    ensures |GenStep(i, place, g, c).out| == |g.out| + GenGrowth(i, g, c)
  {
    hide Is4Cell, ConditionByte, VexLength;
  }

  /** What a step leaves of the state: the REX bits change as `RexAfter` says. */
  lemma GenStepKeeps(i: Instruction, place: Place, g: Gen, c: Code)
    ensures var t := GenStep(i, place, g, c);
            && t.work == g.work.(rex := RexAfter(g.work.rex, c), kind := t.work.kind)
            && t.rexDone == (g.rexDone || (IsOpcode(c) && RexPending(i, g)))
  {
    hide RexByte, Rex.Mask, Rex.Vector, FieldCells, EaCells, VexBytes;
  }

  lemma {:induction false} IntroducersSame(w: Work, w': Work, r: Rex, codes: seq<Code>)
    requires w.cm == w'.cm && w.prefixes == w'.prefixes
    ensures Introducers(w, r, codes) == Introducers(w', r, codes)
    decreases |codes|
  {
    if |codes| > 0 {
      IntroducersSame(w, w', RexAfter(r, codes[0]), codes[1..]);
    }
  }

  /** The traces of a template and of its tail. */
  lemma TraceTail(i: Instruction, r: Rex, codes: seq<Code>)
    requires |codes| > 0
    ensures RexEmitted(i, r, codes) <==>
              (i.bits == 64 && IsOpcode(codes[0]) && NeedsRex(r)) || RexEmitted(i, RexAfter(r, codes[0]), codes[1..])
    ensures LockEmitted(r, codes) <==>
              (codes[0].LockAsRexR? && r.r) || LockEmitted(RexAfter(r, codes[0]), codes[1..])
  {
    hide RexAfter, NeedsRex;
    var t, r' := codes[1..], RexAfter(r, codes[0]);
    assert forall k :: 0 <= k < |t| ==> t[k] == codes[k + 1] && RexBefore(r', t, k) == RexBefore(r, codes, k + 1);
    if k :| 0 <= k < |codes| && IsOpcode(codes[k]) && NeedsRex(RexBefore(r, codes, k)) {
      assert k > 0 ==> t[k - 1] == codes[k] && RexBefore(r', t, k - 1) == RexBefore(r, codes, k);
    }
    if k :| 0 <= k < |codes| && codes[k].LockAsRexR? && RexBefore(r, codes, k).r {
      assert k > 0 ==> t[k - 1] == codes[k] && RexBefore(r', t, k - 1) == RexBefore(r, codes, k);
    }
    if IsOpcode(codes[0]) && NeedsRex(r) {
      assert RexBefore(r, codes, 0) == r;
    }
    if codes[0].LockAsRexR? && r.r {
      assert RexBefore(r, codes, 0) == r;
    }
    if k :| 0 <= k < |t| && IsOpcode(t[k]) && NeedsRex(RexBefore(r', t, k)) {
      assert IsOpcode(codes[k + 1]) && NeedsRex(RexBefore(r, codes, k + 1));
    }
    if k :| 0 <= k < |t| && t[k].LockAsRexR? && RexBefore(r', t, k).r {
      assert codes[k + 1].LockAsRexR? && RexBefore(r, codes, k + 1).r;
    }
  }

  lemma NotSetAgain(r: Rex, c: Code)
    ensures RexAfter(r, c).r ==> r.r
  {
  }

  /** REX.R is never set again. */
  lemma {:induction false} NoLockAgain(r: Rex, codes: seq<Code>)
    requires !r.r
    ensures !LockEmitted(r, codes)
    decreases |codes|
  {
    if |codes| > 0 {
      hide RexAfter, LockEmitted, RexEmitted;
      TraceTail(Bare(64, Wide()), r, codes);
      NotSetAgain(r, codes[0]);
      NoLockAgain(RexAfter(r, codes[0]), codes[1..]);
    }
  }

  lemma {:induction false} GenCodesAdds(i: Instruction, place: Place, g: Gen, codes: seq<Code>)
    requires i.bits in {16, 32, 64}
    ensures |GenCodes(i, place, g, codes).out| + 2 * NarrowQwords(i, codes)
         == |g.out| + CommonSum(i, g.work.prefixes[ASIZE], codes) + EaEmitted(i, g.work.rex, codes)
          + Uncounted(i, codes) + Introducers(g.work, g.work.rex, codes)
          + (if !g.rexDone && RexEmitted(i, g.work.rex, codes) then 1 else 0)
          + (if LockEmitted(g.work.rex, codes) then 1 else 0)
    decreases |codes|
  {
    hide GenStep, Common, EaSize, RexAfter, RexEmitted, LockEmitted, UncountedOne, VexLength, NarrowQword, IsOpcode,
      RexPending, NeedsRex;
    if |codes| > 0 {
      var t := GenStep(i, place, g, codes[0]);
      GenStepAdds(i, place, g, codes[0]);
      GenStepKeeps(i, place, g, codes[0]);
      TraceTail(i, g.work.rex, codes);
      PendingIs(i, g);
      if codes[0].LockAsRexR? {
        LockClears(g.work.rex, codes[0]);
        NoLockAgain(t.work.rex, codes[1..]);
      }
      IntroducersSame(g.work, t.work, t.work.rex, codes[1..]);
      assert g.work.(rex := g.work.rex) == g.work;
      GenCodesAdds(i, place, t, codes[1..]);
    } else {
      NothingEmitted(i, g.work.rex);
    }
  }

  lemma PendingIs(i: Instruction, g: Gen)
    ensures RexPending(i, g) <==> i.bits == 64 && NeedsRex(g.work.rex) && !g.rexDone
  {
  }

  lemma LockClears(r: Rex, c: Code)
    requires c.LockAsRexR?
    ensures !RexAfter(r, c).r
  {
  }

  lemma NothingEmitted(i: Instruction, r: Rex)
    ensures !RexEmitted(i, r, []) && !LockEmitted(r, [])
  {
  }

  // ----- the two together -----

  lemma FinishPrefixesAdds(i: Instruction, u: Sizing)
    ensures var s := FinishPrefixes(i, u);
            && s.ok == u.ok && s.work.rex == u.work.rex && s.work.cm == u.work.cm
            && s.work.prefixes[ASIZE] == u.work.prefixes[ASIZE] && s.work.prefixes[VEX] == u.work.prefixes[VEX]
            && s.length == u.length + |PrefixBytes(i.bits, s.work.prefixes)|
  {
    hide PrefixBytes;
  }

  lemma FinishVectorAdds(i: Instruction, u: Sizing)
    requires u.ok && FinishVector(i, u).ok && u.work.rex.Vector()
    ensures var s := FinishVector(i, u);
            && s.work.rex.ev == u.work.rex.ev && s.work.rex.v == u.work.rex.v && s.work.rex.l == u.work.rex.l
            && s.work.prefixes[ASIZE] == u.work.prefixes[ASIZE]
            && s.length == u.length + |PrefixBytes(i.bits, s.work.prefixes)| + Announced(s.work)
            && (i.bits != 64 ==> !s.work.rex.r)
  {
    hide PrefixBytes, FinishPrefixes, VexLength;
    var t := u.(work := u.work.(rex := VectorRex(u.work)));
    FinishPrefixesAdds(i, Grow(t, Announced(t.work)));
    SameVexLength(t.work, FinishPrefixes(i, Grow(t, Announced(t.work))).work);
  }

  lemma SameVexLength(w: Work, w': Work)
    requires w.cm == w'.cm && w.rex == w'.rex && w.prefixes[VEX] == w'.prefixes[VEX]
    ensures VexLength(w) == VexLength(w')
  {
  }

  /** What the checks after the loop add, and what they guarantee. */
  lemma FinishAdds(i: Instruction, u: Sizing)
    requires u.ok && Finish(i, u).ok
    ensures var s := Finish(i, u);
            && s.work.rex.ev == u.work.rex.ev && s.work.rex.v == u.work.rex.v && s.work.rex.l == u.work.rex.l
            && s.work.prefixes[ASIZE] == u.work.prefixes[ASIZE]
            && s.length == u.length + |PrefixBytes(i.bits, s.work.prefixes)| + Announced(s.work)
                         + (if s.work.rex.Mask() && !s.work.rex.Vector() then 1 else 0)
            && (i.bits != 64 && s.work.rex.Vector() ==> !s.work.rex.r)
            && (i.bits != 64 && s.work.rex.Mask() && !s.work.rex.Vector() ==> s.work.rex.l && s.work.rex.r)
  {
    hide PrefixBytes, FinishPrefixes, FinishVector, VexLength;
    var t := Settle(u);
    if t.work.rex.Vector() {
      FinishVectorAdds(i, t);
    } else {
      FinishPrefixesAdds(i, if t.work.rex.Mask() then Grow(t, 1) else t);
    }
  }

  lemma FinishNeedsOk(i: Instruction, u: Sizing)
    requires Finish(i, u).ok
    ensures u.ok
  {
  }

  lemma InitialGen(i: Instruction, w: Work)
    ensures var g := Gen(w.(kind := 0), false, Raws(PrefixBytes(i.bits, w.prefixes)));
            && |g.out| == |PrefixBytes(i.bits, w.prefixes)|
            && g.work.rex == w.rex
  {
  }

  /** Whether a REX byte was counted. */
  function RexCounted(w: Work): nat {
    if NeedsRex(w.rex) then 1 else 0
  }

  /**
    The exact relation between the announced length and the emitted code, for every template:
    what gencode writes beyond the announced bytes is what it reserves, introduces, and
    prefixes on its own account, less what it writes narrower.
   */
  lemma SizesRelate(i: Instruction, p: Prefixes, codes: seq<Code>, start: int)
    requires Calcsize(i, p, codes).ok && i.bits in {16, 32, 64} && PlainEas(i)
    ensures var s := Calcsize(i, p, codes);
            var g := Gencode(i, Place(start, s.length), s.work, codes);
            (|g.out| - s.length
            == Uncounted(i, codes) - 2 * NarrowQwords(i, codes)
             + Introducers(s.work, s.work.rex, codes) - Announced(s.work)
             + EaEmitted(i, s.work.rex, codes) - EaCounted(i, false, codes)
             + (if RexEmitted(i, s.work.rex, codes) then 1 else 0)
             + (if LockEmitted(s.work.rex, codes) then 1 else 0)
             - RexCounted(s.work))
  {
    hide Finish, SizeCodes, GenCodes, CommonSum, PrefixBytes, HasLock, HasVex, HasEvex, HasClear, Introducers,
      VexLength, NarrowQwords, Uncounted, EaCounted, EaEmitted, RexEmitted, LockEmitted, PlainEas;
    var u := SizeCodes(i, Start(p), codes);
    var s := Finish(i, u);
    FinishNeedsOk(i, u);
    SizeCodesAdds(i, Start(p), codes);
    FinishAdds(i, u);
    InitialGen(i, s.work);
    var g0 := Gen(s.work.(kind := 0), false, Raws(PrefixBytes(i.bits, s.work.prefixes)));
    GenCodesAdds(i, Place(start, s.length), g0, codes);
    IntroducersSame(s.work, g0.work, s.work.rex, codes);
  }

  /** What calcsize leaves of the flags, and what its checks guarantee about them. */
  lemma AnnouncedFlags(i: Instruction, p: Prefixes, codes: seq<Code>)
    requires Calcsize(i, p, codes).ok && i.bits in {16, 32, 64} && PlainEas(i)
    ensures var w := Calcsize(i, p, codes).work;
            && (w.rex.ev <==> HasEvex(codes)) && (w.rex.v <==> HasVex(codes)) && (w.rex.l <==> HasLock(codes))
            && (i.bits != 64 ==> !HasClear(codes) && (w.rex.r ==> NeedsRex(w.rex)))
            && (i.bits != 64 && NeedsRex(w.rex) ==> HasLock(codes) && w.rex.r)
  {
    hide Finish, SizeCodes, HasEvex, HasVex, HasLock, HasClear, PlainEas, VexLength;
    var u := SizeCodes(i, Start(p), codes);
    FinishNeedsOk(i, u);
    SizeCodesAdds(i, Start(p), codes);
    FinishAdds(i, u);
  }

  // ----- when the lengths are equal -----

  /** At most one VEX or EVEX introducer. */
  predicate OneIntroducer(codes: seq<Code>) {
    forall j, k :: 0 <= j < k < |codes| && (codes[j].Vex? || codes[j].Evex?) ==> !(codes[k].Vex? || codes[k].Evex?)
  }

  lemma {:induction false} NoIntroducers(w: Work, r: Rex, codes: seq<Code>)
    requires forall k :: 0 <= k < |codes| ==> !(codes[k].Vex? || codes[k].Evex?)
    ensures Introducers(w, r, codes) == 0
    decreases |codes|
  {
    if |codes| > 0 {
      NoIntroducers(w, RexAfter(r, codes[0]), codes[1..]);
    }
  }

  /** A \340 only reserves a known amount. */
  predicate CountedReserve(i: Instruction, codes: seq<Code>) {
    (exists k :: 0 <= k < |codes| && codes[k].Reserve?) ==>
      i.Op(0).Absolute() && !i.Op(0).forward && 0 <= i.Op(0).offset < 0x8000_0000_0000_0000
  }

  lemma {:induction false} AllCounted(i: Instruction, codes: seq<Code>)
    requires CountedReserve(i, codes)
    ensures Uncounted(i, codes) == 0
  {
    if |codes| > 0 {
      var t := codes[1..];
      assert forall k :: 0 <= k < |t| ==> t[k] == codes[k + 1];
      AllCounted(i, t);
      if codes[0].Reserve? {
        assert i.Op(0).Absolute();
      }
    }
  }

  predicate NoNarrowQword(i: Instruction, codes: seq<Code>) {
    i.bits == 16 ==> forall k :: 0 <= k < |codes| && codes[k].ByWord? ==> !NarrowQword(i.Op(codes[k].op))
  }

  lemma {:induction false} NarrowQwordsZero(i: Instruction, codes: seq<Code>)
    ensures NarrowQwords(i, codes) == 0 <==> NoNarrowQword(i, codes)
  {
    if |codes| > 0 {
      var t := codes[1..];
      assert forall k :: 0 <= k < |t| ==> t[k] == codes[k + 1];
      NarrowQwordsZero(i, t);
      if NoNarrowQword(i, t) && !(codes[0].ByWord? && i.bits == 16 && NarrowQword(i.Op(codes[0].op))) {
        forall k | 0 <= k < |codes| && codes[k].ByWord? && i.bits == 16
          ensures !NarrowQword(i.Op(codes[k].op))
        {
          assert k > 0 ==> t[k - 1] == codes[k];
        }
      }
    }
  }

  /** The EVEX introducer stands before the codes that ask for an effective address. */
  predicate EvexFirst(codes: seq<Code>) {
    forall j, k :: 0 <= j < k < |codes| && codes[j].ModRM? ==> !codes[k].Evex?
  }

  lemma EvexFirstTail(codes: seq<Code>)
    requires |codes| > 0 && EvexFirst(codes)
    ensures EvexFirst(codes[1..]) && (codes[0].ModRM? ==> !HasEvex(codes[1..]))
  {
    var t := codes[1..];
    assert forall k :: 0 <= k < |t| ==> t[k] == codes[k + 1];
  }

  lemma {:induction false} ScalarEasAgree(i: Instruction, r: Rex, codes: seq<Code>)
    requires !HasEvex(codes) && !r.ev
    ensures EaEmitted(i, r, codes) == EaCounted(i, false, codes)
    decreases |codes|
  {
    hide HasEvex, HasLock, HasVex, HasOpcode, HasClear, EaSize;
    if |codes| > 0 {
      HasTail(codes);
      ScalarEasAgree(i, RexAfter(r, codes[0]), codes[1..]);
    }
  }

  lemma {:induction false} EvexEasAgree(i: Instruction, r: Rex, ev: bool, codes: seq<Code>)
    requires r.ev && !HasClear(codes) && EvexFirst(codes) && (ev || HasEvex(codes))
    ensures EaEmitted(i, r, codes) == EaCounted(i, ev, codes)
    decreases |codes|
  {
    hide HasEvex, HasLock, HasVex, HasOpcode, HasClear, EvexFirst;
    if |codes| > 0 {
      HasTail(codes);
      EvexFirstTail(codes);
      EvexEasAgree(i, RexAfter(r, codes[0]), ev || codes[0].Evex?, codes[1..]);
    } else {
      NothingThere();
    }
  }

  /** Without \313 the LOCK prefix of \334 is a matter of REX.R alone. */
  lemma {:induction false} LockEmittedIff(r: Rex, codes: seq<Code>)
    requires !HasClear(codes)
    ensures LockEmitted(r, codes) <==> r.r && HasLock(codes)
    decreases |codes|
  {
    hide HasEvex, HasLock, HasVex, HasOpcode, HasClear, LockEmitted;
    if |codes| > 0 {
      HasTail(codes);
      TraceTail(Bare(64, Wide()), r, codes);
      var r' := RexAfter(r, codes[0]);
      if codes[0].LockAsRexR? {
        NoLockAgain(r', codes[1..]);
      } else {
        LockEmittedIff(r', codes[1..]);
      }
    } else {
      NothingThere();
      NothingEmitted(Bare(64, Wide()), r);
    }
  }

  /** \324 stands before the VEX introducer and makes its prefix longer than announced. */
  predicate VexWidens(w: Work, r: Rex, codes: seq<Code>) {
    exists k :: 0 <= k < |codes| && codes[k].Vex? && VexLength(w.(rex := RexBefore(r, codes, k))) > VexLength(w)
  }

  lemma WidensTail(w: Work, r: Rex, codes: seq<Code>)
    requires |codes| > 0
    ensures VexWidens(w, r, codes) <==>
              (codes[0].Vex? && VexLength(w.(rex := r)) > VexLength(w))
              || VexWidens(w, RexAfter(r, codes[0]), codes[1..])
  {
    hide RexAfter, VexLength;
    var t, r' := codes[1..], RexAfter(r, codes[0]);
    assert forall k :: 0 <= k < |t| ==> t[k] == codes[k + 1] && RexBefore(r', t, k) == RexBefore(r, codes, k + 1);
    if k :| 0 <= k < |codes| && codes[k].Vex? && VexLength(w.(rex := RexBefore(r, codes, k))) > VexLength(w) {
      assert k > 0 ==> t[k - 1] == codes[k] && RexBefore(r', t, k - 1) == RexBefore(r, codes, k);
    }
    if codes[0].Vex? && VexLength(w.(rex := r)) > VexLength(w) {
      assert RexBefore(r, codes, 0) == r;
    }
    if k :| 0 <= k < |t| && t[k].Vex? && VexLength(w.(rex := RexBefore(r', t, k))) > VexLength(w) {
      assert codes[k + 1].Vex? && VexLength(w.(rex := RexBefore(r, codes, k + 1))) > VexLength(w);
    }
  }

  /** The bits that gencode adds to those of `w` can only widen a VEX prefix. */
  predicate Grown(w: Work, r: Rex) {
    (w.rex.w ==> r.w) && r.x == w.rex.x && r.b == w.rex.b
  }

  lemma GrownStep(w: Work, r: Rex, c: Code)
    requires Grown(w, r) && !c.Address64?
    ensures Grown(w, RexAfter(r, c))
  {
  }

  lemma GrownVex(w: Work, r: Rex)
    requires Grown(w, r)
    ensures VexLength(w) <= VexLength(w.(rex := r)) <= VexLength(w) + 1
  {
  }

  lemma {:induction false} OneIntroducerLength(w: Work, r: Rex, codes: seq<Code>)
    requires OneIntroducer(codes) && !HasClear(codes) && Grown(w, r)
    ensures Introducers(w, r, codes)
         == if HasEvex(codes) then 4
            else if HasVex(codes) then VexLength(w) + if VexWidens(w, r, codes) then 1 else 0
            else 0
    decreases |codes|
  {
    hide VexLength, VexWidens, HasEvex, HasVex, HasLock, HasOpcode, HasClear, Grown, RexAfter;
    if |codes| > 0 {
      var t := codes[1..];
      assert forall k :: 0 <= k < |t| ==> t[k] == codes[k + 1];
      HasTail(codes);
      GrownStep(w, r, codes[0]);
      WidensTail(w, r, codes);
      GrownVex(w, r);
      if codes[0].Vex? || codes[0].Evex? {
        NoIntroducers(w, RexAfter(r, codes[0]), t);
        NoneThere(w, RexAfter(r, codes[0]), t);
      } else {
        OneIntroducerLength(w, RexAfter(r, codes[0]), t);
      }
    } else {
      NothingThere();
    }
  }

  lemma NoneThere(w: Work, r: Rex, codes: seq<Code>)
    requires forall k :: 0 <= k < |codes| ==> !(codes[k].Vex? || codes[k].Evex?)
    ensures !HasVex(codes) && !HasEvex(codes) && !VexWidens(w, r, codes)
  {
  }

  /** What a template must look like for the lengths to be comparable byte by byte: one
      introducer, ahead of the effective address, and no \313 to take EVEX back. */
  predicate Regular(codes: seq<Code>) {
    OneIntroducer(codes) && EvexFirst(codes) && (HasEvex(codes) ==> !HasClear(codes))
  }

  /** As many bytes of vector, REX and LOCK prefixes are let out as were counted. */
  predicate PrefixesBalance(i: Instruction, w: Work, codes: seq<Code>) {
    Introducers(w, w.rex, codes) + (if RexEmitted(i, w.rex, codes) then 1 else 0)
    + (if LockEmitted(w.rex, codes) then 1 else 0)
    == Announced(w) + RexCounted(w)
  }

  /**
    For regular templates gencode emits exactly the announced number of bytes if and only
    if no \34 operand is a bare qword in 16-bit mode and the prefixes balance, whatever
    \313, \324 and \334 do to the REX bits on the way.
   */
  lemma GencodeMatchesIff(i: Instruction, p: Prefixes, codes: seq<Code>, start: int)
    requires Calcsize(i, p, codes).ok && i.bits in {16, 32, 64} && PlainEas(i)
    requires Regular(codes) && CountedReserve(i, codes)
    ensures var s := Calcsize(i, p, codes);
            (|Gencode(i, Place(start, s.length), s.work, codes).out| == s.length
            <==> NoNarrowQword(i, codes) && PrefixesBalance(i, s.work, codes))
  {
    hide Calcsize, Gencode, CountedReserve, OneIntroducer, EvexFirst, NoNarrowQword, HasEvex, HasVex, HasLock, HasClear,
      NarrowQwords, Uncounted, Introducers, Announced, EaCounted, EaEmitted, RexEmitted, LockEmitted, NeedsRex,
      VexLength;
    var s := Calcsize(i, p, codes);
    SizesRelate(i, p, codes, start);
    AnnouncedFlags(i, p, codes);
    AllCounted(i, codes);
    NarrowQwordsZero(i, codes);
    if HasEvex(codes) {
      EvexEasAgree(i, s.work.rex, false, codes);
    } else {
      ScalarEasAgree(i, s.work.rex, codes);
    }
    if i.bits == 16 {
      NarrowBalance(i, s.work, codes);
    } else {
      NoNarrowMode(i, codes);
    }
  }

  lemma NoNarrowMode(i: Instruction, codes: seq<Code>)
    requires i.bits != 16
    ensures NoNarrowQword(i, codes)
  {
  }

  /** Outside 64-bit mode only a VEX prefix can be off, by the byte that \324 adds. */
  lemma NarrowBalance(i: Instruction, w: Work, codes: seq<Code>)
    requires i.bits != 64 && OneIntroducer(codes) && !HasClear(codes)
    requires (w.rex.ev <==> HasEvex(codes)) && (w.rex.v <==> HasVex(codes))
    requires w.rex.r ==> NeedsRex(w.rex)
    requires NeedsRex(w.rex) ==> HasLock(codes) && w.rex.r
    ensures !RexEmitted(i, w.rex, codes)
    ensures RexCounted(w) == if LockEmitted(w.rex, codes) then 1 else 0
    ensures Announced(w) <= Introducers(w, w.rex, codes) <= Announced(w) + 1
  {
    hide HasEvex, HasVex, HasLock, HasClear, LockEmitted, NeedsRex, VexLength, VexWidens, Introducers, OneIntroducer;
    LockEmittedIff(w.rex, codes);
    OneIntroducerLength(w, w.rex, codes);
  }

  // ----- when the prefixes balance -----

  /** With a vector prefix and no \313: \324 must not widen it, nor \334 find REX.R. */
  lemma VectorBalanceIff(i: Instruction, p: Prefixes, codes: seq<Code>)
    requires Calcsize(i, p, codes).ok && i.bits in {16, 32, 64} && PlainEas(i)
    requires OneIntroducer(codes) && !HasClear(codes) && (HasVex(codes) || HasEvex(codes))
    ensures var w := Calcsize(i, p, codes).work;
            PrefixesBalance(i, w, codes) <==>
              !(HasVex(codes) && VexWidens(w, w.rex, codes)) && !(w.rex.r && HasLock(codes))
  {
    hide Calcsize, HasEvex, HasVex, HasLock, HasClear, LockEmitted, RexEmitted, VexLength, VexWidens, Introducers,
      OneIntroducer, PlainEas;
    var w := Calcsize(i, p, codes).work;
    AnnouncedFlags(i, p, codes);
    LockEmittedIff(w.rex, codes);
    OneIntroducerLength(w, w.rex, codes);
    VectorKeepsRex(i, w.rex, codes);
    if HasVex(codes) {
      NotBoth(codes);
    }
  }

  lemma NotBoth(codes: seq<Code>)
    requires OneIntroducer(codes) && HasVex(codes)
    ensures !HasEvex(codes)
  {
    var j :| 0 <= j < |codes| && codes[j].Vex?;
    forall k | 0 <= k < |codes|
      ensures !codes[k].Evex?
    {
      assert j < k || k < j || k == j;
    }
  }

  lemma {:induction false} VectorKeepsRex(i: Instruction, r: Rex, codes: seq<Code>)
    requires r.Vector() && !HasClear(codes)
    ensures !RexEmitted(i, r, codes)
    decreases |codes|
  {
    hide HasEvex, HasLock, HasVex, HasOpcode, HasClear, RexEmitted, LockEmitted;
    if |codes| > 0 {
      HasTail(codes);
      TraceTail(i, r, codes);
      VectorKeepsRex(i, RexAfter(r, codes[0]), codes[1..]);
    } else {
      NothingEmitted(i, r);
    }
  }

  /** Without a vector prefix: in 64-bit mode the counted REX byte is the one that comes out,
      as itself or as a LOCK prefix; elsewhere there is nothing to be said. */
  lemma ScalarBalanceIff(i: Instruction, p: Prefixes, codes: seq<Code>)
    requires Calcsize(i, p, codes).ok && i.bits in {16, 32, 64} && PlainEas(i)
    requires !HasVex(codes) && !HasEvex(codes)
    ensures var w := Calcsize(i, p, codes).work;
            PrefixesBalance(i, w, codes) <==>
              (i.bits == 64 ==>
                 (w.rex.Mask() <==> RexEmitted(i, w.rex, codes) != LockEmitted(w.rex, codes))
                 && !(RexEmitted(i, w.rex, codes) && LockEmitted(w.rex, codes)))
  {
    hide Calcsize, HasLock, HasClear, LockEmitted, RexEmitted, VexLength, Introducers, PlainEas;
    var w := Calcsize(i, p, codes).work;
    AnnouncedFlags(i, p, codes);
    NoIntroducers(w, w.rex, codes);
    if i.bits != 64 {
      assert OneIntroducer(codes);
      NarrowBalance(i, w, codes);
    }
  }

  // ----- templates that leave the REX bits steady -----

  /** The REX byte is counted, but no code of the template lets it out. */
  predicate MissingRex(i: Instruction, w: Work, codes: seq<Code>) {
    i.bits == 64 && NeedsRex(w.rex) && !HasOpcode(codes)
  }

  /** One code of a steady template. */
  lemma SteadyStep(i: Instruction, r: Rex, c: Code)
    requires SteadyCode(i, r, c)
    ensures var r' := RexAfter(r, c);
            && r'.w == r.w && r'.x == r.x && r'.b == r.b && r'.p == r.p && r'.ev == r.ev && (r'.r ==> r.r)
            && (i.bits == 64 ==> NeedsRex(r') == NeedsRex(r))
  {
    if c.Address64? {
    } else if c.WithRexW? {
      assert RexAfter(r, c) == r;
    } else if !c.LockAsRexR? {
      hide SteadyCode, NeedsRex;
      assert RexAfter(r, c) == r;
    }
  }

  lemma SteadyCarries(i: Instruction, r: Rex, r': Rex, c: Code)
    requires SteadyCode(i, r, c)
    requires r'.w == r.w && r'.x == r.x && r'.b == r.b && r'.p == r.p && r'.ev == r.ev && (r'.r ==> r.r)
    ensures SteadyCode(i, r', c)
  {
  }

  lemma SteadyTail(i: Instruction, r: Rex, codes: seq<Code>)
    requires |codes| > 0 && Steady(i, r, codes)
    ensures var r' := RexAfter(r, codes[0]);
            && Steady(i, r', codes[1..])
            && r'.w == r.w && r'.x == r.x && r'.b == r.b
            && (i.bits == 64 ==> NeedsRex(r') == NeedsRex(r))
  {
    hide RexAfter, SteadyCode, NeedsRex;
    var r' := RexAfter(r, codes[0]);
    SteadyStep(i, r, codes[0]);
    forall k | 0 <= k < |codes| - 1
      ensures SteadyCode(i, r', codes[1..][k])
    {
      SteadyCarries(i, r, r', codes[k + 1]);
    }
  }

  lemma {:induction false} SteadyTrace(i: Instruction, r: Rex, codes: seq<Code>)
    requires Steady(i, r, codes)
    ensures RexEmitted(i, r, codes) <==> i.bits == 64 && NeedsRex(r) && HasOpcode(codes)
    ensures i.bits == 64 ==> !LockEmitted(r, codes)
    decreases |codes|
  {
    hide HasEvex, HasLock, HasVex, HasOpcode, HasClear, RexEmitted, LockEmitted, IsOpcode, NeedsRex, Steady;
    if |codes| > 0 {
      assert SteadyCode(i, r, codes[0]) by { SteadyHead(i, r, codes); }
      SteadyTail(i, r, codes);
      HasTail(codes);
      TraceTail(i, r, codes);
      SteadyTrace(i, RexAfter(r, codes[0]), codes[1..]);
    } else {
      NothingThere();
      NothingEmitted(i, r);
    }
  }

  lemma SteadyHead(i: Instruction, r: Rex, codes: seq<Code>)
    requires |codes| > 0 && Steady(i, r, codes)
    ensures SteadyCode(i, r, codes[0])
  {
  }

  lemma {:induction false} SteadyIntroducers(i: Instruction, w: Work, r: Rex, codes: seq<Code>)
    requires Steady(i, r, codes) && OneIntroducer(codes)
    requires r.w == w.rex.w && r.x == w.rex.x && r.b == w.rex.b
    ensures Introducers(w, r, codes) == if HasEvex(codes) then 4 else if HasVex(codes) then VexLength(w) else 0
    decreases |codes|
  {
    hide HasEvex, HasLock, HasVex, HasOpcode, HasClear, Steady, VexLength;
    if |codes| > 0 {
      var t := codes[1..];
      assert forall k :: 0 <= k < |t| ==> t[k] == codes[k + 1];
      SteadyTail(i, r, codes);
      HasTail(codes);
      SameVexBits(w, r);
      if codes[0].Vex? || codes[0].Evex? {
        NoIntroducers(w, RexAfter(r, codes[0]), t);
        NoneThere(w, RexAfter(r, codes[0]), t);
      } else {
        SteadyIntroducers(i, w, RexAfter(r, codes[0]), t);
      }
    } else {
      NothingThere();
    }
  }

  lemma SameVexBits(w: Work, r: Rex)
    requires r.w == w.rex.w && r.x == w.rex.x && r.b == w.rex.b
    ensures VexLength(w.(rex := r)) == VexLength(w)
  {
  }

  /** The instruction tables' discipline: what a template must look like to be sized right. */
  predicate Disciplined(i: Instruction, r: Rex, codes: seq<Code>) {
    EvexFirst(codes) && OneIntroducer(codes) && CountedReserve(i, codes) && Steady(i, r, codes)
  }

  /**
    For disciplined templates gencode emits exactly the announced number of bytes if and
    only if no \34 operand is a bare qword in 16-bit mode and a counted REX byte has an
    opcode to stand before.
   */
  lemma DisciplinedMatchesIff(i: Instruction, p: Prefixes, codes: seq<Code>, start: int)
    requires Calcsize(i, p, codes).ok && i.bits in {16, 32, 64} && PlainEas(i)
    requires Disciplined(i, Calcsize(i, p, codes).work.rex, codes)
    ensures Regular(codes)
    ensures var s := Calcsize(i, p, codes);
            && (PrefixesBalance(i, s.work, codes) <==> !MissingRex(i, s.work, codes))
            && (|Gencode(i, Place(start, s.length), s.work, codes).out| == s.length
                <==> NoNarrowQword(i, codes) && !MissingRex(i, s.work, codes))
  {
    hide Calcsize, Gencode, CountedReserve, OneIntroducer, EvexFirst, Steady, NoNarrowQword, HasEvex, HasVex, HasLock,
      HasClear, HasOpcode, Introducers, RexEmitted, LockEmitted, NeedsRex, VexLength;
    var s := Calcsize(i, p, codes);
    AnnouncedFlags(i, p, codes);
    if HasEvex(codes) {
      SteadyEvex(i, s.work.rex, codes);
    }
    SteadyTrace(i, s.work.rex, codes);
    SteadyIntroducers(i, s.work, s.work.rex, codes);
    if i.bits != 64 {
      NarrowBalance(i, s.work, codes);
    }
    VectorNeedsNoRex(s.work.rex);
    GencodeMatchesIff(i, p, codes, start);
  }

  lemma VectorNeedsNoRex(r: Rex)
    ensures r.ev || r.v ==> !NeedsRex(r)
  {
  }

  lemma SteadyEvex(i: Instruction, r: Rex, codes: seq<Code>)
    requires Steady(i, r, codes) && r.ev
    ensures !HasClear(codes)
  {
    assert forall k :: 0 <= k < |codes| ==> SteadyCode(i, r, codes[k]);
  }

  // ----- the discipline is needed -----

  function Bare(bits: int, o: Operand): Instruction {
    Instruction(bits, true, false, 1, [o], 64, 0, (c, ev) => Ea(0, NO_REX, false, 0xC0, None, NoDisplacement))
  }

  function Wide(): Operand {
    Operand(Register(0, true, false, false), false, false, true, NO_SEG, 5, false, false, true)
  }

  const NOTHING: Prefixes := [Empty, Empty, Empty, Empty, Empty, Empty, Empty]

  /** Announced and emitted lengths of a template. */
  function Lengths(i: Instruction, codes: seq<Code>): (int, int) {
    var s := Calcsize(i, NOTHING, codes);
    if s.ok then (s.length, |Gencode(i, Place(0, s.length), s.work, codes).out|) else (-1, -1)
  }

  lemma NoPrefixes(bits: int)
    ensures PrefixBytes(bits, NOTHING) == []
  {
    assert forall k :: 0 <= k < 7 ==> PrefixByte(bits, NOTHING[k]) == None;
    EmptyPrefixes(bits, NOTHING);
  }

  lemma {:induction false} EmptyPrefixes(bits: int, p: seq<Prefix>)
    requires forall k :: 0 <= k < |p| ==> PrefixByte(bits, p[k]) == None
    ensures PrefixBytes(bits, p) == []
  {
    if |p| > 0 {
      EmptyPrefixes(bits, p[..|p| - 1]);
    }
  }

  lemma OneCode(i: Instruction, place: Place, s: Sizing, g: Gen, c: Code)
    ensures SizeCodes(i, s, [c]) == SizeStep(i, s, c)
    ensures GenCodes(i, place, g, [c]) == GenStep(i, place, g, c)
  {
    assert [c][1..] == [];
  }

  lemma TwoCodes(i: Instruction, place: Place, s: Sizing, g: Gen, c: Code, d: Code)
    ensures SizeCodes(i, s, [c, d]) == SizeStep(i, SizeStep(i, s, c), d)
    ensures GenCodes(i, place, g, [c, d]) == GenStep(i, place, GenStep(i, place, g, c), d)
  {
    assert [c, d][1..] == [d];
    OneCode(i, place, SizeStep(i, s, c), GenStep(i, place, g, c), d);
  }

  /** A bare qword operand of \34 in 16-bit mode. */
  lemma NarrowQwordIsMissized()
    ensures Lengths(Bare(16, Wide()), [ByWord(0)]) == (4, 2)
  {
    NoPrefixes(16);
    OneCode(Bare(16, Wide()), Place(0, 4), Start(NOTHING), Gen(Start(NOTHING).work, false, []), ByWord(0));
  }

  /** A REX byte without an opcode. */
  lemma LoneRexIsMissized()
    ensures Lengths(Bare(64, Wide()), [WithRexW]) == (1, 0)
  {
    NoPrefixes(64);
    var w := Start(NOTHING).work.(rex := NO_REX.(w := true));
    OneCode(Bare(64, Wide()), Place(0, 1), Start(NOTHING), Gen(w, false, []), WithRexW);
  }

  /** `o64 jrcxz`: \313 drops the REX byte that was counted for the prefix. */
  lemma ClearedRexIsMissized()
    ensures var p := NOTHING[OSIZE := O64];
            var codes := [Address64, Literal([0xE3]), Relative(0, 1)];
            var s := Calcsize(Bare(64, Wide()), p, codes);
            && s.ok && s.length == 3
            && |Gencode(Bare(64, Wide()), Place(0, 3), s.work, codes).out| == 2
            && Regular(codes) && !PrefixesBalance(Bare(64, Wide()), s.work, codes)
  {
    hide Finish, SizeCodes, GenCodes, GenStep, SizeStep;
    var i, p := Bare(64, Wide()), NOTHING[OSIZE := O64];
    var codes := [Address64, Literal([0xE3]), Relative(0, 1)];
    assert forall k :: 0 <= k < 7 ==> PrefixByte(64, p[k]) == None;
    EmptyPrefixes(64, p);
    var s0 := Start(p);
    var s1 := s0.(length := 1);
    var s2 := s0.(length := 2);
    var g0 := Gen(s0.work, false, []);
    ThreeCodes(i, Place(0, 3), s0, g0, codes[0], codes[1], codes[2]);
    JumpSizes(i, s0);
    JumpSizes(i, s1);
    WideIsSized(i, s2);
    JumpIsEmitted(i, Place(0, 3), g0);
    GencodeMatchesIff(i, p, codes, 0);
  }

  lemma JumpSizes(i: Instruction, s: Sizing)
    requires s.ok && i.bits == 64 && s.work.prefixes[ASIZE] == Empty
    ensures SizeStep(i, s, Address64) == s
    ensures SizeStep(i, s, Literal([0xE3])) == s.(length := s.length + 1)
    ensures SizeStep(i, s, Relative(0, 1)) == s.(length := s.length + 1)
  {
  }

  lemma WideIsSized(i: Instruction, s: Sizing)
    requires s.ok && s.keepW && i.bits == 64 && !i.bndDefault && PrefixBytes(64, s.work.prefixes) == []
    requires s.work.rex == NO_REX.(w := true) && s.work.prefixes[VEX] == Empty
    ensures Finish(i, s) == s.(length := s.length + 1)
  {
  }

  lemma JumpIsEmitted(i: Instruction, place: Place, g: Gen)
    requires g.out == []
    ensures var g1 := GenStep(i, place, g, Address64);
            var g2 := GenStep(i, place, g1, Literal([0xE3]));
            |GenStep(i, place, g2, Relative(0, 1)).out| == 2
  {
    hide RexByte;
  }

  /** \323 hides from calcsize the REX.W that \324 sets in gencode. */
  lemma MaskedRexIsMissized()
    ensures Lengths(Bare(64, Wide()), [NoRexW, WithRexW, Literal([0x90])]) == (1, 2)
  {
    hide Finish, SizeCodes, GenCodes;
    NoPrefixes(64);
    var w := Start(NOTHING).work;
    MaskedRexIsSized(w);
    MaskedRexIsEmitted(w);
  }

  lemma MaskedRexIsSized(w: Work)
    requires w == Start(NOTHING).work
    ensures Finish(Bare(64, Wide()), SizeCodes(Bare(64, Wide()), Start(NOTHING), [NoRexW, WithRexW, Literal([0x90])]))
         == Sizing(w, 1, false, true)
  {
    hide SizeCodes, SizeStep;
    NoPrefixes(64);
    var i, s0, place, g := Bare(64, Wide()), Start(NOTHING), Place(0, 1), Gen(w, false, []);
    ThreeCodes(i, place, s0, g, NoRexW, WithRexW, Literal([0x90]));
    var s1 := s0.(keepW := false);
    var s2 := s1.(work := w.(rex := NO_REX.(w := true)));
    FlagSteps(i, s0);
    FlagSteps(i, s1);
    FieldSizes(i, s2);
  }

  lemma ThreeCodes(i: Instruction, place: Place, s: Sizing, g: Gen, c: Code, d: Code, e: Code)
    ensures SizeCodes(i, s, [c, d, e]) == SizeStep(i, SizeStep(i, SizeStep(i, s, c), d), e)
    ensures GenCodes(i, place, g, [c, d, e]) == GenStep(i, place, GenStep(i, place, GenStep(i, place, g, c), d), e)
  {
    hide SizeStep, GenStep;
    assert [c, d, e][1..] == [d, e];
    TwoCodes(i, place, SizeStep(i, s, c), GenStep(i, place, g, c), d, e);
  }

  lemma FlagSteps(i: Instruction, s: Sizing)
    requires s.ok
    ensures SizeStep(i, s, NoRexW) == s.(keepW := false)
    ensures SizeStep(i, s, WithRexW) == s.(work := s.work.(rex := s.work.rex.(w := true)))
  {
  }

  lemma FieldSizes(i: Instruction, s: Sizing)
    requires s.ok
    ensures SizeStep(i, s, Literal([0x90])) == s.(length := s.length + 1)
  {
  }

  lemma MaskedRexIsEmitted(w: Work)
    requires w == Start(NOTHING).work
    ensures |GenCodes(Bare(64, Wide()), Place(0, 1), Gen(w, false, []), [NoRexW, WithRexW, Literal([0x90])]).out| == 2
  {
    hide GenStep, GenCodes;
    var i, g := Bare(64, Wide()), Gen(w, false, []);
    RexSteps(i, Place(0, 1), g);
    var g1 := GenStep(i, Place(0, 1), g, WithRexW);
    ThreeCodes(i, Place(0, 1), Start(NOTHING), g, NoRexW, WithRexW, Literal([0x90]));
    OpcodeAfterRex(i, Place(0, 1), g1, [0x90]);
  }

  lemma RexSteps(i: Instruction, place: Place, g: Gen)
    ensures GenStep(i, place, g, NoRexW) == g
    ensures GenStep(i, place, g, WithRexW) == g.(work := g.work.(rex := g.work.rex.(w := true)))
  {
  }

  lemma OpcodeAfterRex(i: Instruction, place: Place, g: Gen, b: seq<int>)
    requires RexPending(i, g)
    ensures |GenStep(i, place, g, Literal(b)).out| == |g.out| + 1 + |b|
  {
    hide RexByte;
  }

  /** A second VEX introducer is emitted but not counted. */
  lemma SecondVexIsMissized()
    ensures Lengths(Bare(64, Wide()), [Vex(None, 1, 0x20), Vex(None, 1, 0x20)]) == (2, 4)
  {
    NoPrefixes(64);
    var w := Start(NOTHING).work.(rex := NO_REX.(v := true), cm := 1, wlp := 0x20);
    TwoCodes(Bare(64, Wide()), Place(0, 2), Start(NOTHING), Gen(w, false, []), Vex(None, 1, 0x20), Vex(None, 1, 0x20));
  }

  /** A forward reference in \340 is reserved but not counted. */
  lemma ForwardReserveIsMissized()
    ensures Lengths(Bare(64, Wide()), [Reserve]) == (0, 5)
  {
    NoPrefixes(64);
    OneCode(Bare(64, Wide()), Place(0, 0), Start(NOTHING), Gen(Start(NOTHING).work, false, []), Reserve);
  }
}
