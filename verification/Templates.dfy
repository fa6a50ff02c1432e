/** The template compiler of x86/insns.pl, and that the two interpreters read what it writes. */
module Templates {
  import opened Wrappers
  import opened Bytecode

  type byte = x: int | 0 <= x < 256

  /** The operations without arguments. */
  datatype Word =
    | O16 | O32 | Odf | O64 | O64nw | A16 | A32 | Adf | A64 | NoOsp | NoAsp
    | F2i | F3i | Mustrep | Mustrepne | RexL | Norexb | Norexx | Norexr | Norexw | Repe
    | Nohi | Nof3 | Norep | WaitFirst | Resb | Np | Jcc8 | Jmp8 | Jlen | Hlexr | Hlenl | Hle
    | Vsibx | Vsiby | Vsibz

  /** The kinds of immediates and relative operands, and `seg`. */
  datatype Field = Ib | Ibu | Iw | Ibs | Iwd | Id | Ids | Iwdq | Rel8 | Iq | Rel16 | Rel | Rel32 | Seg

  /** One operation of a template: `o16`, `0f`, `/r`, `/3`, `vex.nds.256.66.0f`, `ib`, `/is4`,
      `/is4=3`, `70+c`, `b8+r`. */
  datatype Operation =
    | Plain(word: Word)
    | Hex(byte: byte)
    | SlashR
    | SlashDigit(digit: nat)
    | Vector(kind: nat, m: nat, w: nat, l: nat, p: nat, tuple: nat, nds: bool)
    | Number(field: Field)
    | Is4Of
    | Is4With(imm: nat)
    | PlusC(byte: byte)
    | PlusR(byte: byte)
  {
    /** What the text of an operation can say. */
    predicate Written() {
      match this
      case SlashDigit(d) => d < 8
      case Vector(c, _, w, l, p, tuple, _) => c <= 2 && w < 4 && l < 3 && p < 4 && tuple <= 16
      case _ => true
    }
  }

  /** Where the operands stand: the position of each letter of the operand word. */
  type Positions = m: map<char, nat> | forall c :: c in m ==> m[c] < 8 witness map[]

  /** What the compiler carries along: how many immediates it met, and whether 66, F2 and F3
      are still prefixes. */
  datatype Context = Context(immediates: nat, prefixes: bool)

  function After(c: Context, op: Operation): Context {
    match op
    case Plain(_) => c
    case Hex(b) => if c.prefixes && b in {0x66, 0xF2, 0xF3} then c else c.(prefixes := false)
    case Number(f) => Context(if f == Seg then c.immediates else c.immediates + 1, false)
    case _ => c.(prefixes := false)
  }

  function Contexts(ops: seq<Operation>): Context {
    if |ops| == 0 then Context(0, true) else After(Contexts(ops[..|ops| - 1]), ops[|ops| - 1])
  }

  /** The letter of the immediate operand that `f` stands for. */
  function ImmediateLetter(c: Context, f: Field): Option<char> {
    var k := if f == Seg then c.immediates else c.immediates + 1;
    if k == 1 then Some('i') else if k == 2 then Some('j') else None
  }

  // ----- what is written -----

  /** %plain_codes */
  function PlainCode(w: Word): byte {
    match w
    case O16 => 0xD0  // \320
    case O32 => 0xD1
    case Odf => 0xD2
    case O64 => 0xD4
    case O64nw => 0xD3
    case A16 => 0xC8  // \310
    case A32 => 0xC9
    case Adf => 0xCA
    case A64 => 0xCB
    case NoOsp => 0xF4  // \364
    case NoAsp => 0xF5
    case F2i => 0xDA  // \332
    case F3i => 0xDB
    case Mustrep => 0xDE  // \336
    case Mustrepne => 0xDF
    case RexL => 0xDC  // \334
    case Norexb => 0xCC  // \314
    case Norexx => 0xCD
    case Norexr => 0xCE
    case Norexw => 0xCF
    case Repe => 0xDD  // \335
    case Nohi => 0xD5  // \325
    case Nof3 => 0xD6
    case Norep => 0xD9  // \331
    case WaitFirst => 0xE1  // \341
    case Resb => 0xE0
    case Np => 0xF0  // \360
    case Jcc8 => 0xF8  // \370
    case Jmp8 => 0xF9
    case Jlen => 0xFB
    case Hlexr => 0xB9  // \271
    case Hlenl => 0xBA
    case Hle => 0xBB
    case Vsibx => 0xFC  // \374
    case Vsiby => 0xFD
    case Vsibz => 0xFE
  }

  /** %imm_codes */
  function FieldCode(f: Field): byte {
    match f
    case Ib => 0x10  // \20
    case Ibu => 0x14
    case Iw => 0x18
    case Ibs => 0xBC  // \274
    case Iwd => 0x1C  // \34
    case Id => 0x20
    case Ids => 0xAC  // \254
    case Iwdq => 0x24  // \44
    case Rel8 => 0x28
    case Iq => 0x2C
    case Rel16 => 0x30
    case Rel => 0x34
    case Rel32 => 0x38
    case Seg => 0x3C
  }

  /** The extension code for operands beyond the fourth. */
  function Extension(primary: nat, secondary: nat): seq<byte> {
    if primary / 4 % 2 == 1 && secondary / 4 % 2 == 1 then [7]
    else if secondary / 4 % 2 == 1 then [6]
    else if primary / 4 % 2 == 1 then [5]
    else []
  }

  /** A map number that the class of the prefix has. */
  predicate MapAllowed(kind: nat, m: nat) {
    if kind == 2 then m <= 15 else (if kind == 1 then 8 else 0) <= m <= 31
  }

  /** The bytes that one operation adds, unless it is a literal; None where it is refused. */
  function Pushed(op: Operation, at: Positions, c: Context): Option<seq<byte>>
    requires op.Written()
  {
    match op
    case Plain(w) => Some([PlainCode(w)])
    case Hex(b) => Some(if b == 0x66 then [0xF1] else if b == 0xF2 then [0xDA] else [0xDB])
    case SlashR =>
      if 'r' !in at || 'm' !in at then None
      else Some(Extension(at['r'], at['m']) + (if 'x' in at then [0x0C + at['x'] % 4] else [])
                + [0x40 + 8 * (at['m'] % 4) + at['r'] % 4])
    case SlashDigit(d) =>
      if 'm' !in at then None else Some(Extension(0, at['m']) + [0x80 + 8 * (at['m'] % 4) + d])
    case Vector(kind, m, w, l, p, tuple, nds) =>
      if nds != ('v' in at) || !MapAllowed(kind, m) then None
      else
        var evex := kind == 2;
        Some([if 'v' in at then (if evex then 0xA0 else 0xB0) + at['v'] % 4 else if evex then 0xA8 else 0xB8]
             + [64 * kind + m, 16 * w + 4 * l + p] + if evex then [0xC0 + tuple] else [])
    case Number(f) =>
      var k := ImmediateLetter(c, f);
      if k.None? || k.value !in at then None
      else Some(Extension(at[k.value], 0) + [FieldCode(f) + at[k.value] % 4])
    case Is4Of =>
      if 's' !in at then None
      else if 'i' in at then Some([0x7A, 8 * at['s'] + at['i']])
      else Some(Extension(at['s'], 0) + [0x7C + at['s'] % 4])
    case Is4With(imm) =>
      if 's' !in at || imm > 15 then None else Some([0x7B, 16 * at['s'] + imm])
    case PlusC(b) => Some([0xD8, b])
    case PlusR(b) =>
      if 'r' !in at then None else Some(Extension(at['r'], 0) + [0x08 + at['r'] % 4, b])
  }

  /** Bytes of the instruction itself. */
  predicate IsLiteral(op: Operation, c: Context) {
    op.Hex? && !(c.prefixes && op.byte in {0x66, 0xF2, 0xF3})
  }

  // ----- what is meant -----

  function WordMeaning(w: Word): Code {
    match w
    case O16 => Operand16
    case O32 => Operand32
    case O64 => WithRexW
    case O64nw => NoRexW
    case A16 => Address16
    case A32 => Address32
    case A64 => Address64
    case F2i => Byte(0xF2)
    case F3i => Byte(0xF3)
    case Mustrep => MustRep
    case Mustrepne => MustRepne
    case RexL => LockAsRexR
    case Nohi => NoHigh
    case WaitFirst => Wait
    case Resb => Reserve
    case Jlen => LongJumpOver
    case Vsibx => Vsib(0)
    case Vsiby => Vsib(1)
    case Vsibz => Vsib(2)
    case _ => Code.Hint
  }

  function FieldMeaning(f: Field, k: nat): Code {
    match f
    case Ib => Immediate(k, 1, false)
    case Ibu => Immediate(k, 1, false)
    case Iw => Immediate(k, 2, false)
    case Ibs => SignedByte(k)
    case Iwd => ByWord(k)
    case Id => Immediate(k, 4, false)
    case Ids => Immediate(k, 4, true)
    case Iwdq => ByAddressSize(k)
    case Rel8 => Relative(k, 1)
    case Iq => Immediate(k, 8, false)
    case Rel16 => Relative(k, 2)
    case Rel => RelativeByWord(k)
    case Rel32 => Relative(k, 4)
    case Seg => SegmentOf(k)
  }

  /** An operand number, or what its two low bits leave of it. */
  function Cut(k: nat, cut: bool): nat {
    if cut then k % 4 else k
  }

  /**
    The codes that an operation stands for.  With `cut`, what the interpreters make of it:
    operands beyond the fourth are lost where the compiler writes no extension code, or
    writes it before the code of an index operand.
   */
  function Meaning(op: Operation, at: Positions, c: Context, cut: bool): Option<seq<Code>> {
    match op
    case Plain(w) => Some([WordMeaning(w)])
    case Hex(b) => Some([if IsLiteral(op, c) then Literal([b]) else Byte(b)])
    case SlashR =>
      if 'r' !in at || 'm' !in at then None
      else if 'x' in at then Some([Code.Hint, ModRM(Cut(at['m'], cut), RegisterOf(Cut(at['r'], cut)))])
      else Some([ModRM(at['m'], RegisterOf(at['r']))])
    case SlashDigit(d) => if 'm' !in at then None else Some([ModRM(at['m'], Digit(d))])
    case Vector(kind, m, w, l, p, tuple, nds) =>
      if nds != ('v' in at) || !MapAllowed(kind, m) then None
      else
        var source := if 'v' in at then Some(Cut(at['v'], cut)) else None;
        Some([if kind == 2 then Evex(source, 128 + m, 16 * w + 4 * l + p, tuple)
              else Vex(source, 64 * kind + m, 16 * w + 4 * l + p)])
    case Number(f) =>
      var k := ImmediateLetter(c, f);
      if k.None? || k.value !in at then None else Some([FieldMeaning(f, at[k.value])])
    case Is4Of =>
      if 's' !in at then None
      else Some([Is4(at['s'], if 'i' in at then FromOperand(at['i']) else Fixed(0))])
    case Is4With(imm) => if 's' !in at || imm > 15 then None else Some([Is4(at['s'], Fixed(imm))])
    case PlusC(b) => Some([PlusCondition(b)])
    case PlusR(b) => if 'r' !in at then None else Some([PlusRegister(at['r'], b)])
  }

  /** The codes of a whole template; None when an operation is refused. */
  function Meanings(ops: seq<Operation>, at: Positions, cut: bool): Option<seq<Code>> {
    if |ops| == 0 then Some([])
    else
      var n := |ops| - 1;
      match (Meanings(ops[..n], at, cut), Meaning(ops[n], at, Contexts(ops[..n]), cut))
      case (Some(before), Some(here)) => Some(before + here)
      case _ => None
  }

  /** The codes of a template with every literal byte on its own. */
  function Unjoined(codes: seq<Code>): seq<Code> {
    if |codes| == 0 then []
    else (if codes[0].Literal? then Singles(codes[0].bytes) else [codes[0]]) + Unjoined(codes[1..])
  }

  function Singles(b: seq<int>): (r: seq<Code>)
    ensures |r| == |b|
  {
    seq(|b|, k requires 0 <= k < |b| => Literal([b[k]]))
  }

  // ----- reading one code -----

  function Prepend(codes: seq<Code>, o: Option<seq<Code>>): Option<seq<Code>> {
    match o
    case None => None
    case Some(rest) => Some(codes + rest)
  }

  /** The codes do not depend on what stands before them. */
  lemma {:induction false} CodesShift(a: seq<byte>, t: seq<byte>, i: nat, ext: int)
    requires i <= |t| && (ext == 0 || 5 <= ext <= 7)
    ensures Codes(a + t, |a| + i, ext) == Codes(t, i, ext)
    decreases |t| - i
  {
    hide Dispatch, Trailing;
    if i < |t| && t[i] != 0 {
      var n := if 5 <= t[i] <= 7 then 0 else Trailing(t[i]);
      if i + 1 + n <= |t| {
        assert (a + t)[|a| + i + 1..|a| + i + 1 + n] == t[i + 1..i + 1 + n];
        CodesShift(a, t, i + 1 + n, if 5 <= t[i] <= 7 then t[i] else 0);
      }
    }
  }

  lemma ExtensionReads(e: byte, t: seq<byte>)
    requires 5 <= e <= 7
    ensures Codes([e] + t, 0, 0) == Codes(t, 0, e)
  {
    CodesShift([e], t, 0, e);
  }

  /** One code with its argument bytes. */
  lemma CodeReads(c: byte, x: seq<byte>, ext: int, t: seq<byte>)
    requires 8 <= c && |x| == Trailing(c) && (ext == 0 || 5 <= ext <= 7)
    requires Dispatch(c, ext, (x + [0, 0, 0])[..3]).Some?
    ensures Codes([c] + x + t, 0, ext) == Prepend([Dispatch(c, ext, (x + [0, 0, 0])[..3]).value], Codes(t, 0, 0))
  {
    hide Dispatch, Trailing;
    var s := [c] + x + t;
    assert s[1..1 + |x|] == x;
    CodesShift([c] + x, t, 0, 0);
  }

  lemma LiteralReads(x: seq<byte>, t: seq<byte>)
    requires 1 <= |x| <= 4
    ensures Codes([|x|] + x + t, 0, 0) == Prepend([Literal(x)], Codes(t, 0, 0))
  {
    hide Dispatch;
    var s := [|x|] + x + t;
    assert s[1..1 + |x|] == x;
    CodesShift([|x|] + x, t, 0, 0);
  }

  /** Bytes that read as these codes, in front of `t` and whatever follows. */
  predicate ReadsBefore(x: seq<byte>, codes: seq<Code>, t: seq<byte>) {
    Codes(x + t, 0, 0) == Prepend(codes, Codes(t, 0, 0))
  }

  ghost predicate ReadsAs(x: seq<byte>, codes: seq<Code>) {
    forall t: seq<byte> :: ReadsBefore(x, codes, t)
  }

  lemma ReadsJoin(x: seq<byte>, a: seq<Code>, y: seq<byte>, b: seq<Code>)
    requires ReadsAs(x, a) && ReadsAs(y, b)
    ensures ReadsAs(x + y, a + b)
  {
    hide ReadsBefore;
    forall t: seq<byte>
      ensures ReadsBefore(x + y, a + b, t)
    {
      JoinBefore(x, a, y, b, t);
    }
  }

  lemma JoinBefore(x: seq<byte>, a: seq<Code>, y: seq<byte>, b: seq<Code>, t: seq<byte>)
    requires ReadsBefore(x, a, y + t) && ReadsBefore(y, b, t)
    ensures ReadsBefore(x + y, a + b, t)
  {
    hide Codes;
    assert x + y + t == x + (y + t);
    if Codes(t, 0, 0).Some? {
      assert a + (b + Codes(t, 0, 0).value) == a + b + Codes(t, 0, 0).value;
    }
  }

  /** A code behind the extension its operands need. */
  lemma ExtendedReads(e: seq<byte>, c: byte, x: seq<byte>, code: Code)
    requires 8 <= c && |x| == Trailing(c) && (e == [] || (|e| == 1 && 5 <= e[0] <= 7))
    requires Dispatch(c, if e == [] then 0 else e[0], (x + [0, 0, 0])[..3]) == Some(code)
    ensures ReadsAs(e + [c] + x, [code])
  {
    hide ReadsBefore, Dispatch, Trailing;
    forall t: seq<byte>
      ensures ReadsBefore(e + [c] + x, [code], t)
    {
      ExtendedBefore(e, c, x, code, t);
    }
  }

  lemma ExtendedBefore(e: seq<byte>, c: byte, x: seq<byte>, code: Code, t: seq<byte>)
    requires 8 <= c && |x| == Trailing(c) && (e == [] || (|e| == 1 && 5 <= e[0] <= 7))
    requires Dispatch(c, if e == [] then 0 else e[0], (x + [0, 0, 0])[..3]) == Some(code)
    ensures ReadsBefore(e + [c] + x, [code], t)
  {
    hide Codes, Dispatch, Trailing;
    CodeReads(c, x, if e == [] then 0 else e[0], t);
    if e == [] {
      assert e + [c] + x + t == [c] + x + t;
    } else {
      assert e + [c] + x + t == [e[0]] + ([c] + x + t);
      ExtensionReads(e[0], [c] + x + t);
    }
  }

  /** A code without argument bytes, and one with a single one. */
  lemma Reads0(e: seq<byte>, c: byte, code: Code)
    requires 8 <= c && Trailing(c) == 0 && (e == [] || (|e| == 1 && 5 <= e[0] <= 7))
    requires Dispatch(c, if e == [] then 0 else e[0], [0, 0, 0]) == Some(code)
    ensures ReadsAs(e + [c], [code])
  {
    hide Codes, Dispatch, Trailing, ReadsAs;
    assert ([] + [0, 0, 0])[..3] == [0, 0, 0];
    ExtendedReads(e, c, [], code);
    assert e + [c] + [] == e + [c];
  }

  lemma Reads1(e: seq<byte>, c: byte, b: byte, code: Code)
    requires 8 <= c && Trailing(c) == 1 && (e == [] || (|e| == 1 && 5 <= e[0] <= 7))
    requires Dispatch(c, if e == [] then 0 else e[0], [b, 0, 0]) == Some(code)
    ensures ReadsAs(e + [c, b], [code])
  {
    hide Codes, Dispatch, Trailing, ReadsAs;
    assert ([b] + [0, 0, 0])[..3] == [b, 0, 0];
    ExtendedReads(e, c, [b], code);
    assert e + [c] + [b] == e + [c, b];
  }

  // ----- the interpreters' table, code by code -----

  lemma WordDispatched(w: Word)
    ensures Trailing(PlainCode(w)) == 0
    ensures Dispatch(PlainCode(w), 0, [0, 0, 0]) == Some(WordMeaning(w))
  {
  }

  lemma FieldDispatched(f: Field, k: nat)
    requires k < 8
    ensures var c := FieldCode(f) + k % 4;
            Trailing(c) == 0 && Dispatch(c, if k >= 4 then 5 else 0, [0, 0, 0]) == Some(FieldMeaning(f, k))
  {
  }

  function Primary(p: nat, s: nat): int {
    if p >= 4 && s >= 4 then 7 else if s >= 4 then 6 else if p >= 4 then 5 else 0
  }

  lemma ModRMDispatched(m: nat, r: nat)
    requires m < 8 && r < 8
    ensures var c := 0x40 + 8 * (m % 4) + r % 4;
            Trailing(c) == 0 && Dispatch(c, Primary(r, m), [0, 0, 0]) == Some(ModRM(m, RegisterOf(r)))
  {
  }

  lemma DigitDispatched(m: nat, d: nat)
    requires m < 8 && d < 8
    ensures var c := 0x80 + 8 * (m % 4) + d;
            Trailing(c) == 0 && Dispatch(c, Primary(0, m), [0, 0, 0]) == Some(ModRM(m, Digit(d)))
  {
  }

  lemma VectorDispatched(v: nat, x: byte, y: byte, z: byte)
    ensures Trailing(0xB0 + v % 4) == 2 && Dispatch(0xB0 + v % 4, 0, [x, y, 0]) == Some(Vex(Some(v % 4), x, y))
    ensures Trailing(0xB8) == 2 && Dispatch(0xB8, 0, [x, y, 0]) == Some(Vex(None, x, y))
    ensures Trailing(0xA0 + v % 4) == 3
    ensures Dispatch(0xA0 + v % 4, 0, [x, y, z]) == Some(Evex(Some(v % 4), x, y, z - 0xC0))
    ensures Trailing(0xA8) == 3 && Dispatch(0xA8, 0, [x, y, z]) == Some(Evex(None, x, y, z - 0xC0))
  {
  }

  lemma Is4Dispatched(s: nat, i: nat, imm: nat)
    requires s < 8 && i < 8 && imm <= 15
    ensures Trailing(0x7A) == 1 && Dispatch(0x7A, 0, [8 * s + i, 0, 0]) == Some(Is4(s, FromOperand(i)))
    ensures Trailing(0x7B) == 1 && Dispatch(0x7B, 0, [16 * s + imm, 0, 0]) == Some(Is4(s, Fixed(imm)))
    ensures Trailing(0x7C + s % 4) == 0
    ensures Dispatch(0x7C + s % 4, Primary(s, 0), [0, 0, 0]) == Some(Is4(s, Fixed(0)))
  {
  }

  lemma PlusDispatched(r: nat, b: byte)
    requires r < 8
    ensures Trailing(0xD8) == 1 && Dispatch(0xD8, 0, [b, 0, 0]) == Some(PlusCondition(b))
    ensures Trailing(0x08 + r % 4) == 1
    ensures Dispatch(0x08 + r % 4, Primary(r, 0), [b, 0, 0]) == Some(PlusRegister(r, b))
  {
  }

  lemma IndexDispatched(x: nat, ext: int)
    requires ext == 0 || 5 <= ext <= 7
    ensures Trailing(0x0C + x % 4) == 0 && Dispatch(0x0C + x % 4, ext, [0, 0, 0]) == Some(Code.Hint)
  {
  }

  /** One operation reads back as what it stands for, operand numbers cut where they are. */
  lemma OperationReads(op: Operation, at: Positions, c: Context)
    requires op.Written() && !IsLiteral(op, c)
    ensures Pushed(op, at, c).Some? <==> Meaning(op, at, c, true).Some?
    ensures Pushed(op, at, c).Some? ==> ReadsAs(Pushed(op, at, c).value, Meaning(op, at, c, true).value)
  {
    hide Dispatch, Trailing, ReadsAs, Codes, PlainCode, FieldCode;
    if Pushed(op, at, c).Some? {
      match op
      case Plain(w) => WordReads(w);
      case Hex(b) => PrefixReads(b);
      case SlashR => ModRMReads(at);
      case SlashDigit(d) =>
        DigitDispatched(at['m'], d);
        Reads0(Extension(0, at['m']), 0x80 + 8 * (at['m'] % 4) + d, ModRM(at['m'], Digit(d)));
      case Vector(_, _, _, _, _, _, _) => VectorReads(op, at, c);
      case Number(f) => NumberReads(f, at[ImmediateLetter(c, f).value]);
      case Is4Of => Is4Reads(at, 0);
      case Is4With(imm) => Is4Reads(at, imm);
      case PlusC(b) =>
        PlusDispatched(0, b);
        Reads1([], 0xD8, b, PlusCondition(b));
        assert [] + [0xD8, b] == [0xD8, b];
      case PlusR(b) =>
        PlusDispatched(at['r'], b);
        Reads1(Extension(at['r'], 0), 0x08 + at['r'] % 4, b, PlusRegister(at['r'], b));
    }
  }

  lemma WordReads(w: Word)
    ensures ReadsAs([PlainCode(w)], [WordMeaning(w)])
  {
    hide *;
    WordDispatched(w);
    LargePlain(w);
    Reads0([], PlainCode(w), WordMeaning(w));
    assert [] + [PlainCode(w)] == [PlainCode(w)];
  }

  lemma LargePlain(w: Word)
    ensures PlainCode(w) >= 8
  {
  }

  lemma PrefixReads(b: byte)
    requires b in {0x66, 0xF2, 0xF3}
    ensures ReadsAs(if b == 0x66 then [0xF1] else if b == 0xF2 then [0xDA] else [0xDB], [Byte(b)])
  {
    hide ReadsAs, Codes;
    var c := if b == 0x66 then 0xF1 else if b == 0xF2 then 0xDA else 0xDB;
    Reads0([], c, Byte(b));
    assert [] + [c] == [c];
  }

  lemma NumberReads(f: Field, k: nat)
    requires k < 8
    ensures ReadsAs(Extension(k, 0) + [FieldCode(f) + k % 4], [FieldMeaning(f, k)])
  {
    hide ReadsAs, Codes, Dispatch, Trailing, FieldMeaning;
    FieldDispatched(f, k);
    Reads0(Extension(k, 0), FieldCode(f) + k % 4, FieldMeaning(f, k));
  }

  lemma ModRMReads(at: Positions)
    requires 'r' in at && 'm' in at
    ensures ReadsAs(Pushed(SlashR, at, Context(0, true)).value, Meaning(SlashR, at, Context(0, true), true).value)
  {
    hide ReadsAs, Codes, Dispatch, Trailing;
    var e, m, r := Extension(at['r'], at['m']), at['m'], at['r'];
    var c := 0x40 + 8 * (m % 4) + r % 4;
    if 'x' in at {
      var y := 0x0C + at['x'] % 4;
      IndexDispatched(at['x'], if e == [] then 0 else e[0]);
      Reads0(e, y, Code.Hint);
      ModRMDispatched(m % 4, r % 4);
      Reads0([], c, ModRM(m % 4, RegisterOf(r % 4)));
      ReadsJoin(e + [y], [Code.Hint], [] + [c], [ModRM(m % 4, RegisterOf(r % 4))]);
      assert e + [y] + ([] + [c]) == e + [y] + [c];
      assert [Code.Hint] + [ModRM(m % 4, RegisterOf(r % 4))] == [Code.Hint, ModRM(m % 4, RegisterOf(r % 4))];
    } else {
      ModRMDispatched(m, r);
      Reads0(e, c, ModRM(m, RegisterOf(r)));
      assert e + [] + [c] == e + [c];
    }
  }

  lemma VectorReads(op: Operation, at: Positions, c: Context)
    requires op.Written() && op.Vector? && Pushed(op, at, c).Some?
    ensures ReadsAs(Pushed(op, at, c).value, Meaning(op, at, c, true).value)
  {
    hide ReadsAs, Codes, Dispatch, Trailing;
    var x, y, z := 64 * op.kind + op.m, 16 * op.w + 4 * op.l + op.p, 0xC0 + op.tuple;
    VectorDispatched(if 'v' in at then at['v'] else 0, x, y, z);
    var b := Pushed(op, at, c).value;
    assert b == [] + [b[0]] + b[1..];
    assert (b[1..] + [0, 0, 0])[..3] == [x, y, if op.kind == 2 then z else 0];
    ExtendedReads([], b[0], b[1..], Meaning(op, at, c, true).value[0]);
  }

  lemma Is4Reads(at: Positions, imm: nat)
    requires 's' in at && imm <= 15
    ensures var c := Context(0, true);
            && ReadsAs(Pushed(Is4Of, at, c).value, Meaning(Is4Of, at, c, true).value)
            && ReadsAs(Pushed(Is4With(imm), at, c).value, Meaning(Is4With(imm), at, c, true).value)
  {
    hide ReadsAs, Codes, Dispatch, Trailing;
    var s, i := at['s'], if 'i' in at then at['i'] else 0;
    Is4Dispatched(s, i, imm);
    Reads1([], 0x7B, 16 * s + imm, Is4(s, Fixed(imm)));
    assert [] + [0x7B, 16 * s + imm] == [0x7B, 16 * s + imm] && [] + [0x7A, 8 * s + i] == [0x7A, 8 * s + i];
    if 'i' in at {
      Reads1([], 0x7A, 8 * s + i, Is4(s, FromOperand(i)));
    } else {
      Reads0(Extension(s, 0), 0x7C + s % 4, Is4(s, Fixed(0)));
    }
  }

  // ----- the compiler -----

  ghost predicate AllWritten(ops: seq<Operation>) {
    forall k :: 0 <= k < |ops| ==> ops[k].Written()
  }

  /** Bytes that read as these codes, but for the grouping of literal bytes. */
  ghost predicate Spells(x: seq<byte>, codes: seq<Code>) {
    exists read :: ReadsAs(x, read) && Unjoined(read) == codes
  }

  /** The literal bytes at the end, if the last group has room for more. */
  ghost predicate Grouped(x: seq<byte>, start: nat, codes: seq<Code>) {
    && start < |x| && 1 <= x[start] <= 4 && start + x[start] + 1 <= |x|
    && (start + x[start] + 1 == |x| ==>
          exists before :: Spells(x[..start], before) && codes == before + Singles(x[start + 1..]))
  }

  /** A whole template, terminated: the codes that both interpreters run over it. */
  function Reading(x: seq<byte>): Option<seq<Code>> {
    Codes(x + [0], 0, 0)
  }

  /**
    byte_code_compile: the byte codes of a template.  It is refused exactly when an operation
    is, and what the interpreters read is what the operations stand for.
   */
  method ByteCodeCompile(ops: seq<Operation>, at: Positions) returns (r: Option<seq<byte>>)
    requires AllWritten(ops)
    ensures r.Some? <==> Meanings(ops, at, true).Some?
    ensures r.Some? ==> Reading(r.value).Some? && Unjoined(Reading(r.value).value) == Meanings(ops, at, true).value
  {
    hide ReadsAs, Pushed, Meaning, Meanings, Contexts, Spells, Grouped, Reading, Unjoined, Operation.Written;
    var codes: seq<byte> := [];
    var litix: Option<nat> := None;
    var c := Context(0, true);
    var n := 0;
    NothingSpelled();
    NothingCompiled(ops, at);
    while n < |ops|
      invariant 0 <= n <= |ops| && c == Contexts(ops[..n])
      invariant Meanings(ops[..n], at, true).Some? && Spells(codes, Meanings(ops[..n], at, true).value)
      invariant litix.Some? ==> Grouped(codes, litix.value, Meanings(ops[..n], at, true).value)
    {
      var op := ops[n];
      ghost var before := Meanings(ops[..n], at, true).value;
      OneMore(ops, n, at);
      if IsLiteral(op, c) {
        LiteralMeaning(op, at, c);
        if litix.Some? && HasRoom(codes, litix.value) {
          LiteralJoins(codes, litix.value, op.byte, before);
          codes := codes[litix.value := codes[litix.value] + 1] + [op.byte];
        } else {
          LiteralStarts(codes, op.byte, before);
          litix := Some(|codes|);
          codes := codes + [1, op.byte];
        }
      } else {
        OperationReads(op, at, c);
        var pushed := Pushed(op, at, c);
        if pushed.None? {
          RefusedStays(ops, n + 1, at);
          return None;
        }
        Appended(codes, before, pushed.value, Meaning(op, at, c, true).value, litix, op, at, c);
        codes := codes + pushed.value;
      }
      c := After(c, op);
      n := n + 1;
    }
    assert ops[..n] == ops;
    TemplateReads(codes, Meanings(ops, at, true).value);
    return Some(codes);
  }

  /** The group that starts at `start` is the last thing in `x`, and shorter than four bytes. */
  predicate HasRoom(x: seq<byte>, start: nat) {
    start < |x| && start + x[start] + 1 == |x| && x[start] < 4
  }

  lemma OneMore(ops: seq<Operation>, n: nat, at: Positions)
    requires n < |ops|
    ensures Contexts(ops[..n + 1]) == After(Contexts(ops[..n]), ops[n])
    ensures Meanings(ops[..n + 1], at, true)
         == var (before, here) := (Meanings(ops[..n], at, true), Meaning(ops[n], at, Contexts(ops[..n]), true));
            if before.Some? && here.Some? then Some(before.value + here.value) else None
  {
    hide Meaning, After;
    assert ops[..n + 1][..n] == ops[..n];
  }

  lemma NothingCompiled(ops: seq<Operation>, at: Positions)
    ensures Contexts(ops[..0]) == Context(0, true) && Meanings(ops[..0], at, true) == Some([])
  {
  }

  lemma NothingSpelled()
    ensures Spells([], [])
  {
    forall t: seq<byte>
      ensures ReadsBefore([], [], t)
    {
      assert [] + t == t;
      if Codes(t, 0, 0).Some? {
        assert [] + Codes(t, 0, 0).value == Codes(t, 0, 0).value;
      }
    }
    assert ReadsAs([], []);
  }

  lemma {:induction false} UnjoinedJoin(a: seq<Code>, b: seq<Code>)
    ensures Unjoined(a + b) == Unjoined(a) + Unjoined(b)
  {
    if |a| == 0 {
      assert a + b == b;
    } else {
      assert (a + b)[1..] == a[1..] + b;
      UnjoinedJoin(a[1..], b);
    }
  }

  lemma SpellsJoin(x: seq<byte>, a: seq<Code>, y: seq<byte>, read: seq<Code>)
    requires Spells(x, a) && ReadsAs(y, read)
    ensures Spells(x + y, a + Unjoined(read))
  {
    hide ReadsAs, Unjoined;
    var before :| ReadsAs(x, before) && Unjoined(before) == a;
    ReadsJoin(x, before, y, read);
    UnjoinedJoin(before, read);
  }

  lemma LiteralGroup(x: seq<byte>)
    requires 1 <= |x| <= 4
    ensures ReadsAs([|x|] + x, [Literal(x)]) && Unjoined([Literal(x)]) == Singles(x)
  {
    hide Codes;
    forall t: seq<byte>
      ensures ReadsBefore([|x|] + x, [Literal(x)], t)
    {
      LiteralReads(x, t);
    }
    assert Unjoined([]) == [];
  }

  lemma LiteralMeaning(op: Operation, at: Positions, c: Context)
    requires IsLiteral(op, c)
    ensures Meaning(op, at, c, true) == Some([Literal([op.byte])])
  {
  }

  lemma LiteralStarts(x: seq<byte>, b: byte, before: seq<Code>)
    requires Spells(x, before)
    ensures var y := x + [1, b];
            Spells(y, before + [Literal([b])]) && Grouped(y, |x|, before + [Literal([b])])
  {
    hide ReadsAs, Unjoined, Spells;
    LiteralGroup([b]);
    SpellsJoin(x, before, [1] + [b], [Literal([b])]);
    var y := x + [1, b];
    assert y == x + ([1] + [b]) && y[..|x|] == x && y[|x| + 1..] == [b] && Singles([b]) == [Literal([b])];
  }

  lemma LiteralJoins(x: seq<byte>, start: nat, b: byte, codes: seq<Code>)
    requires Grouped(x, start, codes) && HasRoom(x, start)
    ensures var y := x[start := x[start] + 1] + [b];
            Spells(y, codes + [Literal([b])]) && Grouped(y, start, codes + [Literal([b])])
  {
    hide ReadsAs, Unjoined, Spells;
    var before :| Spells(x[..start], before) && codes == before + Singles(x[start + 1..]);
    var g, y := x[start + 1..] + [b], x[start := x[start] + 1] + [b];
    LiteralGroup(g);
    SpellsJoin(x[..start], before, [|g|] + g, [Literal(g)]);
    assert y == x[..start] + ([|g|] + g) && y[..start] == x[..start] && y[start + 1..] == g;
    assert Singles(g) == Singles(x[start + 1..]) + [Literal([b])];
    assert before + Singles(g) == codes + [Literal([b])];
  }

  lemma Appended(x: seq<byte>, before: seq<Code>, y: seq<byte>, read: seq<Code>, litix: Option<nat>,
                 op: Operation, at: Positions, c: Context)
    requires Spells(x, before) && ReadsAs(y, read) && (litix.Some? ==> Grouped(x, litix.value, before))
    requires op.Written() && !IsLiteral(op, c) && Pushed(op, at, c) == Some(y) && Meaning(op, at, c, true) == Some(read)
    ensures Spells(x + y, before + read)
    ensures litix.Some? ==> Grouped(x + y, litix.value, before + read)
  {
    hide ReadsAs, Spells;
    assert |y| > 0 && Unjoined(read) == read by { NoLiterals(op, at, c); }
    SpellsJoin(x, before, y, read);
  }

  lemma NoLiterals(op: Operation, at: Positions, c: Context)
    requires op.Written() && !IsLiteral(op, c) && Pushed(op, at, c).Some? && Meaning(op, at, c, true).Some?
    ensures |Pushed(op, at, c).value| > 0
    ensures Unjoined(Meaning(op, at, c, true).value) == Meaning(op, at, c, true).value
  {
    var read := Meaning(op, at, c, true).value;
    assert forall k :: 0 <= k < |read| ==> !read[k].Literal?;
    Unliteral(read);
  }

  lemma {:induction false} Unliteral(codes: seq<Code>)
    requires forall k :: 0 <= k < |codes| ==> !codes[k].Literal?
    ensures Unjoined(codes) == codes
  {
    if |codes| > 0 {
      Unliteral(codes[1..]);
    }
  }

  lemma {:induction false} RefusedStays(ops: seq<Operation>, n: nat, at: Positions)
    requires n <= |ops| && Meanings(ops[..n], at, true).None?
    ensures Meanings(ops, at, true).None?
    decreases |ops|
  {
    if n < |ops| {
      assert ops[..|ops| - 1][..n] == ops[..n];
      RefusedStays(ops[..|ops| - 1], n, at);
    } else {
      assert ops[..n] == ops;
    }
  }

  // ----- the theorem -----

  lemma TemplateReads(x: seq<byte>, codes: seq<Code>)
    requires Spells(x, codes)
    ensures Reading(x).Some? && Unjoined(Reading(x).value) == codes
  {
    hide Unjoined;
    var read :| ReadsAs(x, read) && Unjoined(read) == codes;
    assert ReadsBefore(x, read, [0]) && Codes([0], 0, 0) == Some([]);
    assert read + [] == read;
  }

  /** An operation whose operands all have their number written. */
  predicate Steady(op: Operation, at: Positions) {
    match op
    case SlashR => 'x' in at && 'm' in at && 'r' in at ==> at['m'] < 4 && at['r'] < 4
    case Vector(_, _, _, _, _, _, _) => 'v' in at ==> at['v'] < 4
    case _ => true
  }

  /** The interpreters read what was meant exactly when that is so of every operation. */
  lemma {:induction false} IntendedIff(ops: seq<Operation>, at: Positions)
    requires Meanings(ops, at, true).Some?
    ensures Meanings(ops, at, false).Some?
    ensures |Meanings(ops, at, false).value| == |Meanings(ops, at, true).value|
    ensures Meanings(ops, at, false) == Meanings(ops, at, true)
       <==> forall k :: 0 <= k < |ops| ==> Steady(ops[k], at)
  {
    hide Meaning, Steady;
    if |ops| > 0 {
      var n := |ops| - 1;
      IntendedIff(ops[..n], at);
      OperationIff(ops[n], at, Contexts(ops[..n]));
      var a, b := Meanings(ops[..n], at, false).value, Meanings(ops[..n], at, true).value;
      var d, e := Meanings(ops, at, false).value, Meanings(ops, at, true).value;
      assert d[..|a|] == a && e[..|b|] == b;
      assert d[|a|..] == Meaning(ops[n], at, Contexts(ops[..n]), false).value;
      assert e[|b|..] == Meaning(ops[n], at, Contexts(ops[..n]), true).value;
      assert forall k :: 0 <= k < n ==> ops[..n][k] == ops[k];
    }
  }

  lemma OperationIff(op: Operation, at: Positions, c: Context)
    requires Meaning(op, at, c, true).Some?
    ensures Meaning(op, at, c, false).Some?
    ensures |Meaning(op, at, c, false).value| == |Meaning(op, at, c, true).value|
    ensures Meaning(op, at, c, false) == Meaning(op, at, c, true) <==> Steady(op, at)
  {
    if Meaning(op, at, c, true).Some? {
      var a, b := Meaning(op, at, c, false).value, Meaning(op, at, c, true).value;
      assert a == b <==> |a| == |b| && forall k :: 0 <= k < |a| ==> a[k] == b[k];
    }
  }
}
