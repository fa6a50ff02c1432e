/** The bytecode of instruction templates in assemble.c, as a reader of its switch sees it. */
module Bytecode {
  import opened Wrappers

  /** The spare field of a ModRM byte: a register operand, or a digit. */
  datatype Spare = RegisterOf(op: nat) | Digit(d: nat)

  /** The register field of an is4 byte comes with four bits from an operand or a constant. */
  datatype Nibble = FromOperand(op: nat) | Fixed(value: nat)

  datatype Code =
    | Literal(bytes: seq<int>)
    | PlusRegister(op: nat, byte: int)
    | PlusCondition(byte: int)
    | Immediate(op: nat, size: nat, signed: bool)
    | ByWord(op: nat)
    | ByAddressSize(op: nat)
    | SignedByte(op: nat)
    | Relative(op: nat, size: nat)
    | RelativeByWord(op: nat)
    | SegmentOf(op: nat)
    | Is4(reg: nat, low: Nibble)
    | ModRM(op: nat, spare: Spare)
    | Evex(source: Option<nat>, cm: int, wlp: int, tuple: int)
    | Vex(source: Option<nat>, cm: int, wlp: int)
    | Byte(byte: int)
    | Address16 | Address32 | Address64
    | Operand16 | Operand32 | NoRexW | WithRexW | NoHigh
    | LockAsRexR | MustRep | MustRepne | Wait
    | Reserve
    | LongJumpOver
    | Vsib(kind: nat)
    | Hint

  /** The case that code byte `c` selects; `extra` are the three bytes after it and `ext`
      the operand extension left by a \5, \6 or \7 just before. */
  function Dispatch(c: int, ext: int, extra: seq<int>): Option<Code>
    requires 0 < c < 256 && (ext == 0 || 5 <= ext <= 7) && |extra| == 3
    requires forall k :: 0 <= k < 3 ==> 0 <= extra[k] < 256
  {
    var op1 := c % 4 + if ext % 2 == 1 then 4 else 0;
    var op2 := c / 8 % 4 + if ext >= 6 then 4 else 0;
    var octal := c / 4;
    if octal == 2 then Some(PlusRegister(op1, extra[0]))                          // \10..\13
    else if octal == 3 then Some(Hint)                                            // \14..\17
    else if octal == 4 then Some(Immediate(op1, 1, false))                        // \20
    else if octal == 5 then Some(Immediate(op1, 1, false))                        // \24
    else if octal == 6 then Some(Immediate(op1, 2, false))                        // \30
    else if octal == 7 then Some(ByWord(op1))                                     // \34
    else if octal == 8 then Some(Immediate(op1, 4, false))                        // \40
    else if octal == 9 then Some(ByAddressSize(op1))                              // \44
    else if octal == 10 then Some(Relative(op1, 1))                               // \50
    else if octal == 11 then Some(Immediate(op1, 8, false))                       // \54
    else if octal == 12 then Some(Relative(op1, 2))                               // \60
    else if octal == 13 then Some(RelativeByWord(op1))                            // \64
    else if octal == 14 then Some(Relative(op1, 4))                               // \70
    else if octal == 15 then Some(SegmentOf(op1))                                 // \74
    else if 16 <= octal < 24 && octal % 2 == 0 then Some(ModRM(op2, RegisterOf(op1)))  // \1ab
    else if c == 0x7A then Some(Is4(extra[0] / 8, FromOperand(extra[0] % 8)))     // \172
    else if c == 0x7B then Some(Is4(extra[0] / 16, Fixed(extra[0] % 16)))         // \173
    else if octal == 31 then Some(Is4(op1, Fixed(0)))                             // \174
    else if 32 <= octal < 40 then Some(ModRM(op2, Digit(c % 8)))                  // \2ab
    else if octal == 40 then Some(Evex(Some(op1), extra[0], extra[1], extra[2] - 0xC0))  // \240
    else if c == 0xA8 then Some(Evex(None, extra[0], extra[1], extra[2] - 0xC0))  // \250
    else if octal == 43 then Some(Immediate(op1, 4, true))                        // \254
    else if octal == 44 then Some(Vex(Some(op1), extra[0], extra[1]))             // \260
    else if c == 0xB8 then Some(Vex(None, extra[0], extra[1]))                    // \270
    else if 0xB9 <= c <= 0xBB then Some(Hint)                                     // \271..\273
    else if octal == 47 then Some(SignedByte(op1))                                // \274
    else if octal == 48 then Some(Hint)                                           // \300
    else if c == 0xC8 then Some(Address16)                                        // \310
    else if c == 0xC9 then Some(Address32)
    else if c == 0xCA then Some(Hint)
    else if c == 0xCB then Some(Address64)
    else if octal == 51 then Some(Hint)                                           // \314
    else if c == 0xD0 then Some(Operand16)                                        // \320
    else if c == 0xD1 then Some(Operand32)
    else if c == 0xD2 then Some(Hint)
    else if c == 0xD3 then Some(NoRexW)
    else if c == 0xD4 then Some(WithRexW)                                         // \324
    else if c == 0xD5 then Some(NoHigh)
    else if c == 0xD6 then Some(Hint)
    else if c == 0xD8 then Some(PlusCondition(extra[0]))                          // \330
    else if c == 0xD9 then Some(Hint)
    else if c == 0xDA then Some(Byte(0xF2))                                       // \332
    else if c == 0xDB then Some(Byte(0xF3))
    else if c == 0xDC then Some(LockAsRexR)                                       // \334
    else if c == 0xDD then Some(Hint)
    else if c == 0xDE then Some(MustRep)
    else if c == 0xDF then Some(MustRepne)
    else if c == 0xE0 then Some(Reserve)                                          // \340
    else if c == 0xE1 then Some(Wait)
    else if c == 0xF0 then Some(Hint)                                             // \360
    else if c == 0xF1 then Some(Byte(0x66))
    else if c == 0xF4 || c == 0xF5 then Some(Hint)                                // \364, \365
    else if c == 0xF6 then Some(Byte(0x66))
    else if c == 0xF7 then Some(Byte(0x67))
    else if c == 0xF8 || c == 0xF9 then Some(Hint)                                // \370, \371
    else if c == 0xFB then Some(LongJumpOver)                                     // \373
    else if 0xFC <= c <= 0xFE then Some(Vsib(c - 0xFC))                           // \374..\376
    else None
  }

  /** How many bytes a code takes besides its own. */
  function Trailing(c: int): nat
    requires 0 < c < 256
  {
    if c <= 4 then c
    else if 8 <= c < 12 || c == 0x7A || c == 0x7B || c == 0xD8 then 1
    else if 0xA0 <= c < 0xA4 || c == 0xA8 then 3
    else if 0xB0 <= c < 0xB4 || c == 0xB8 then 2
    else 0
  }

  type bytes = s: seq<int> | forall k :: 0 <= k < |s| ==> 0 <= s[k] < 256

  /** The codes of a template from position `i` to the terminating zero; None when the
      table is corrupt. */
  function Codes(t: bytes, i: nat, ext: int): Option<seq<Code>>
    requires i <= |t| && (ext == 0 || 5 <= ext <= 7)
    decreases |t| - i
  {
    if i == |t| then None
    else if t[i] == 0 then Some([])
    else if 5 <= t[i] <= 7 then Codes(t, i + 1, t[i])
    else
      var n := Trailing(t[i]);
      if i + 1 + n > |t| then None
      else
        var code := if t[i] <= 4 then Some(Literal(t[i + 1..i + 1 + n]))
                    else Dispatch(t[i], ext, (t[i + 1..i + 1 + n] + [0, 0, 0])[..3]);
        if code.None? then None
        else
          match Codes(t, i + 1 + n, 0)
          case None => None
          case Some(rest) => Some([code.value] + rest)
  }
}
