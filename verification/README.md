# NASM's assembler core, modelled and proved

This project models the parts of the bundled NASM 2.13 assembler (`assembler/nasm/asm`) in
which a fast, stateful or multi-pass algorithm has to agree with a simple meaning, and
proves that it does, or states exactly when it does not.
`dafny verify dfyconfig.toml` checks all of it.

The components, each with its main result:

* **Floating-point constants** (`Powers`, `RealPowers`, `Limbs`, `Bits`, `Float*`,
  `DecimalText`, `PackedBcd`). Decimal text becomes a 192-bit mantissa by digit doubling and
  square-and-multiply, with a two-sided error bound; shifting, rounding and packing produce
  bytes that denote the rounding asked for, in all formats and modes, with the exact
  condition. `DecimalText` says what the text denotes, from the spelling of numbers, and
  `FloatValue` what the formats hold, in real numbers. Found on the way: numbers with an exponent one above the largest are packed as
  NaNs; directed rounding away from zero moves only when the half bit is set; and overflow
  is infinite even when rounding towards zero.
* **Passes and branch relaxation** (`Labels`, `Output`, `Relaxation`, `Definitions`,
  `Listing`, `Passes`, `ForwardEqus`). The pass loop ends, the output pass runs once and
  right after a quiet pass, and every program that is assembled is the listing of its items:
  every jump has its own opcode bytes, is short exactly where it may be, and takes the
  processor to the place of its label plus the distance written; a phase error means exactly
  that the label table is at odds with the layout it induces. Found on the way: a BND
  JMP is measured with a prefix it then loses; a chain of forward EQUs can change
  segments in passes that count as quiet, and so end in a phase error; and a near jump
  through such a chain is assembled with a stale segment, as a relocation against an
  absolute address.
* **Two interpreters of instruction bytecode** (`Templates`, `Grouping`, `Bytecode`, `Encode`,
  `EncodeSizes`, `Encoder`, `InstructionDecode`, `VexPrefix`, `VexInstruction`,
  `CodeEffects`). What the template compiler of `x86/insns.pl` writes is what the
  interpreters read; what `gencode` emits for a template decodes to the operands. An exact relation between the length `calcsize` announces and
  the bytes `gencode` emits, for every bytecode program and not only the rows of the
  instruction table, with the condition under which they are equal and a template for every
  way in which they can differ. The table itself (`x86/insnsb.c`) has no row in which \323
  meets \324, none with two vector introducers, and none in which \313 stands beside a
  register or ModRM code; but \313 under an O64 prefix (`o64 jrcxz`) does lose a REX byte.
* **Effective addresses** (`EffectiveAddress`, `AddressForms`). What `process_ea` encodes
  decodes to the same address for every register valuation, exactly when the displacement
  fits; and it refuses, registers named once, only what the processor has no form for.
* **Expressions** (`ExprVector`, `Logarithm`, `EvalSyntax`, `Precedence`, `EvalMeaning`,
  `Operators`, `Places`, `Evaluator`). Parsing undoes printing, with ten classes of operators,
  and the vector of an error-free expression has the expression's value; the operators are
  those of 64-bit patterns, and differences of labels are numbers within a segment.
* **The preprocessor's worklists** (`SMacroSpec`, `SMacro`, `Conditionals`, `Repeat`,
  `RepeatCount`, `ExpansionLists`, `ExpansionInvariant`, `Expansion`). In-list end markers compute
  expansion under a hide set, the flat stack of conditions computes structural evaluation,
  and self-repushing markers unroll nested `%rep` blocks; a popped marker always finishes
  the block on top of `mstk`.
* **Quoting and Unicode** (`Quote`, `Escapes`, `Quoter`, `Unquote`, `Utf8`, `StrFunc`).
  Unquoting in place undoes quoting, every escape stands for the number it spells, two state machines agree on where a string ends, and the
  transforms accept exactly the encodings they should. Found on the way: UTF-16BE writes
  surrogates in the wrong order.

Code that updates state in the source is a class or a method on arrays here, with loops
where the source has loops; each method is proved against a function of the old state, and
the theorems are about those functions. Offsets, counts and labels are unbounded integers
except where a width matters: the limbs and accumulators, 64-bit expression values, 32-bit
character accumulators and displacement fields are all explicit. The bit operations that
merge disjoint fields are written as arithmetic, and shown to be the same where that is not
evident. The operand values on which C leaves an operator undefined (shift counts
outside 0..63, the least 64-bit number divided by -1) are reported as errors by the
evaluator of the model.

`Wrappers`, `Bytes`, `Sequences` and `DecimalDigits` hold what several components share.

The keyword and macro hash tables are abstract total maps; the operating system, the output
back ends and the diagnostics are reduced to the cells handed to the back end and to error
flags. Conditions of `%if` are an oracle that may depend on everything that has happened,
and `process_ea` is a parameter of the two bytecode interpreters, which
`EffectiveAddress.UseMemory` fills in.

## Model

| member | source | states |
|---|---|---|
| FloatMultiply.Multiply | assembler/nasm/asm/float.c:104-148 | For normalised operands the result is the floor of A·B / 2^(192+e) with the returned e in {0, -1}; no 64-bit accumulator overflows, and both arguments may be the same array |
| FloatMultiply.Accumulate | assembler/nasm/asm/float.c:113-125 | The double loop leaves an accumulator whose weighted sum is exactly A·B, with every entry inside 64 bits |
| FloatMultiply.ProductNormalised | assembler/nasm/asm/float.c:104-112 | The truncated product of two normalised mantissas is normalised again |
| FloatDecimal.ReadExponent | assembler/nasm/asm/float.c:155-194 | The loop that caps after every digit reads the exponent text: its sign, and its digits capped as one number; anything but digits and underscores after one sign is refused |
| FloatDecimal.ScanSignificand | assembler/nasm/asm/float.c:217-258 | Refuses exactly the ill-formed significands; otherwise the first 52 significant digits and the position of the point are those of the text |
| FloatDigits.Double | assembler/nasm/asm/float.c:300-310 | Doubling the digit buffer in place doubles the decimal fraction; the carry out is its integer part |
| FloatDigits.DigitsToMantissa | assembler/nasm/asm/float.c:284-326 | The doubling loop terminates and delivers the floor of the decimal fraction at 192 bits, normalised unless it is zero, with -173 <= twopwr <= 0 |
| FloatScale.ScaleByFive | assembler/nasm/asm/float.c:339-385 | Square-and-multiply by 5 or by the stored 0.2 keeps the product within the relative error of one truncation per unit of abs(tenpwr) |
| FloatScale.Flconvert | assembler/nasm/asm/float.c:201-395 | Succeeds exactly on well-formed text; then X(1-2^-191)^(abs(t)+1) <= mant·2^(e-192) <= X for t >= 0, and <= X(1+2^-194)^abs(t) for t < 0, and mant is zero or normalised |
| DecimalText.SpelledValue | assembler/nasm/asm/float.c:217-267 | The decimal spelling of any natural number, by division and remainder, has that number as the X of the error bound, cut after 52 digits |
| DecimalText.PointScales | assembler/nasm/asm/float.c:217-258 | A point divides X by ten for every digit behind it |
| DecimalText.UnderscoresAndZeros | assembler/nasm/asm/float.c:217-258 | Underscores and zeros in front do not change X |
| DecimalText.ExponentScales | assembler/nasm/asm/float.c:155-194 | e or E and the spelling of any integer k, with or without a plus, multiply X by 10^k, k capped at 5000 either way |
| DecimalText.WellFormedIff | assembler/nasm/asm/float.c:155-258 | The texts that are accepted, as a grammar: digits and underscores with at most one point, and perhaps a mark with signed digits |
| FloatShift.Shr | assembler/nasm/asm/float.c:598-622 | For every count that keeps the code inside the mantissa the number is divided by 2^i and truncated; a count of 0 is no shift but clears the top limb |
| FloatRound.RoundHalfEvenIsNearest | assembler/nasm/asm/float.c:466-481 | The reference rounding is a nearest multiple, and the even one when two are equally near |
| FloatRound.NearestIsHalfEven | assembler/nasm/asm/float.c:458-481 | In nearest mode the kept bits become exactly the half-to-even rounding of the mantissa |
| FloatRound.DirectedCorrectIff | assembler/nasm/asm/float.c:448-456 | Rounding away from zero is right if and only if the half bit is set or nothing below the kept part is |
| FloatRound.ReachedIsRightIff | assembler/nasm/asm/float.c:458-496 | In all four modes the multiple that the code reaches is the right one, except when rounding away from zero with the half bit clear and something below it set |
| FloatRound.DirectedRoundingFails | assembler/nasm/asm/float.c:486-495 | In every format, and for every value of the kept bits, one unit below the last kept bit rounds up to the same kept bits |
| FloatRound.AbsUp | assembler/nasm/asm/float.c:448-456 | Chops, adds the half bit and carries upwards limb by limb; the flag tells whether the top limb became zero |
| FloatRound.AbsDown | assembler/nasm/asm/float.c:440-446 | Clears everything below the kept bits |
| FloatFormat.TruncationMattersIff | assembler/nasm/asm/float.c:834-837 | Dropping the shifted-out bits before rounding changes the result exactly when what is left is a half, bits were lost, and the quotient is even |
| FloatValue.FormatRange | assembler/nasm/asm/float.c:650-655 | Precision and least and greatest exponents of the six formats, as numbers: the largest finite value and the least denormal of each |
| FloatValue.ExtremesDecode | assembler/nasm/asm/float.c:650-655 | The patterns below infinity and above zero decode to those two numbers |
| FloatValue.RoundedIsClose | assembler/nasm/asm/float.c:801-898 | In nearest mode the number packed is within half a unit of the last kept bit, and a shade for the cut bits, of the mantissa as a real number; infinity only from half a unit below the next power of two on |
| FloatPack.FloatUnit.AddHalf | assembler/nasm/asm/float.c:458-496 | The decision of ieee_round in all four modes; the mantissa is put back as it was |
| FloatPack.FloatUnit.Round | assembler/nasm/asm/float.c:458-497 | The mantissa after rounding, for every mode and sign |
| FloatPack.FloatUnit.PackDenormal | assembler/nasm/asm/float.c:832-856 | The bits of a denormal, of one that rounds up to the least normal number, or of a flushed zero |
| FloatPack.FloatUnit.PackNormal | assembler/nasm/asm/float.c:858-877 | The bits of a normal number, of one that rounds into the next binade, or of an overflow to infinity |
| FloatPack.PackSpecial | assembler/nasm/asm/float.c:879-893 | The bits of infinities and of quiet and signalling NaNs |
| FloatPack.EmitBytes | assembler/nasm/asm/float.c:897-898 | The bytes, least significant first, of the kept part of the mantissa |
| FloatPack.FloatUnit.Pack | assembler/nasm/asm/float.c:801-898 | Classifies, packs, signs and emits: the bytes are the pattern that the specification assigns to the number's kind |
| FloatDecode.SpecialDecodes | assembler/nasm/asm/float.c:879-893 | The special patterns decode to infinity, a quiet NaN and a signalling NaN of the right sign |
| FloatDecode.PackedDecodes | assembler/nasm/asm/float.c:801-898 | In every mode, with and without flushing: the number that the packed bits denote, denormals and overflow included |
| FloatDecode.DecodesIff | assembler/nasm/asm/float.c:801-898 | That number is the correct rounding of the shifted mantissa, overflow by mode included, if and only if it is not in the code's own top binade, does not overflow towards zero, and rounding away finds the half bit set or nothing to round |
| FloatDecode.NearestDecodesIff | assembler/nasm/asm/float.c:801-898 | In nearest mode without flushing, the pattern decodes to the half-to-even rounding of the shifted mantissa, denormals and overflow included, if and only if the number is not in the code's own top binade |
| FloatDecode.TruncationDecodes | assembler/nasm/asm/float.c:483-485 | Rounding towards zero, in range, decodes to the truncation |
| FloatDecode.SingleIsNotRoundedUp | assembler/nasm/asm/float.c:486-495 | 1 + 2^-183 in single precision, rounded up, decodes to 1 instead of 1 + 2^-23 |
| FloatDecode.TruncationOverflows | assembler/nasm/asm/float.c:810-815 | 2^129 in single precision decodes to infinity when rounding towards zero, instead of to the largest number |
| FloatDecode.OverflowBecomesNaN | assembler/nasm/asm/float.c:808 | 1.5·2^128 as a 32-bit number should be infinite and is packed as a NaN |
| FloatConstant.DecimalToFloat | assembler/nasm/asm/float.c:718-901 | From the text of a decimal constant to bytes that denote, in every mode and with or without flushing, the rounding of a mantissa within the proved error of the written value; undefined exactly for shifts that leave the mantissa |
| FloatConstant.SpelledPrefix | assembler/nasm/asm/float.c:769-799 | 0d, 0t and 0p before any text select the decimal and the packed conversion of that text, and the other letters another radix |
| FloatConstant.SpelledSuffix | assembler/nasm/asm/float.c:741-743 | A trailing P selects the packed conversion of what is before it |
| FloatConstant.SpelledPlain | assembler/nasm/asm/float.c:769-799 | Text that starts with a digit or a point is a decimal number as it stands, and $ selects hexadecimal |
| FloatConstant.SpelledTokens | assembler/nasm/asm/float.c:745-768 | The tokens for infinity and for quiet and signalling NaNs |
| FloatConstant.ToFloat | assembler/nasm/asm/float.c:718-901 | The dispatch on the spelling: tokens, packed BCD, decimal constants, and other radices to their own conversion |
| FloatConstant.FloatConst | assembler/nasm/asm/float.c:903-922 | The six formats by their size, each converted rightly, and nothing for other sizes |
| PackedBcd.ToPackedBcd | assembler/nasm/asm/float.c:667-716 | Ten bytes: nine that decode as packed decimal to the number modulo 10^18, and the sign; refused exactly for other formats and other characters |
| DecimalText.SpelledNumber | assembler/nasm/asm/float.c:681-704 | The decimal spelling of any natural number is read as that number by the packed conversion |
| PackedBcd.ValueOfLow | assembler/nasm/asm/float.c:681-704 | The digits collected from the end are the digits of the number |
| PackedBcd.PackingDecodes | assembler/nasm/asm/float.c:691-692 | Packed pairs of digits decode to the value of as many digits as there is room for, in valid nibbles |
| PackedBcd.TruncationIsModulo | assembler/nasm/asm/float.c:685-692 | Keeping eighteen digits is reduction modulo 10^18 |
| Labels.LabelTable.LookupLabel | assembler/nasm/asm/labels.c:222-237 | The address of a defined label |
| Labels.LabelTable.DefineLabel | assembler/nasm/asm/labels.c:316-349 | The first definition of a name holds and later ones are refused |
| Labels.LabelTable.RedefineLabel | assembler/nasm/asm/labels.c:250-289 | The new address holds; the change counter grows exactly when the offset differs from the defined one |
| Relaxation.GrantedByteFormInRangeIff | assembler/nasm/asm/assemble.c:497-532 | The byte form that jmp_match grants is in range if and only if it is not a BND JMP measured at 127 |
| Relaxation.QuietPassIff | assembler/nasm/asm/nasm.c:1357-1647 | A sizing pass changes nothing exactly over the tables in which every label agrees with the layout and every EQU with its expression; it then leaves the table alone and walks that layout |
| Relaxation.OutputPass | assembler/nasm/asm/nasm.c:1599-1602 | Over a table that agrees with its layout the output pass changes no label, writes that layout, and complains exactly about its faulty lines |
| Relaxation.JumpGoesToTarget | assembler/nasm/asm/assemble.c:469-483 | Displacement plus end of instruction is the target in every form that is emitted without a complaint |
| Relaxation.OtherSegmentIsRelocated | assembler/nasm/asm/assemble.c:361-383 | A target outside the segment leaves every byte of the field to the back end, with the end of the instruction as base |
| Relaxation.ConsistentIsSound | assembler/nasm/asm/nasm.c:1599-1602 | Over a table that agrees with its layout, EQUs settled or not, an output pass without an error takes every jump to its target, with every byte form in range |
| Relaxation.FixpointIsSound | assembler/nasm/asm/nasm.c:1357-1647 | After a quiet sizing pass later sizing passes repeat it, the output pass moves no label, and if it reports no error every jump leads to its target and every byte form is in range |
| Relaxation.OutputStillIff | assembler/nasm/asm/nasm.c:1616-1621 | With every label in the segment and every target defined, the output pass moves no label if and only if its table agrees with the layout that the table induces |
| Relaxation.CleanOutputIff | assembler/nasm/asm/nasm.c:1599-1621 | The output pass neither moves a label nor complains if and only if every target is defined, the table agrees with its layout, and no line of that layout is at fault |
| Listing.SoundIsListed | assembler/nasm/asm/nasm.c:1357-1647 | Every assembled program is, item by item, its data, its labels at the positions where they stand, and jumps: opcode bytes as given, BND as written, the byte form exactly when it is asked for or allowed and in reach, and a field that takes the processor from its end to the address the operand names, or is left to the back end |
| Listing.JumpToLabel | assembler/nasm/asm/assemble.c:1603-1632 | In such a listing a jump to name + d arrives d behind the place where the label's item stands |
| Listing.JumpThroughEqu | assembler/nasm/asm/assemble.c:1603-1632 | Through an EQU of label + c it arrives c + d behind it |
| Listing.EquNames | assembler/nasm/asm/nasm.c:1433-1500 | What an EQU leaves in a settled table is the address its expression names |
| Definitions.FirstPassCleanIff | assembler/nasm/asm/labels.c:332-335 | The first pass complains exactly about programs that define a name twice |
| Definitions.LaterPassPlaces | assembler/nasm/asm/labels.c:250-289 | Without such names no pass takes a label out of its segment, whatever the EQUs do |
| Definitions.FirstPassTyped | assembler/nasm/asm/labels.c:316-349 | For programs whose EQUs look backward the first pass gives each name its segment |
| Definitions.LaterPassTyped | assembler/nasm/asm/labels.c:250-289 | For such programs no later pass changes a segment |
| Definitions.UnchangedPassIsSound | assembler/nasm/asm/nasm.c:1616-1624 | For programs of labels, data, jumps and backward EQUs the code's own criterion, no changed offset, makes the fixpoint sound |
| Definitions.UncountedOffsets | assembler/nasm/asm/nasm.c:1616-1624 | A sizing pass that counts no change keeps every offset, and finds the offsets of EQUs right, whatever becomes of segments |
| Definitions.LabelsAndJumpsSettle | assembler/nasm/asm/nasm.c:1357-1647 | Labels, data and jumps alone: once a pass counts no change, all later passes have the same table, the output pass changes nothing and is sound unless it complains about a line |
| Passes.MeasureDecreases | assembler/nasm/asm/nasm.c:1623-1645 | Whatever a pass counts, (3 - pass0, prev_offset_changed, 998 - stall_count) decreases or the loop ends |
| Passes.OutputPassIff | assembler/nasm/asm/nasm.c:1357-1378 | pass0 counts the quiet passes after the first; the output pass is next exactly when there have been two, the second just before it |
| Passes.OutputPassIsLast | assembler/nasm/asm/nasm.c:1616-1625 | The output pass is the last one, whatever it counted |
| Passes.SteadyGivesUp | assembler/nasm/asm/nasm.c:1632-1645 | Labels that keep moving in the same number make the assembler give up after pass 1000 |
| Passes.Assembler.Line | assembler/nasm/asm/nasm.c:1394-1614 | One source line of a pass updates table, counter, offset and code as the line's meaning says |
| Passes.Assembler.RunPass | assembler/nasm/asm/nasm.c:1376-1614 | A whole pass over the program |
| Passes.Assembler.AssembleFile | assembler/nasm/asm/nasm.c:1343-1647 | Terminates; rejects at once exactly the programs that define a name twice; every assembled program is sound and is the listing of its items, with the offsets of all EQUs right; the output pass ends in a phase error exactly when its table is at odds with the layout, which backward EQUs rule out |
| Passes.BndJumpIsOutOfRange | assembler/nasm/asm/assemble.c:524-529 | bnd jmp $+130 is granted the byte form and then out of range |
| ForwardEqus.BreakTheFixpoint | assembler/nasm/asm/labels.c:285-289 | Four forward EQUs for offset zero: two passes count no change, yet the table does not agree with its layout and the output pass moves a label, because segments are not compared |
| ForwardEqus.StaleSegment | assembler/nasm/asm/labels.c:285-289 | A near jump through that chain is assembled without an error, as a relocation against an absolute address instead of the distance to its label |
| EncodeSizes.SizesRelate | assembler/nasm/asm/assemble.c:899-1946 | The exact difference between announced and emitted length, for every template: bare qwords, uncounted space, vector introducers, effective addresses, and REX and LOCK bytes by the REX bits that gencode has at each code |
| EncodeSizes.GencodeMatchesIff | assembler/nasm/asm/assemble.c:715-725 | For templates with one introducer, ahead of the address, gencode emits the announced number of bytes if and only if no \34 operand is a bare qword in 16-bit mode and as many prefix bytes are let out as were counted |
| EncodeSizes.VectorBalanceIff | assembler/nasm/asm/assemble.c:1701-1717 | With a VEX or EVEX prefix and no \313 the prefix bytes balance if and only if \324 does not widen the prefix and \334 does not find REX.R |
| EncodeSizes.ScalarBalanceIff | assembler/nasm/asm/assemble.c:1392-1403 | Without a vector prefix they balance outside 64-bit mode, and in it if and only if a counted REX byte comes out once, as itself or as LOCK, and an uncounted one does not |
| EncodeSizes.DisciplinedMatchesIff | assembler/nasm/asm/assemble.c:715-725 | For templates whose codes leave the REX bits steady: equal if and only if there is no such bare qword and a counted REX byte has an opcode to stand before |
| EncodeSizes.NarrowQwordIsMissized | assembler/nasm/asm/assemble.c:1586-1592 | A bare qword operand of \34 in 16-bit mode is announced with 4 bytes and emitted with 2 |
| EncodeSizes.LoneRexIsMissized | assembler/nasm/asm/assemble.c:1392-1403 | A REX byte without an opcode is announced and not emitted |
| EncodeSizes.ClearedRexIsMissized | assembler/nasm/asm/assemble.c:1779-1781 | o64 jrcxz: \313 drops the REX byte that was announced for the prefix |
| EncodeSizes.MaskedRexIsMissized | assembler/nasm/asm/assemble.c:1108-1114 | \323 hides from calcsize the REX.W that \324 sets in gencode |
| EncodeSizes.SecondVexIsMissized | assembler/nasm/asm/assemble.c:1701-1717 | A second VEX introducer is emitted and not announced |
| EncodeSizes.ForwardReserveIsMissized | assembler/nasm/asm/assemble.c:1152-1162 | A forward reference in \340 is reserved and not announced |
| Encoder.OutData.Out | assembler/nasm/asm/assemble.c:419-421 | Appends cells and moves offset and insoffs together, so that out_reladdr's base stays the end of the instruction |
| Encoder.Insn.EmitPrefix | assembler/nasm/asm/assemble.c:1405-1522 | Counts, and with a destination emits, exactly the bytes of the prefixes in their order |
| Encoder.Insn.EmitRexByte | assembler/nasm/asm/assemble.c:1392-1403 | One REX byte at most, in 64-bit mode, for instructions without a vector prefix; InstructionDecode reads its bits back by position |
| Encoder.Insn.SizeOne | assembler/nasm/asm/assemble.c:925-1286 | One code of calcsize, with the instruction's fields updated in place |
| Encoder.Insn.Calcsize | assembler/nasm/asm/assemble.c:899-1390 | The loop over the raw bytecode and the checks after it compute the announced length and the instruction gencode will see, or -1 |
| Encoder.Insn.GenOne | assembler/nasm/asm/assemble.c:1542-1944 | One code of gencode: the cells it emits and the REX bits it leaves |
| Encoder.Insn.Gencode | assembler/nasm/asm/assemble.c:1524-1946 | The loop over the raw bytecode emits the cells of the template's codes, one after another, behind the prefixes; the decoding theorems below say what those cells mean |
| Encoder.Insn.Assemble | assembler/nasm/asm/assemble.c:709-726 | The assertion insoffs == insn_size holds, for regular templates, if and only if no operand is written narrower and the prefixes balance |
| VexPrefix.VexPrefixDecodes | assembler/nasm/asm/assemble.c:1701-1717 | Both forms of the VEX prefix decode to the instruction's own R, X, B, W, register, map and L/pp bits |
| InstructionDecode.MemoryDecodes | assembler/nasm/asm/assemble.c:1392-1946 | Prefixes, REX, opcode, ModRM, SIB and displacement of any template of one opcode and one memory operand are read back: the operand's address for every valuation of the registers, the spare register, W, and a REX byte exactly when a bit or a low byte register asks for it |
| InstructionDecode.RegisterDecodes | assembler/nasm/asm/assemble.c:1392-1946 | The same for a register operand: both registers and W come back from ModRM and REX |
| InstructionDecode.OpcodeRegisterDecodes | assembler/nasm/asm/assemble.c:1566-1569 | \10 to \13: the register comes back from the opcode byte and REX.B, the upper bits of the byte unchanged |
| InstructionDecode.SimpleAcceptedIff | assembler/nasm/asm/assemble.c:1287-1389 | Such instructions are refused exactly when a vector prefix is demanded or a vector index used, or REX is needed outside 64-bit mode or beside AH to BH |
| InstructionDecode.SimpleLength | assembler/nasm/asm/assemble.c:715-725 | Such instructions are as long as announced, so relative fields count from the next one |
| InstructionDecode.FieldHolds | assembler/nasm/asm/assemble.c:1574-1632 | Immediate fields hold the operand's number and relative fields its distance from the end, least significant byte first, modulo the field's width |
| InstructionDecode.OtherFields | assembler/nasm/asm/assemble.c:1634-1639 | The segment of an operand, a condition added to an opcode byte, a fixed byte, and the distance across a near jump |
| InstructionDecode.SizePrefixes | assembler/nasm/asm/assemble.c:1470-1505 | Size prefixes are emitted exactly where the mode needs them to reach the operand and address sizes that they name |
| InstructionDecode.OnlySizePrefixes | assembler/nasm/asm/assemble.c:1470-1511 | Size prefixes are 66 and 67 or nothing, and the prefixes that choose an encoding have no byte |
| InstructionDecode.LegacyPrefixes | assembler/nasm/asm/assemble.c:1413-1464 | The bytes of the other prefixes, as the processor's manual has them |
| VexInstruction.VexMemoryDecodes | assembler/nasm/asm/assemble.c:1701-1717 | A VEX or XOP instruction with a memory operand is read back: map, fixed bits, source register, W by the template's W field, the spare register, and the operand's address for every valuation |
| VexInstruction.VexAcceptedIff | assembler/nasm/asm/assemble.c:1287-1389 | Exactly which VEX instructions with a memory operand are refused |
| CodeEffects.SizedFields | assembler/nasm/asm/assemble.c:1586-1632 | The fields whose size depends on the operand or the mode, with the size in bytes and the number they hold |
| CodeEffects.Is4Reads | assembler/nasm/asm/assemble.c:1641-1672 | An is4 byte carries the register's low four bits above, and its fifth bit or the constant below |
| CodeEffects.PrefixesInOrder | assembler/nasm/asm/assemble.c:1405-1522 | Prefixes are emitted in the order of their positions |
| CodeEffects.OperandSizeCodes | assembler/nasm/asm/assemble.c:1081-1103 | After o16 or o32 the processor works with operands of that size, unless another size prefix was written |
| CodeEffects.DemandedPrefixes | assembler/nasm/asm/assemble.c:1142-1166 | After mustrep, mustrepne and wait the prefix they demand is among the bytes |
| CodeEffects.WrittenPrefixes | assembler/nasm/asm/assemble.c:1081-1166 | None of these codes displaces a prefix that was written |
| CodeEffects.AddressSizeCodes | assembler/nasm/asm/assemble.c:1766-1774 | After a16 or a32 the processor works with addresses of that size, and a prefix that was written is not repeated |
| Templates.ByteCodeCompile | assembler/nasm/x86/insns.pl:723-1043 | The compiler of the instruction templates refuses exactly the operations without their operands; what the interpreters read from its bytes are, up to the grouping of literal bytes, the codes its operations stand for |
| Templates.OperationReads | assembler/nasm/x86/insns.pl:825-1040 | Each operation on its own, whatever bytes follow |
| Templates.IntendedIff | assembler/nasm/x86/insns.pl:868-926 | Operand numbers are those intended if and only if no vector register is beyond the fourth operand, and no ModRM operand next to an index operand |
| Grouping.CompiledMeans | assembler/nasm/asm/assemble.c:925-939 | Length and cells of a compiled template are those of its operations one by one, however literal bytes are grouped |
| EffectiveAddress.ChooseMod | assembler/nasm/asm/assemble.c:2401-2405 | The mod field by offset, segment, forward reference and forced sizes |
| EffectiveAddress.Reorganize | assembler/nasm/asm/assemble.c:2651-2701 | All swaps and splits keep base + index·scale for every register valuation, and succeed exactly for what can be placed |
| AddressForms.PlaceableIff | assembler/nasm/asm/assemble.c:2651-2773 | Two different registers and a scale can be placed if and only if some ModRM, SIB and REX has their sum as its address, for every valuation |
| AddressForms.PlaceableIff16 | assembler/nasm/asm/assemble.c:2774-2850 | The same for 16-bit addressing |
| EffectiveAddress.EncodeIndirect | assembler/nasm/asm/assemble.c:2703-2773 | ModRM, SIB, REX bits and displacement that decode to the registers they were made from |
| EffectiveAddress.EncodeOffset | assembler/nasm/asm/assemble.c:2460-2499 | The forms without registers, absolute and RIP-relative |
| EffectiveAddress.Encode16 | assembler/nasm/asm/assemble.c:2774-2856 | 16-bit addresses: accepted exactly for the register pairs of Table 2-1, and decoded to them |
| EffectiveAddress.ProcessMemory | assembler/nasm/asm/assemble.c:2407-2865 | Accepts exactly the encodable operands; the encoding is well formed and contributes the operand's registers for every valuation |
| AddressForms.AcceptedIffEncodable | assembler/nasm/asm/assemble.c:2407-2865 | process_ea refuses an operand, registers named once, only if a register or a displacement size does not fit the address size or the processor has no form for it |
| AddressForms.RegisterTwice | assembler/nasm/asm/assemble.c:2698-2701 | [eax + eax*3] as a base and an index is refused although [eax*4] has a form |
| AddressForms.ByteFormIff | assembler/nasm/asm/assemble.c:2401-2405 | A byte displacement is used exactly when it is forced, or its extension is the known offset |
| EffectiveAddress.DecodesIff | assembler/nasm/asm/assemble.c:2407-2865 | The decoded address is the operand's modulo the address size, for every valuation, if and only if the displacement fits its field |
| EffectiveAddress.NarrowAddressesFit | assembler/nasm/asm/assemble.c:2401-2405 | Without a forced byte displacement 16- and 32-bit addresses always fit |
| EffectiveAddress.WideAddressesFit | assembler/nasm/asm/assemble.c:2401-2405 | 64-bit addresses fit for offsets, or RIP distances, that are signed 32-bit numbers |
| EffectiveAddress.ProcessRegister | assembler/nasm/asm/assemble.c:2426-2445 | A direct register: mod 3, and the numbers of both registers through ModRM and REX |
| EffectiveAddress.UseMemory | assembler/nasm/asm/assemble.c:1270-1286 | A memory operand made by process_ea and handed to both interpreters: their lengths agree under the conditions on the rest of the template |
| EffectiveAddress.AddAsp | assembler/nasm/asm/assemble.c:2867-2942 | Succeeds exactly when mode, prefix and all memory operands allow some address size, prefers the mode's own, and adds a prefix exactly for the other |
| AddressForms.AllowedAreTheProcessors | assembler/nasm/asm/assemble.c:2872-2889 | The address sizes that mode and prefix allow are those the processor has in that mode, with and without 67 |
| ExprVector.MergeValue | assembler/nasm/asm/eval.c:139-182 | The sum of two vectors has the sum of their values modulo 2^64, under every assignment |
| ExprVector.MergeSorted | assembler/nasm/asm/eval.c:139-182 | Sums of sorted vectors are sorted |
| ExprVector.ScalarMultValue | assembler/nasm/asm/eval.c:196-210 | Multiplying a vector multiplies its value |
| ExprVector.ScalarIff | assembler/nasm/asm/exprlib.c:66-80 | A sorted vector passes the scalar test exactly when its value is the same under all assignments |
| ExprVector.KnownMeansNotUnknown | assembler/nasm/asm/exprlib.c:127-143 | Without unknown and far-absolute terms the two scalar tests agree and neither unknown test holds |
| EvalSyntax.ReadsBack | assembler/nasm/asm/eval.c:303-646 | A printed expression is read back up to the operators that may still follow it |
| EvalSyntax.RoundTrip | assembler/nasm/asm/eval.c:777-964 | Printing with the parentheses each level needs and parsing are inverse, from rexp0 and from expr0 |
| EvalSyntax.ParsedIsLegal | assembler/nasm/asm/eval.c:264-296 | What is parsed is an expression of the grammar |
| Precedence.Associates | assembler/nasm/asm/eval.c:303-646 | x p y q z without parentheses: the second operator takes the middle operand exactly when its class is a later one of the ten, for all pairs of operators |
| Precedence.Parenthesised | assembler/nasm/asm/eval.c:864-874 | Parentheses win on either side |
| Precedence.UnaryBindsTightest | assembler/nasm/asm/eval.c:787-842 | Every unary operator binds tighter than every binary one, on either side |
| EvalMeaning.VectorOfIsClean | assembler/nasm/asm/eval.c:303-646 | Vectors of resolved expressions are sorted and without unknown terms, so their scalar test is exact |
| EvalMeaning.DifferenceOrdersIff | assembler/nasm/asm/eval.c:399-430 | The sign of the wrapped difference orders two numbers if and only if the difference fits 64 bits |
| EvalMeaning.RelateIff | assembler/nasm/asm/eval.c:386-433 | A comparison of any two vectors is answered rightly if and only if the difference fits, or for equality is a scalar or not zero |
| EvalMeaning.CombinePreserves | assembler/nasm/asm/eval.c:303-646 | Each binary operator gives a vector whose value is the operator's result on the operands' values |
| EvalMeaning.EvaluationPreservesMeaning | assembler/nasm/asm/eval.c:303-964 | Under every assignment of registers and segment bases the vector of an error-free expression has the expression's value modulo 2^64 |
| EvalMeaning.OverflowingComparison | assembler/nasm/asm/eval.c:421-427 | 2^63 - 1 < -1 is answered with true |
| EvalMeaning.SelfDifference | assembler/nasm/asm/eval.c:159-170 | Any vector minus itself is empty, unknown terms included |
| Places.DifferenceOfPlaces | assembler/nasm/asm/eval.c:900-952 | The difference of two labels, $, $$ or numbers is a number if and only if they are in the same segment, and then the distance of their offsets |
| Places.UndefinedName | assembler/nasm/asm/eval.c:926-945 | A name without a definition is an error where that is critical, and unknown elsewhere, as is its distance from anything |
| Operators.BitwiseOperators | assembler/nasm/asm/eval.c:440-516 | Or, xor and and, bit by bit |
| Operators.Shifts | assembler/nasm/asm/eval.c:518-550 | Bit k of a shift is bit k - y or k + y of the operand, zero beyond its ends |
| Operators.UnsignedDivision | assembler/nasm/asm/eval.c:577-646 | / and % are quotient and remainder of the 64-bit patterns |
| Operators.SignedDivision | assembler/nasm/asm/eval.c:629-640 | x == y * q + r with a remainder smaller than y, zero or of x's sign |
| Operators.TruthValues | assembler/nasm/asm/eval.c:303-433 | The logical operators and the comparisons, as 0 and 1 |
| Operators.ComplementAndNegation | assembler/nasm/asm/eval.c:787-825 | ~ inverts every bit, - gives the number whose sum with the operand is zero modulo 2^64, and ! is 1 for zero only |
| Operators.OperatorErrorsIff | assembler/nasm/asm/eval.c:303-646 | Exactly when each binary operator reports an error |
| Operators.UnaryErrorsIff | assembler/nasm/asm/eval.c:787-842 | Exactly when each unary operator reports an error |
| Logarithm.Round | assembler/nasm/nasmlib/ilog2.c:38-44 | One step of the bit search halves the range and keeps the logarithm of the whole |
| Logarithm.Ilog2 | assembler/nasm/nasmlib/ilog2.c:129-146 | The five steps find the place of the highest bit of any 64-bit number |
| Logarithm.FloorLogIs | assembler/nasm/asm/eval.c:757-759 | A number lies between the power of its logarithm and the next |
| Logarithm.CeilingLogIs | assembler/nasm/asm/eval.c:761-763 | The ceiling logarithm is the least exponent whose power is not below the number |
| Logarithm.ExactIff | assembler/nasm/asm/eval.c:751-757 | The exact logarithm is defined exactly for powers of two, where floor and ceiling agree |
| Logarithm.EvalIfunc | assembler/nasm/asm/eval.c:746-775 | All four integer functions, with the error of ilog2e |
| Evaluator.Expr.TestSimple | assembler/nasm/asm/exprlib.c:46-80 | is_simple and is_really_simple as loops over the vector |
| Evaluator.Expr.TestUnknown | assembler/nasm/asm/exprlib.c:127-132 | is_unknown as a loop over the vector |
| Evaluator.Expr.TestJustUnknown | assembler/nasm/asm/exprlib.c:138-143 | is_just_unknown as a loop over the vector |
| Evaluator.Expr.SimpleValue | assembler/nasm/asm/exprlib.c:149-159 | reloc_value as a loop over the vector |
| Evaluator.Expr.MultiplyBy | assembler/nasm/asm/eval.c:196-210 | scalar_mult in place is the scalar multiple, cut before far-absolute segments |
| Evaluator.Sum | assembler/nasm/asm/eval.c:139-182 | The two-cursor merge is the sum of the vectors; the operands stay as they are |
| Evaluator.Parser.Level | assembler/nasm/asm/eval.c:303-646 | Each level delivers a vector exactly when its text parses and evaluates without an error: the vector of the parsed expression, and the position after it |
| Evaluator.Parser.Primary | assembler/nasm/asm/eval.c:777-964 | The same for expr6 |
| Evaluator.Parser.CombineExprs | assembler/nasm/asm/eval.c:303-646 | The operators of all binary levels on stored vectors, with their error reports |
| Evaluator.Parser.Evaluate | assembler/nasm/asm/eval.c:966-1006 | evaluate returns without an error exactly when the text parses and its expression has a vector; for a printed expression the result has the expression's value under every assignment for which its comparisons are faithful |
| SMacroSpec.AcyclicExpandsFully | assembler/nasm/asm/preproc.c:4243-4506 | Macros without cycles leave nothing unexpanded |
| SMacroSpec.CallExpands | assembler/nasm/asm/preproc.c:4418-4500 | A call is its macro's body, piece by piece, with %? and %?? the names as called and as defined, expanded with the macro in progress |
| SMacroSpec.OneLevel | assembler/nasm/asm/preproc.c:4340-4500 | With nothing but names in progress in it the body stays as it is; a macro without a body is deleted, or is its value |
| SMacroSpec.ExpandJoins | assembler/nasm/asm/preproc.c:4243-4506 | Tokens expand one after the other |
| SMacro.Segment | assembler/nasm/asm/preproc.c:4442-4500 | In front of anything, tokens without end markers expand as they do alone |
| SMacro.PushExpansion | assembler/nasm/asm/preproc.c:4432-4491 | Pushing a body and its end marker keeps what is still to come and takes one turn off the weight |
| SMacro.Expander.PushBody | assembler/nasm/asm/preproc.c:4446-4481 | The loop over the stored body leaves the instance in front of the worklist |
| SMacro.Expander.ExpandLine | assembler/nasm/asm/preproc.c:4210-4506 | Succeeds exactly when the expansion takes fewer turns than the limit; then the output is the recursive expansion under a hide set and no macro is left in progress |
| Conditionals.RunKeepsShadowed | assembler/nasm/asm/preproc.c:2794-2889 | Whatever the lines are, every frame above one that does not emit is COND_NEVER |
| Conditionals.TopIsEnough | assembler/nasm/asm/preproc.c:330-334 | The top of the stack emits exactly when every frame does |
| Conditionals.RunsNest | assembler/nasm/asm/preproc.c:2794-2889 | The lines of a nest have, where lines are emitted, exactly the effect of structural evaluation, conditions included, and elsewhere none; the stack is left as it was |
| Conditionals.RunsStray | assembler/nasm/asm/preproc.c:2817-2889 | Branches that follow an else branch by mistake are passed over, and their conditions with them |
| Conditionals.FatalIff | assembler/nasm/asm/preproc.c:2817-2889 | The fatal error is reported exactly for a line that closes or continues what is not open, and the stack has one entry for each open conditional |
| Conditionals.Preprocessor.Process | assembler/nasm/asm/preproc.c:2794-2889 | The four directives and the test on emission, with the stack updated in place |
| Conditionals.Preprocessor.ProcessFile | assembler/nasm/asm/preproc.c:5249-5258 | A file of lines: the invariant, when it ends in a fatal error, and for the lines of a nest its meaning with an empty stack |
| Repeat.FlatMeans | assembler/nasm/asm/preproc.c:3102-3131 | Unrolling inner blocks while the outer one is being defined yields the same lines |
| Repeat.CollectsCopies | assembler/nasm/asm/preproc.c:5072-5106 | A marker in front of a definition puts exactly its copies into it |
| Repeat.RunsCopies | assembler/nasm/asm/preproc.c:5072-5106 | A self-repushing marker runs its block exactly as often as is left |
| RepeatCount.RepeatedLines | assembler/nasm/asm/preproc.c:3073-3082 | A block of count copies has its lines in order, count times, for every count from 0 below 2^62, and none for any other |
| Repeat.RunsNest | assembler/nasm/asm/preproc.c:3042-3131 | The worklist yields exactly the unrolled lines of a nest of blocks and calls, and is left as it was |
| Repeat.FileUnrolls | assembler/nasm/asm/preproc.c:5059-5165 | A whole nest: nothing left to do, no macro active, the output unrolled |
| ExpansionInvariant.MarkerFinishesTop | assembler/nasm/asm/preproc.c:5126-5132 | A popped marker finishes exactly the block that istk->mstk is at |
| ExpansionInvariant.TurnIsStep | assembler/nasm/asm/preproc.c:5072-5165 | For any input, well nested or not, every turn keeps the marker chain unless it reports an open %rep, and is one step of the worklist machine |
| Expansion.Reader.FinishMarker | assembler/nasm/asm/preproc.c:5072-5165 | A marker at the head pushes another copy or is popped with its chain entry |
| Expansion.Reader.Process | assembler/nasm/asm/preproc.c:3042-3131 | %rep, %endrep, collecting, emitting and calling, for one line |
| Expansion.Reader.ExpandMacro | assembler/nasm/asm/preproc.c:4864-4923 | The end marker and the lines of a parameterless multi-line macro |
| Expansion.Reader.ReadFile | assembler/nasm/asm/preproc.c:5059-5268 | A file that is the lines of a nest yields exactly the unrolled nest; lists, chains and flags are empty at the end |
| Quote.EscapeFits | assembler/nasm/asm/quote.c:223-224 | An escape never stands for more bytes than it takes |
| Escapes.HexEscape | assembler/nasm/asm/quote.c:356-370 | Wherever it stands, x or X and one or two hexadecimal digits of v, in either letter case, yield the byte v |
| Escapes.UnicodeEscape | assembler/nasm/asm/quote.c:372-389 | u with up to four and U with up to eight digits of v yield the UTF-8 form of v, and nothing from 2^31 on |
| Escapes.OctalEscape | assembler/nasm/asm/quote.c:324-354 | One to three octal digits of v yield v modulo 256 |
| Escapes.LetterEscape | assembler/nasm/asm/quote.c:287-318 | The letters for control characters |
| Escapes.OtherEscape | assembler/nasm/asm/quote.c:336-338 | Any other character after a backslash stands for itself |
| Escapes.HexString | assembler/nasm/asm/quote.c:228-421 | A back-quoted string of one two-digit escape unquotes to its byte, for every byte |
| Escapes.UnicodeString | assembler/nasm/asm/quote.c:228-421 | Likewise u below 2^16 and U below 2^31 |
| Quoter.Measure | assembler/nasm/asm/quote.c:54-103 | Which quotes will do, and the exact length that back quotes need |
| Quoter.ChoiceOfQuotes | assembler/nasm/asm/quote.c:53-130 | Single quotes if everything is printable and no single quote, else double quotes on the same terms, else back quotes; plain quotes change no byte |
| Quoter.NasmQuote | assembler/nasm/asm/quote.c:45-182 | A NUL-terminated string, exactly as long as measured, that unquotes to the given one |
| Quoter.RoundTrip | assembler/nasm/asm/quote.c:45-182 | Unquoting a quoted string gives the string back with the end on the closing quote |
| Unquote.UnquoteBack | assembler/nasm/asm/quote.c:261-410 | The five-state machine, overwriting its own input, delivers what the untouched input means |
| Unquote.NasmUnquote | assembler/nasm/asm/quote.c:228-421 | In place: the bytes, the length and the end are those of the reference reading of the original string |
| Unquote.SkipsToBodyEnd | assembler/nasm/asm/quote.c:441-475 | The two-state machine stops where the reference reading ends |
| Unquote.NasmSkipString | assembler/nasm/asm/quote.c:427-479 | For a string in any of the three quotes, terminated or not, the index is the one nasm_unquote reports |
| Utf8.DecodesIff | assembler/nasm/asm/quote.c:184-217 | The decoder accepts exactly the concatenations of encoded acceptable characters and returns exactly those characters |
| Utf8.EncodingTable | assembler/nasm/asm/quote.c:184-217 | One to six bytes by the table of section 2 of RFC 2279: ranges, bit patterns of lead and continuation bytes, and the character's bits in them |
| Utf8.DecodesTo31Bits | assembler/nasm/asm/strfunc.c:194-253 | The widest decoder accepts exactly the characters from 0 to 2^31 - 1 that are no surrogates |
| StrFunc.Transform | assembler/nasm/asm/strfunc.c:46-327 | Sizing and writing run of the four transforms: the length and bytes of what the reference decoder's characters emit, or failure when it fails |
| StrFunc.StringTransform | assembler/nasm/asm/strfunc.c:336-359 | Measures, allocates one byte more, terminates and writes |
| StrFunc.Utf16LERoundTrip | assembler/nasm/asm/strfunc.c:46-111 | UTF-16LE output decodes to the same scalar values |
| StrFunc.Utf16BECorrectIff | assembler/nasm/asm/strfunc.c:116-189 | UTF-16BE output is right if and only if there is no supplementary character; otherwise it does not decode at all |
| StrFunc.Utf32RoundTrip | assembler/nasm/asm/strfunc.c:194-327 | Both UTF-32 outputs decode to the same values |
| StrFunc.AcceptsIffWellFormed | assembler/nasm/asm/strfunc.c:65-105 | The UTF-16 transforms succeed exactly on well-formed UTF-8 |

## Left out

- FloatConstant.ToFloat: what becomes of constants with a binary, octal or hexadecimal radix; `ieee_flconvert_bin` shifts a 32-bit value by 32 in some cases, which C leaves undefined.
- FloatShift.Shr: counts above 192 that are not multiples of 32, for which the code leaves the mantissa.
- FloatConstant.DecimalToFloat: numbers so small that the denormal shift is such a count are reported as undefined.
- FloatDecode.DecodesIff: the rounding is that of the shifted mantissa; `FloatFormat.TruncationMattersIff` says when the lost bits matter.
- Passes.Assembler.AssembleFile: one segment, no TIMES, INCBIN, ABSOLUTE, common or external symbols; names are resolved, so local-label prefixes play no part.
- Definitions.LaterPassTyped: programs with forward EQUs, whose segments can still change; `Relaxation.CleanOutputIff` says when they assemble.
- Labels.LabelTable.RedefineLabel: a name first met on a later pass, where the code compares with the uninitialised offset of a fresh entry; in the pass loop every name is in the table after the first pass.
- EncodeSizes.GencodeMatchesIff: templates with two introducers, an address before EVEX, uncounted space, or \313 under EVEX, for which `EncodeSizes.SizesRelate` gives the difference.
- Encoder.Insn.Gencode: the three payload bytes of an EVEX prefix, MIB operands, and is4 diagnostics.
- EffectiveAddress.ProcessMemory: MIB and vector-index operands, EVEX compressed displacement, embedded rounding.
- EffectiveAddress.AddAsp: the second loop, which takes the offset-only form from operands of another size.
- EvalMeaning.EvaluationPreservesMeaning: SEG, WRT, string and float functions, unknown and far-absolute terms; comparisons only where `Faithful` says they are answered rightly.
- Evaluator.Parser.Evaluate: the hints for effective addresses, and the WRT part of `evaluate`.
- Evaluator.Parser.Level: one method stands for the ten binary levels, which differ in their operators only.
- SMacro.Expander.ExpandLine: macros with parameters, token pasting, `%[...]` and the second scan after pasting; after the "interminable macro recursion" error macros stay marked as in progress.
- Conditionals.Preprocessor.ProcessFile: includes, and the message for a missing `%endif` at the end of a file.
- Expansion.Reader.ReadFile: macro parameters and labels, `%exitrep`, `%rotate`, recursive macros, `%macro` definitions inside the file; list cells and macro structures are numbered values rather than heap objects, so aliasing through C pointers is not modelled.
- Unquote.UnquoteBack: the code writes no NUL after a back-quoted result, so only the first bytes count.
- StrFunc.Transform: the four transforms share one method; they differ in what they accept at the top and in what they emit.
- Allocation and freeing, string storage blocks, listing output, debug formats, command-line parsing, response files and Makefile quoting: input/output or glue.
- Templates.ByteCodeCompile: the text of a template; operations come split up and named, with the numbers of `vex`, `xop` and `evex` operations as numbers, and `\ooo` escapes are left out.
- The generated tables (tokens, preprocessor tokens, directives, instruction rows): data, not algorithms.
- The web front end: user interface and thin glue.
