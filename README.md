# LC-3 code generation, modelled in Dafny

This project models the last stage of the Visual-LC-3 assembler: the code generator that
turns parsed LC-3 assembly lines into 16-bit machine words, together with the token
accessors it reads its operands through.

- `outcomes.dfy` (module `Outcomes`): `Option`, `Result` and one `Error` value per way
  the source throws. Examples are a failed `require`, a missing operand, a number that
  does not parse, a label the linker does not know, a construct outside `.ORIG`/`.END`
  and a `TODO()` branch.
- `numbers.dfy` (module `Numbers`): what the generator needs from Kotlin's standard
  library.
  - `ParseInt` is `String.toInt(radix)`: an optional sign and digits, within the 32-bit
    `Int` range.
  - `FormatInt` writes the canonical text that `ParseInt` reads back (`ParseFormatInt`).
  - `BitOr` and `Or16` give the bitwise `or` of the encoder, followed by the `toUShort()`
    truncation.
- `tokens.dfy` (module `Tokens`): the `Token` data class and its accessors (register
  number, string content with escapes, immediate, `.BLKW` count, label, debug form).
- `codegen.dfy` (module `CodeGen`): the pure parts of `CodeGenerator.kt`.
  - `toComplement` and `getPCOffset`.
  - The word layouts of `BR`, `ADD`/`AND` and `TRAP`.
  - The `.STRINGZ` and `.BLKW` expansions and the unimplemented operators.
  - The PC update after each construct.
  - `Step`, one pass of the generator's loop.
- `layout.dfy` (module `Layout`): `Run`, the loop as a fold over the program. It states
  that a failure stops the generator. It also states (`AreaLayout`) that once `.ORIG x`
  opens an area, and until the next `.ORIG` or `.END`, the post-increment PC is x + 1
  plus the words emitted since. The label addresses of the repository's linker test are
  worked out from the PC updates.
- `generator.dfy` (module `Generator`): the `CodeGenerator` class.
  - The instructions and the symbol table are immutable fields, and the
    post-increment PC `pci` is a mutable field.
  - `Build` is the source's loop over the instructions, appending to a local output
    list. It is proved to compute exactly `Run` from the `pci` it starts with.
  - A branch's offset is computed through `GetPCOffset`, as in the source.
  - It leaves `pci` where the source leaves it, including after a failure.

## Model

| member | source | states |
|---|---|---|
| Numbers.ParseInt | src/main/kotlin/tokenizer/Token.kt:50 | `toInt(radix)`: a success lies in the 32-bit range and is an optional sign followed by at least one digit of the radix; a failure is a number-format failure naming the text; ParseWellFormed and ParseOutOfRange state which well-formed texts succeed |
| Numbers.ParseWellFormed | src/main/kotlin/tokenizer/Token.kt:50 | conversely, every text made of an optional `+` or `-` and at least one digit of the radix, whose value fits 32 bits, parses to that signed value |
| Numbers.ParseOutOfRange | src/main/kotlin/tokenizer/Token.kt:50 | a well-formed text whose signed value lies outside the 32-bit range fails |
| Numbers.ParseIgnoresCase | src/main/kotlin/tokenizer/Token.kt:50 | the letter case of the digits does not change whether a text parses or what it reads as |
| Numbers.FormatInt | src/main/kotlin/tokenizer/Token.kt:50 | the canonical text of a value, lower-case digits and `-` for negatives; ParseFormatInt states that `toInt(radix)` reads it back |
| Numbers.ParseFormatInt | src/main/kotlin/tokenizer/Token.kt:50 | every 32-bit value written in radix 10 or 16, sign included, is read back as itself by the `toInt(radix)` model |
| Numbers.NatDigitsValue | src/main/kotlin/tokenizer/Token.kt:50 | the digits written for a natural number read back as that number |
| Numbers.BitOr | src/main/kotlin/codegen/CodeGenerator.kt:55-56 | bitwise `or` of naturals; BitOrBound and BitOrDisjoint give its bounds and its value on disjoint fields |
| Numbers.BitOrBound | src/main/kotlin/codegen/CodeGenerator.kt:55-56 | the `or` of two values below 2^k stays below 2^k |
| Numbers.BitOrDisjoint | src/main/kotlin/codegen/CodeGenerator.kt:55-56 | `or` of a multiple of 2^k with a value below 2^k is their sum: fields placed in disjoint bits do not interfere |
| Numbers.Or16 | src/main/kotlin/codegen/CodeGenerator.kt:55-56 | `(a or b).toUShort()` is always a 16-bit word |
| Numbers.Or16Disjoint | src/main/kotlin/codegen/CodeGenerator.kt:62-71 | the truncated `or` of disjoint fields that fit in 16 bits is their sum |
| Tokens.DropFirst | src/main/kotlin/tokenizer/Token.kt:24 | the result is one character shorter than a non-empty text, and that first character followed by the result is the text; an empty text gives an empty result |
| Tokens.Unquote | src/main/kotlin/tokenizer/Token.kt:34 | `drop(1).dropLast(1)` is the text between the first and the last character, and empty for texts shorter than two |
| Tokens.AsRegisterId | src/main/kotlin/tokenizer/Token.kt:20-25 | a non-register token fails the type check; `R` followed by one digit 0-7 reads as that digit (RegisterName) |
| Tokens.RegisterName | src/main/kotlin/tokenizer/Token.kt:24 | the text after the first character of `R0`..`R7` reads as the register number |
| Tokens.ReplaceEscape | src/main/kotlin/tokenizer/Token.kt:35 | one `replace` of an escape by its character never lengthens the text; ReplaceEscapeNoBackslash and UnescapeEscape state what it changes |
| Tokens.Unescape | src/main/kotlin/tokenizer/Token.kt:35 | the four replacements in the source's order never lengthen the text; UnescapeEscape states that they undo the escaping |
| Tokens.ReplaceEscapeNoBackslash | src/main/kotlin/tokenizer/Token.kt:35 | an escape replacement changes nothing in a text without a backslash |
| Tokens.AsStringContent | src/main/kotlin/tokenizer/Token.kt:30-36 | succeeds exactly on string tokens, and decoding never lengthens the text between the quotes |
| Tokens.StringContentWithoutEscapes | src/main/kotlin/tokenizer/Token.kt:30-36 | a literal without a backslash reads as its text with the quotes removed |
| Tokens.UnescapeEscape | src/main/kotlin/tokenizer/Token.kt:35 | the four replacements, in the source's order, undo the escaping of newline, tab, backspace and quote |
| Tokens.StringLiteralRoundTrip | src/main/kotlin/tokenizer/Token.kt:30-36 | the quoted, escaped literal of any backslash-free text reads back as that text |
| Tokens.AsImmediate | src/main/kotlin/tokenizer/Token.kt:41-51 | a non-immediate fails the type check; a success had a `#`, `x` or `X` marker and lies in the 32-bit range |
| Tokens.ImmediateRoundTrip | src/main/kotlin/tokenizer/Token.kt:41-51 | `#` with decimal digits and `x`/`X` with hexadecimal digits read back every 32-bit value |
| Tokens.ImmediateWellFormed | src/main/kotlin/tokenizer/Token.kt:41-51 | every immediate written as a `#`, `x` or `X` marker, an optional sign and digits of either case, within 32 bits, reads as its signed value |
| Tokens.HexSpelling | src/main/kotlin/tokenizer/Token.kt:41-51 | `xFFFF` and `XF025`, upper-case digits after either marker, read as 0xFFFF and 0xF025 |
| Tokens.DecimalSpelling | src/main/kotlin/tokenizer/Token.kt:41-51 | `#05` and `#+5`, a leading zero and an explicit plus, both read as 5 |
| Tokens.ImmediateExamples | src/main/kotlin/tokenizer/Token.kt:41-51 | `#-1` is -1, `x25` is 37 and `x200` is 512 |
| Tokens.AsNumber | src/main/kotlin/tokenizer/Token.kt:56-59 | a non-number fails the type check; a success lies in the 32-bit range |
| Tokens.NumberRoundTrip | src/main/kotlin/tokenizer/Token.kt:56-59 | the decimal text of every 32-bit value reads back as that value, as a `.BLKW` count and as a register number after any one-character marker |
| Tokens.AsLabel | src/main/kotlin/tokenizer/Token.kt:64 | the label name; LabelIgnoresKind states it is the content for every type |
| Tokens.LabelIgnoresKind | src/main/kotlin/tokenizer/Token.kt:64 | a label name is the content, whatever the token's type |
| Tokens.ToFormatted | src/main/kotlin/tokenizer/Token.kt:69-77 | the debug form is a two-character prefix ending in `:` followed by the unchanged content |
| Tokens.FormattedRoundTrip | src/main/kotlin/tokenizer/Token.kt:69-77 | the debug form determines the token: type and content are read back from it |
| Tokens.Prefix | src/main/kotlin/tokenizer/Token.kt:70-76 | the debug prefix of each type; PrefixesDistinct and FormattedRoundTrip state that it identifies the type |
| Tokens.PrefixesDistinct | src/main/kotlin/tokenizer/Token.kt:70-76 | two types share a prefix only when they are the same type |
| CodeGen.ToComplement | src/main/kotlin/codegen/CodeGenerator.kt:10-18 | succeeds exactly for values in -2^(bits-1)..2^(bits-1)-1, otherwise fails as out of range; the field is below 2^bits and is the value, plus 2^bits when negative |
| CodeGen.ComplementRoundTrip | src/main/kotlin/codegen/CodeGenerator.kt:10-18 | reading a packed field as two's complement gives back every value that fits |
| CodeGen.ComplementFieldRoundTrip | src/main/kotlin/codegen/CodeGenerator.kt:10-18 | every field below 2^bits is the packing of the value it reads as |
| CodeGen.PCOffset | src/main/kotlin/codegen/CodeGenerator.kt:32-35 | succeeds exactly for known labels, and the post-increment PC plus the offset is the label's address; an unknown label fails as such |
| CodeGen.ConditionCodes | src/main/kotlin/codegen/CodeGenerator.kt:53-54 | bit 2, 1 or 0 is set exactly when `N`, `Z` or `P` occurs in the suffix; an empty suffix means all three |
| CodeGen.EncodeBranch | src/main/kotlin/codegen/CodeGenerator.kt:51-56 | the BR word; BranchFailures and BranchEncoding state its failures, and BranchEncoding decodes its fields |
| CodeGen.BranchFailures | src/main/kotlin/codegen/CodeGenerator.kt:52 | a branch with no operand fails as a missing operand |
| CodeGen.BranchEncoding | src/main/kotlin/codegen/CodeGenerator.kt:51-56 | an unknown label fails; otherwise the branch succeeds exactly when the distance fits nine bits, and the word decodes to opcode 0, the condition codes and that distance |
| CodeGen.BranchWord | src/main/kotlin/codegen/CodeGenerator.kt:55 | a branch within reach is the condition codes times 512 plus the offset field |
| CodeGen.EncodeArith | src/main/kotlin/codegen/CodeGenerator.kt:58-73 | the ADD/AND word; ArithFailures states its failures, and ArithOperands, ArithImmediateEncoding and ArithRegisterEncoding its fields and the immediate range |
| CodeGen.ArithFailures | src/main/kotlin/codegen/CodeGenerator.kt:60-69 | in the source's order: fewer than three operands fail as missing, then a DR or SR1 that is not a register, then an immediate that does not parse or an SR2 that is not a register, each with that operand's failure |
| CodeGen.OrSecondOperand | src/main/kotlin/codegen/CodeGenerator.kt:63-70 | the last ADD/AND operand `or`ed into the head; ImmediateOperand and RegisterOperand give its value in each mode |
| CodeGen.ArithImmediateEncoding | src/main/kotlin/codegen/CodeGenerator.kt:58-73 | with register operands 0-7 and an immediate last operand, ADD/AND succeeds exactly for immediates in -16..15, and the word decodes to opcode, DR, SR1, immediate mode and that immediate |
| CodeGen.ArithRegisterEncoding | src/main/kotlin/codegen/CodeGenerator.kt:58-73 | with three register operands 0-7, the word decodes to opcode, DR, SR1, register mode and SR2, with bits 4-3 clear |
| CodeGen.ArithOperands | src/main/kotlin/codegen/CodeGenerator.kt:62 | once DR and SR1 are read, the word is the head `opcode:DR:SR1` shifted by six, combined with the last operand |
| CodeGen.ArithHead | src/main/kotlin/codegen/CodeGenerator.kt:62 | the three `or`ed fields of the head are their sum |
| CodeGen.ImmediateOperand | src/main/kotlin/codegen/CodeGenerator.kt:65-66 | an immediate operand adds bit 5 and its five-bit field to the head |
| CodeGen.RegisterOperand | src/main/kotlin/codegen/CodeGenerator.kt:67-69 | a register operand 0-7 is added to the head |
| CodeGen.EncodeTrap | src/main/kotlin/codegen/CodeGenerator.kt:130-134 | the TRAP word; TrapEncoding states it, and OperandFailures its failures for no operand and an unreadable vector |
| CodeGen.TrapEncoding | src/main/kotlin/codegen/CodeGenerator.kt:130-134 | TRAP succeeds exactly when the vector reads as an immediate, and the word is 0xF000 plus the vector's low byte |
| CodeGen.CodeUnits | src/main/kotlin/codegen/CodeGenerator.kt:137-140 | a character is one or two UTF-16 code units, and one unit, its own code, exactly when it lies in the Basic Multilingual Plane |
| CodeGen.Utf16 | src/main/kotlin/codegen/CodeGenerator.kt:137-140 | a text has at least as many code units as characters |
| CodeGen.Utf16Bmp | src/main/kotlin/codegen/CodeGenerator.kt:137-140 | a text of Basic Multilingual Plane characters is one unit per character, each unit that character's code |
| CodeGen.Classify | src/main/kotlin/codegen/CodeGenerator.kt:51-150 | which branch of the dispatch an operator takes; ClassifyDispatch states it |
| CodeGen.ClassifyDispatch | src/main/kotlin/codegen/CodeGenerator.kt:51-150 | the dispatch: `BR` prefix first, then ADD/AND (opcodes 1 and 5), JMP, the `TODO()` operators, TRAP, `.STRINGZ`, `.BLKW`, each exactly for its operators |
| CodeGen.Emit | src/main/kotlin/codegen/CodeGenerator.kt:51-150 | the words one construct appends inside an area; DirectiveExpansion, UnsupportedOperators, OperandFailures and the encoders' lemmas state them and their failures per operator |
| CodeGen.NextPci | src/main/kotlin/codegen/CodeGenerator.kt:153-158 | the PC update after a construct; AdvanceMatchesOutput states it moves by the words emitted |
| CodeGen.Step | src/main/kotlin/codegen/CodeGenerator.kt:45-158 | one pass of the loop; AddressableArea and StepAdvance state what it does to the PC and the output, and OriginFailures its `.ORIG` failures |
| CodeGen.DirectiveExpansion | src/main/kotlin/codegen/CodeGenerator.kt:136-144 | `.STRINGZ` appends the text's code units and then a zero; `.BLKW n` appends n zeros and fails for negative n |
| CodeGen.OperandFailures | src/main/kotlin/codegen/CodeGenerator.kt:75-144 | TRAP, JMP, `.STRINGZ` and `.BLKW` with no operand fail as a missing operand, as the destructuring and `first()` throw; an unreadable vector, text or count fails with its accessor's failure |
| CodeGen.OriginFailures | src/main/kotlin/codegen/CodeGenerator.kt:46 | `.ORIG` with no operand fails as a missing operand, and an origin that is not a readable immediate fails with that failure |
| CodeGen.UnsupportedOperators | src/main/kotlin/codegen/CodeGenerator.kt:76-150 | the `TODO()` operators, and JMP with an operand, fail as not implemented; any operator outside the dispatch fails as unknown |
| CodeGen.AdvanceMatchesOutput | src/main/kotlin/codegen/CodeGenerator.kt:153-158 | whenever a construct's words are produced, the separately computed PC update moves the PC by exactly their number |
| CodeGen.AddressableArea | src/main/kotlin/codegen/CodeGenerator.kt:45-49 | `.ORIG x` sets the PC to x + 1, `.END` clears it, both emit nothing, and any other construct with no PC fails |
| CodeGen.StepAdvance | src/main/kotlin/codegen/CodeGenerator.kt:153-158 | inside an area, one pass of the loop moves the PC on by exactly the words it appends |
| CodeGen.AddRegisterExample | src/main/kotlin/codegen/CodeGenerator.kt:58-73 | `ADD R1, R2, R3` is 0x1283 |
| CodeGen.AddImmediateExample | src/main/kotlin/codegen/CodeGenerator.kt:58-73 | `ADD R1, R2, #-1` is 0x12BF |
| CodeGen.TrapExample | src/main/kotlin/codegen/CodeGenerator.kt:130-134 | `TRAP x25` is 0xF025 |
| CodeGen.BranchExample | src/main/kotlin/codegen/CodeGenerator.kt:51-56 | `BRZ LOOP` at 0x3002, two words after `LOOP` at 0x3000 (post-increment PC 0x3003, offset -3), is 0x05FD |
| Layout.Extend | src/main/kotlin/codegen/CodeGenerator.kt:43-161 | one iteration of the loop after the constructs before it; ExtendLayout states that it keeps the PC in step with the output |
| Layout.Run | src/main/kotlin/codegen/CodeGenerator.kt:43-161 | the loop over the whole program; RunStops, BlockLayout, AreaLayout and RunPci state its properties, and Build is proved to compute it |
| Layout.RunStops | src/main/kotlin/codegen/CodeGenerator.kt:43-161 | once a construct fails, the constructs after it change neither the output, the PC nor the failure |
| Layout.BlockLayout | src/main/kotlin/codegen/CodeGenerator.kt:153-158 | within a block free of `.ORIG`/`.END`, a run that has not failed has its PC at the starting PC plus the words emitted |
| Layout.AreaLayout | src/main/kotlin/codegen/CodeGenerator.kt:45-158 | once `.ORIG x` at index o opens an area, and until the next `.ORIG` or `.END`, a run that has not failed has its PC at x + 1 plus the words emitted since o (`start` is x + 1 less the words emitted before o) |
| Layout.ExtendLayout | src/main/kotlin/codegen/CodeGenerator.kt:153-158 | one more pass of the loop inside an area keeps the PC at the start plus the words emitted |
| Layout.OutsideArea | src/main/kotlin/codegen/CodeGenerator.kt:49 | a program whose first construct is not `.ORIG`/`.END` fails at once, with no words and no PC |
| Layout.Advance | src/main/kotlin/codegen/CodeGenerator.kt:45-158 | the PC update alone; StepPci states that it agrees with a successful pass |
| Layout.PciAfter | src/main/kotlin/codegen/CodeGenerator.kt:43-161 | the PC updates followed over a program; RunPci states that it agrees with the run |
| Layout.StepPci | src/main/kotlin/codegen/CodeGenerator.kt:45-158 | a pass that succeeds leaves the PC where the PC updates alone would |
| Layout.RunPci | src/main/kotlin/codegen/CodeGenerator.kt:45-158 | a run that does not fail leaves the PC where following the PC updates alone would |
| Layout.LinkerExampleLayout | src/test/kotlin/LinkerTest.kt:10-23 | in the test program, the PC updates place TEXT at 0x201, NUM at 0x204, A at 0x20B and B at 0x20C |
| Layout.LinkerExampleStops | src/main/kotlin/codegen/CodeGenerator.kt:102-104 | the generator itself stops on the test program's `LEA`, with no words and the PC at 0x201 |
| Generator.CodeGenerator.constructor | src/main/kotlin/codegen/CodeGenerator.kt:23-27 | a new generator holds the given instructions and symbols and starts outside any area |
| Generator.CodeGenerator.GetPCOffset | src/main/kotlin/codegen/CodeGenerator.kt:32-35 | inside an area, succeeds exactly for known labels, and the PC plus the offset is the label's address |
| Generator.CodeGenerator.Build | src/main/kotlin/codegen/CodeGenerator.kt:40-164 | returns the words of `Run` when no construct fails, and the first failure otherwise; either way `pci` ends where `Run` leaves it |
| Generator.CodeGenerator.Generate | src/main/kotlin/codegen/CodeGenerator.kt:45-159 | one pass of the loop body does what `Step` says: on success the words and the new `pci`, on failure the error with `pci` unchanged |
| Generator.CodeGenerator.EmitWords | src/main/kotlin/codegen/CodeGenerator.kt:51-150 | the words the loop body appends inside an area are exactly those of `Emit`, failures included |
| Generator.CodeGenerator.BranchWords | src/main/kotlin/codegen/CodeGenerator.kt:51-56 | the branch path, through `GetPCOffset` and `toComplement(9)`, gives exactly `Emit`'s word or failure |
| Generator.AppendUnits | src/main/kotlin/codegen/CodeGenerator.kt:137-140 | the unit-by-unit loop leaves the old output in front, followed by exactly the units |
| Generator.Stop | src/main/kotlin/codegen/CodeGenerator.kt:43-161 | a failing construct ends the whole run with that failure, keeping the words and PC from before it |

## Source behaviour the model keeps

- `.BLKW` with a negative count fails. `List(n) { 0u }` rejects a negative size before
  the PC update's `coerceAtLeast(0)` is reached, so the count is never clamped.
- `.FILL` fails as not implemented, because its branch is `TODO()`.
- `.STRINGZ` emits UTF-16 code units, not code points. A character outside the Basic
  Multilingual Plane becomes a surrogate pair. The PC advance counts units, as
  `String.length` does.
- `ADD R1, R2, R3` encodes to 0x1283 (`0001 001 010 000 011`) and `ADD R1, R2, #-1`
  to 0x12BF (`0001 001 010 1 11111`).
- Condition letters are matched case-sensitively. Only upper-case `N`, `Z` and `P` set
  a bit.
- Any operator that starts with `BR` is a branch. The letters after `BR` are its
  condition, letters other than `N`, `Z` and `P` are ignored, and no letters at all
  mean `NZP`.

## Left out

- The tokenizer, the parser and the linker are not part of this model.
  - The generator receives `RawInstruction` values and a symbol table `map<string, int>`.
  - `Linker.getLabel` is taken to fail with `UndefinedLabel` for a name it does not
    know.
  - `LinkerExampleLayout` shows the test's addresses follow from the generator's PC
    updates. It does not run the linker's own code.
- Exceptions are `Error` values. Their messages and exception classes are not modelled.
- `pci` and all arithmetic are unbounded integers.
  - Kotlin's `Int` would wrap past 2^31-1.
  - That can only happen with origins or `.BLKW` counts far outside the 16-bit address
    space.
- `toInt(radix)` is modelled for ASCII digits and letters only. Kotlin's
  `Character.digit` also accepts other Unicode decimal digits and the fullwidth Latin
  letters U+FF21-FF3A and U+FF41-FF5A as digits 10-35.
- Texts are sequences of Unicode scalar values, not of UTF-16 units.
  - `drop(1)` and `dropLast(1)` on a text that begins or ends with a surrogate pair
    would split the pair in Kotlin. The model removes the whole character.
  - `.STRINGZ` output and its PC advance are still counted in UTF-16 units.
- CodeGen.ToComplement: the width is limited to 1..31 bits. The source calls it with 9
  and 5 only.
- Tokens.AsRegisterId: the contract pins down only the type check and the one-digit
  register names. Other contents follow `toInt` as given by `Numbers.ParseInt`, and
  `NumberRoundTrip` states the general round trip.
- Tokens.AsStringContent: the contract states only the type check and a length bound.
  - The decoded text is characterised only for decoded texts without a backslash, by
    `StringContentWithoutEscapes` and `StringLiteralRoundTrip`.
  - The interaction of overlapping escapes such as `\\n` is not characterised.
- The JMP, JSR, JSRR, LD, LDI, LDR, LEA, NOT, RET, RTI, ST, STI and STR encodings
  are not modelled, because the source has none: their branches are `TODO()` and fail
  as not implemented.
- The desktop interface, file I/O and the Gradle build are outside the generator.
