/** The per-construct encodings of the code-generation stage: the LC-3 word layouts
    of BR, ADD, AND and TRAP, the `.STRINGZ` and `.BLKW` expansions, and the
    post-increment PC (`pci`) advance that follows each construct. */
module CodeGen {
  import opened Outcomes
  import opened Numbers
  import opened Tokens

  /** A 16-bit machine word (Kotlin `UShort`). */
  type Word = w: int | 0 <= w < 0x1_0000

  /** Label name to address, as the linker resolved it. */
  type SymbolTable = map<string, int>

  /** One source line after parsing; `labelName` is read only by the linker. */
  datatype RawInstruction = RawInstruction(operator: string, operands: seq<Token>, labelName: Option<string>)

  /** The field widths the encodings use. */
  lemma FieldWidths()
    ensures Pow2(4) == 16 && Pow2(5) == 32 && Pow2(6) == 64 && Pow2(8) == 256
    ensures Pow2(9) == 512 && Pow2(12) == 4096 && Pow2(16) == 0x1_0000
  {
    assert Pow2(4) == 16;
    assert Pow2(8) == 256;
    assert Pow2(12) == 4096;
  }

  /** Packs a signed value into a `bits`-wide two's-complement field, or fails
      when the value does not fit. */
  function ToComplement(v: int, bits: nat): (r: Result<nat>)
    requires 1 <= bits <= 31
    ensures r.Ok? <==> -Pow2(bits - 1) <= v <= Pow2(bits - 1) - 1
    ensures r.Err? ==> r.error == OutOfRange(v, bits)
    ensures r.Ok? ==> r.value < Pow2(bits)
    ensures r.Ok? ==> r.value == if v >= 0 then v else v + Pow2(bits)
  {
    var half := Pow2(bits - 1);
    if v > half - 1 || v < -half then Err(OutOfRange(v, bits))
    else
      ModNearZero(v, Pow2(bits));
      Ok(v % Pow2(bits))
  }

  /** Reads a `bits`-wide two's-complement field back as a signed value. */
  function FromComplement(field: nat, bits: nat): int
    requires 1 <= bits
  {
    if field >= Pow2(bits - 1) then field - Pow2(bits) else field
  }

  /** Packing then reading a field gives back every value that fits. */
  lemma ComplementRoundTrip(v: int, bits: nat)
    requires 1 <= bits <= 31
    requires -Pow2(bits - 1) <= v <= Pow2(bits - 1) - 1
    ensures ToComplement(v, bits).Ok? && FromComplement(ToComplement(v, bits).value, bits) == v
  {
    assert Pow2(bits) == 2 * Pow2(bits - 1);
  }

  /** Every field pattern is the packing of exactly the value it reads as. */
  lemma ComplementFieldRoundTrip(field: nat, bits: nat)
    requires 1 <= bits <= 31
    requires field < Pow2(bits)
    ensures ToComplement(FromComplement(field, bits), bits).Ok? && ToComplement(FromComplement(field, bits), bits).value == field
  {
    assert Pow2(bits) == 2 * Pow2(bits - 1);
  }

  /** The offset from the post-increment PC to a label's address. */
  function PCOffset(symbols: SymbolTable, pci: int, target: string): (r: Result<int>)
    ensures r.Ok? <==> target in symbols
    ensures r.Ok? ==> pci + r.value == symbols[target]
    ensures r.Err? ==> r.error == UndefinedLabel(target)
  {
    if target in symbols then Ok(symbols[target] - pci) else Err(UndefinedLabel(target))
  }

  /** `startsWith("BR")`. */
  predicate IsBranch(op: string) {
    |op| >= 2 && op[0] == 'B' && op[1] == 'R'
  }

  /** The `nzp` bits of a branch: one bit per letter present, all three when no letter is given. */
  function ConditionCodes(suffix: string): (cc: nat)
    ensures cc < 8
    ensures suffix == [] ==> cc == 7
    ensures suffix != [] ==> (cc / 4 == 1 <==> 'N' in suffix)
    ensures suffix != [] ==> (cc / 2 % 2 == 1 <==> 'Z' in suffix)
    ensures suffix != [] ==> (cc % 2 == 1 <==> 'P' in suffix)
  {
    var cond := if suffix == [] then "NZP" else suffix;
    (if 'N' in cond then 4 else 0) + (if 'Z' in cond then 2 else 0) + (if 'P' in cond then 1 else 0)
  }

  /** `BR[n][z][p] LABEL`: opcode 0000, the condition codes, a 9-bit PC-relative offset. */
  function EncodeBranch(ins: RawInstruction, symbols: SymbolTable, pci: int): Result<Word>
    requires IsBranch(ins.operator)
  {
    if |ins.operands| < 1 then Err(MissingOperand(ins.operator))
    else
      var cc := ConditionCodes(ins.operator[2..]);
      var offset :- PCOffset(symbols, pci, AsLabel(ins.operands[0]));
      var field :- ToComplement(offset, 9);
      FieldWidths();
      Ok(Or16(cc * 512, field))
  }

  /** `ADD`/`AND DR, SR1, SR2|imm5`: the opcode, DR, SR1, then either bit 5 and a 5-bit
      immediate or SR2, combined with `or` and truncated to 16 bits. */
  function EncodeArith(ins: RawInstruction, opcode: nat): Result<Word>
  {
    if |ins.operands| < 3 then Err(MissingOperand(ins.operator))
    else
      var dr :- AsRegisterId(ins.operands[0]);
      var sr1 :- AsRegisterId(ins.operands[1]);
      var out := Or16(Or16(opcode * 4096, dr * 512), sr1 * 64);
      OrSecondOperand(out, ins.operands[2])
  }

  /** The last ADD/AND operand: an immediate sets bit 5 and its five-bit field,
      anything else is read as the source register SR2. */
  function OrSecondOperand(out: int, op2: Token): Result<Word>
  {
    FieldWidths();
    if op2.kind == Immediate then
      var imm :- AsImmediate(op2);
      var field :- ToComplement(imm, 5);
      Ok(Or16(Or16(out, 32), field))
    else
      var sr2 :- AsRegisterId(op2);
      Ok(Or16(out, sr2))
  }

  /** `TRAP vector`: opcode 1111 and the vector's low byte, with no range check. */
  function EncodeTrap(ins: RawInstruction): Result<Word>
  {
    if |ins.operands| < 1 then Err(MissingOperand(ins.operator))
    else
      var vec :- AsImmediate(ins.operands[0]);
      FieldWidths();
      Ok(Or16(15 * 4096, vec % 256))
  }

  /** The UTF-16 code units of one character, as Kotlin stores it. */
  function CodeUnits(c: char): (units: seq<Word>)
    ensures 1 <= |units| <= 2
    ensures c as int < 0x1_0000 <==> units == [c as int]
  {
    var v := c as int;
    if v < 0x1_0000 then [v]
    else
      var u := v - 0x1_0000;
      [0xD800 + u / 0x400, 0xDC00 + u % 0x400]
  }

  /** The UTF-16 code units of a text, in order; `length` of a Kotlin string counts these. */
  function Utf16(s: string): (units: seq<Word>)
    ensures |units| >= |s|
  {
    if s == [] then [] else CodeUnits(s[0]) + Utf16(s[1..])
  }

  /** The opcodes whose branch in the source is `TODO()`. */
  const Unimplemented: set<string> :=
    {"JSR", "JSRR", "LD", "LDI", "LDR", "LEA", "NOT", "RET", "RTI", "ST", "STI", "STR", ".FILL"}

  /** Which branch of the generator's dispatch an operator takes, checked in the source's order. */
  datatype Construct = Branch | Arith(opcode: nat) | Jump | Todo | Trap | StringZ | BlockWords | Unknown

  function Classify(op: string): Construct
  {
    if IsBranch(op) then Branch
    else if op == "ADD" then Arith(1)
    else if op == "AND" then Arith(5)
    else if op == "JMP" then Jump
    else if op in Unimplemented then Todo
    else if op == "TRAP" then Trap
    else if op == ".STRINGZ" then StringZ
    else if op == ".BLKW" then BlockWords
    else Unknown
  }

  /** Each branch of the dispatch is taken by exactly its operators. */
  lemma ClassifyDispatch(op: string)
    ensures var c := Classify(op);
            && (c == Branch <==> IsBranch(op))
            && (c.Arith? <==> op == "ADD" || op == "AND")
            && (c.Arith? ==> c.opcode == if op == "AND" then 5 else 1)
            && (c == Jump <==> op == "JMP")
            && (c == Todo <==> op in Unimplemented)
            && (c == Trap <==> op == "TRAP")
            && (c == StringZ <==> op == ".STRINGZ")
            && (c == BlockWords <==> op == ".BLKW")
  {
  }

  /** The words one construct other than `.ORIG`/`.END` appends to the output,
      given the post-increment PC at that construct. */
  function Emit(ins: RawInstruction, symbols: SymbolTable, pci: int): Result<seq<Word>>
  {
    var op := ins.operator;
    match Classify(op)
    case Branch =>
      var w :- EncodeBranch(ins, symbols, pci);
      Ok([w])
    case Arith(opcode) =>
      var w :- EncodeArith(ins, opcode);
      Ok([w])
    case Jump =>
      if |ins.operands| < 1 then Err(MissingOperand(op)) else Err(NotImplemented(op))
    case Todo => Err(NotImplemented(op))
    case Trap =>
      var w :- EncodeTrap(ins);
      Ok([w])
    case StringZ =>
      if |ins.operands| < 1 then Err(MissingOperand(op))
      else
        var text :- AsStringContent(ins.operands[0]);
        Ok(Utf16(text) + [0])
    case BlockWords =>
      if |ins.operands| < 1 then Err(MissingOperand(op))
      else
        var n :- AsNumber(ins.operands[0]);
        if n < 0 then Err(NegativeSize(n)) else Ok(seq(n, _ => 0))
    case Unknown => Err(UnknownOperator(op))
  }

  /** The post-increment PC after a construct other than `.ORIG`/`.END`, computed as
      the source does, apart from the words emitted. */
  function NextPci(ins: RawInstruction, pci: int): Result<int>
  {
    var op := ins.operator;
    if op == ".STRINGZ" then
      if |ins.operands| < 1 then Err(MissingOperand(op))
      else
        var text :- AsStringContent(ins.operands[0]);
        Ok(pci + |Utf16(text)| + 1)
    else if op == ".BLKW" then
      if |ins.operands| < 1 then Err(MissingOperand(op))
      else
        var n :- AsNumber(ins.operands[0]);
        Ok(pci + if n < 0 then 0 else n)
    else Ok(pci + 1)
  }

  /** One iteration of the generator's loop: the words appended and the new `pci`. */
  function Step(ins: RawInstruction, symbols: SymbolTable, pci: Option<int>): Result<(seq<Word>, Option<int>)>
  {
    var op := ins.operator;
    if op == ".ORIG" then
      if |ins.operands| < 1 then Err(MissingOperand(op))
      else
        var origin :- AsImmediate(ins.operands[0]);
        Ok(([], Some(origin + 1)))
    else if op == ".END" then Ok(([], None))
    else if pci.None? then Err(OutsideAddressableArea)
    else
      var words :- Emit(ins, symbols, pci.value);
      var next :- NextPci(ins, pci.value);
      Ok((words, Some(next)))
  }

  /** The fields of a branch word, read back. */
  datatype BranchFields = BranchFields(opcode: int, cc: int, offset: int)

  function DecodeBranch(w: Word): BranchFields {
    BranchFields(w / 4096, w / 512 % 8, FromComplement(w % 512, 9))
  }

  lemma BranchWordFields(cc: int, field: nat)
    requires 0 <= cc < 8 && field < 512
    ensures DecodeBranch(cc * 512 + field) == BranchFields(0, cc, FromComplement(field, 9))
  {
    DivModSplit(0, cc * 512 + field, 4096);
    DivModSplit(cc, field, 512);
    DivModSplit(0, cc, 8);
  }

  /** A branch without its label operand fails before anything else is read. */
  lemma BranchFailures(ins: RawInstruction, symbols: SymbolTable, pci: int)
    requires IsBranch(ins.operator)
    ensures |ins.operands| == 0 ==>
              var r := EncodeBranch(ins, symbols, pci);
              r.Err? && r.error == MissingOperand(ins.operator)
  {
  }

  /** A branch to a known label within reach encodes opcode 0000, its condition codes and
      the label's distance from the post-increment PC; an unknown label or a distance that
      does not fit nine bits fails. */
  lemma BranchEncoding(ins: RawInstruction, symbols: SymbolTable, pci: int)
    requires IsBranch(ins.operator) && |ins.operands| >= 1
    ensures AsLabel(ins.operands[0]) !in symbols ==>
              var r := EncodeBranch(ins, symbols, pci);
              r.Err? && r.error == UndefinedLabel(AsLabel(ins.operands[0]))
    ensures AsLabel(ins.operands[0]) in symbols ==>
              var offset := symbols[AsLabel(ins.operands[0])] - pci;
              var r := EncodeBranch(ins, symbols, pci);
              && (r.Ok? <==> -256 <= offset <= 255)
              && (r.Err? ==> r.error == OutOfRange(offset, 9))
              && (r.Ok? ==> DecodeBranch(r.value) == BranchFields(0, ConditionCodes(ins.operator[2..]), offset))
  {
    var target := AsLabel(ins.operands[0]);
    if target in symbols {
      var offset := symbols[target] - pci;
      if -256 <= offset <= 255 {
        var cc := ConditionCodes(ins.operator[2..]);
        var field := BranchWord(ins, symbols, pci, offset);
        var r := EncodeBranch(ins, symbols, pci);
        assert r.Ok? && r.value == cc * 512 + field;
        BranchWordFields(cc, field);
        assert FromComplement(field, 9) == offset by {
          ComplementRoundTrip(offset, 9);
        }
        assert DecodeBranch(r.value) == BranchFields(0, cc, offset);
      } else {
        assert ToComplement(offset, 9).Err? && ToComplement(offset, 9).error == OutOfRange(offset, 9) by {
          FieldWidths();
        }
      }
    }
  }

  /** A branch whose distance fits nine bits is the condition codes above the offset field. */
  lemma BranchWord(ins: RawInstruction, symbols: SymbolTable, pci: int, offset: int) returns (field: nat)
    requires IsBranch(ins.operator) && |ins.operands| >= 1
    requires AsLabel(ins.operands[0]) in symbols
    requires offset == symbols[AsLabel(ins.operands[0])] - pci && -256 <= offset <= 255
    ensures ToComplement(offset, 9).Ok? && ToComplement(offset, 9).value == field && field < 512
    ensures var r := EncodeBranch(ins, symbols, pci);
            r.Ok? && r.value == ConditionCodes(ins.operator[2..]) * 512 + field
  {
    assert ToComplement(offset, 9).Ok? && ToComplement(offset, 9).value < 512 by {
      FieldWidths();
    }
    field := ToComplement(offset, 9).value;
    var cc := ConditionCodes(ins.operator[2..]);
    var distance := PCOffset(symbols, pci, AsLabel(ins.operands[0]));
    assert distance.Ok? && distance.value == offset;
    var r := EncodeBranch(ins, symbols, pci);
    assert r.Ok? && r.value == Or16(cc * 512, field);
    assert Or16(cc * 512, field) == cc * 512 + field by {
      FieldWidths();
      Or16Disjoint(cc, 512, field, 9);
    }
  }

  /** The fields of an ADD or AND word, read back; `operand` is the immediate or SR2. */
  datatype ArithFields = ArithFields(opcode: int, dr: int, sr1: int, immediateMode: bool, operand: int)

  function DecodeArith(w: Word): ArithFields {
    var immediateMode := w / 32 % 2 == 1;
    ArithFields(w / 4096, w / 512 % 8, w / 64 % 8, immediateMode,
                if immediateMode then FromComplement(w % 32, 5) else w % 8)
  }

  lemma ArithWordFields(w: int, opcode: nat, dr: nat, sr1: nat, low: nat)
    requires opcode < 16 && dr < 8 && sr1 < 8 && low < 64
    requires w == opcode * 4096 + dr * 512 + sr1 * 64 + low
    ensures w / 4096 == opcode && w / 512 % 8 == dr && w / 64 % 8 == sr1
    ensures w / 32 % 2 == low / 32 && w % 32 == low % 32 && w % 8 == low % 8
  {
    DivModSplit(opcode, dr * 512 + sr1 * 64 + low, 4096);
    DivModSplit(opcode * 8 + dr, sr1 * 64 + low, 512);
    DivModSplit(opcode, dr, 8);
    DivModSplit(opcode * 64 + dr * 8 + sr1, low, 64);
    DivModSplit(opcode * 8 + dr, sr1, 8);
    var y := opcode * 64 + dr * 8 + sr1;
    DivModSplit(low / 32, low % 32, 32);
    assert w == (y * 2 + low / 32) * 32 + low % 32;
    DivModSplit(y * 2 + low / 32, low % 32, 32);
    DivModSplit(y, low / 32, 2);
    DivModSplit(low / 8, low % 8, 8);
    assert w == (y * 8 + low / 8) * 8 + low % 8;
    DivModSplit(y * 8 + low / 8, low % 8, 8);
  }

  lemma DecodeArithImmediate(w: Word, opcode: nat, dr: nat, sr1: nat, field: nat)
    requires opcode < 16 && dr < 8 && sr1 < 8 && field < 32
    requires w == opcode * 4096 + dr * 512 + sr1 * 64 + 32 + field
    ensures DecodeArith(w) == ArithFields(opcode, dr, sr1, true, FromComplement(field, 5))
  {
    ArithWordFields(w, opcode, dr, sr1, 32 + field);
  }

  lemma DecodeArithRegister(w: Word, opcode: nat, dr: nat, sr1: nat, sr2: nat)
    requires opcode < 16 && dr < 8 && sr1 < 8 && sr2 < 8
    requires w == opcode * 4096 + dr * 512 + sr1 * 64 + sr2
    ensures DecodeArith(w) == ArithFields(opcode, dr, sr1, false, sr2) && w / 8 % 4 == 0
  {
    ArithWordFields(w, opcode, dr, sr1, sr2);
    var y := opcode * 64 + dr * 8 + sr1;
    DivModSplit(y * 8, sr2, 8);
    DivModSplit(y * 2, 0, 4);
  }

  /** ADD/AND fails, in the source's order, on fewer than three operands, then on a DR,
      then an SR1 that is not a register, then on a last operand that is neither a
      readable immediate nor a register; the failure is the one of the operand read. */
  lemma ArithFailures(ins: RawInstruction, opcode: nat)
    ensures |ins.operands| < 3 ==>
              var r := EncodeArith(ins, opcode); r.Err? && r.error == MissingOperand(ins.operator)
    ensures |ins.operands| >= 3 && AsRegisterId(ins.operands[0]).Err? ==>
              var r := EncodeArith(ins, opcode); r.Err? && r.error == AsRegisterId(ins.operands[0]).error
    ensures |ins.operands| >= 3 && AsRegisterId(ins.operands[0]).Ok? && AsRegisterId(ins.operands[1]).Err? ==>
              var r := EncodeArith(ins, opcode); r.Err? && r.error == AsRegisterId(ins.operands[1]).error
    ensures |ins.operands| >= 3 && AsRegisterId(ins.operands[0]).Ok? && AsRegisterId(ins.operands[1]).Ok?
              && ins.operands[2].kind == Immediate && AsImmediate(ins.operands[2]).Err? ==>
              var r := EncodeArith(ins, opcode); r.Err? && r.error == AsImmediate(ins.operands[2]).error
    ensures |ins.operands| >= 3 && AsRegisterId(ins.operands[0]).Ok? && AsRegisterId(ins.operands[1]).Ok?
              && ins.operands[2].kind != Immediate && AsRegisterId(ins.operands[2]).Err? ==>
              var r := EncodeArith(ins, opcode); r.Err? && r.error == AsRegisterId(ins.operands[2]).error
  {
  }

  /** With register numbers 0..7 and an immediate third operand, an ADD/AND word holds the
      opcode, DR, SR1, bit 5 set and the 5-bit immediate; an immediate outside -16..15 fails. */
  lemma ArithImmediateEncoding(ins: RawInstruction, opcode: nat, dr: int, sr1: int, imm: int)
    requires opcode < 16 && |ins.operands| >= 3
    requires AsRegisterId(ins.operands[0]).Ok? && AsRegisterId(ins.operands[0]).value == dr && 0 <= dr < 8
    requires AsRegisterId(ins.operands[1]).Ok? && AsRegisterId(ins.operands[1]).value == sr1 && 0 <= sr1 < 8
    requires ins.operands[2].kind == Immediate && AsImmediate(ins.operands[2]).Ok? && AsImmediate(ins.operands[2]).value == imm
    ensures var r := EncodeArith(ins, opcode);
            && (r.Ok? <==> -16 <= imm <= 15)
            && (r.Err? ==> r.error == OutOfRange(imm, 5))
            && (r.Ok? ==> DecodeArith(r.value) == ArithFields(opcode, dr, sr1, true, imm))
  {
    var base := opcode * 64 + dr * 8 + sr1;
    ArithOperands(ins, opcode, dr, sr1);
    var r := OrSecondOperand(base * 64, ins.operands[2]);
    if -16 <= imm <= 15 {
      var field := ImmediateOperand(base, ins.operands[2], imm);
      assert FromComplement(field, 5) == imm by {
        ComplementRoundTrip(imm, 5);
      }
      DecodeArithImmediate(r.value, opcode, dr, sr1, field);
    } else {
      assert ToComplement(imm, 5).Err? && ToComplement(imm, 5).error == OutOfRange(imm, 5) by {
        FieldWidths();
      }
    }
  }

  /** An immediate that fits five bits lands below DR, SR1 and the mode bit. */
  lemma ArithImmediateWord(ins: RawInstruction, opcode: nat, dr: int, sr1: int, imm: int) returns (field: nat)
    requires opcode < 16 && |ins.operands| >= 3
    requires AsRegisterId(ins.operands[0]).Ok? && AsRegisterId(ins.operands[0]).value == dr && 0 <= dr < 8
    requires AsRegisterId(ins.operands[1]).Ok? && AsRegisterId(ins.operands[1]).value == sr1 && 0 <= sr1 < 8
    requires ins.operands[2].kind == Immediate && AsImmediate(ins.operands[2]).Ok? && AsImmediate(ins.operands[2]).value == imm
    requires -16 <= imm <= 15
    ensures ToComplement(imm, 5).Ok? && ToComplement(imm, 5).value == field && field < 32
    ensures var r := EncodeArith(ins, opcode);
            r.Ok? && r.value == (opcode * 64 + dr * 8 + sr1) * 64 + 32 + field
  {
    ArithOperands(ins, opcode, dr, sr1);
    field := ImmediateOperand(opcode * 64 + dr * 8 + sr1, ins.operands[2], imm);
  }

  /** In register mode the word is the head followed by SR2 in the low three bits. */
  lemma ArithRegisterWord(ins: RawInstruction, opcode: nat, dr: int, sr1: int, sr2: int)
    requires opcode < 16 && |ins.operands| >= 3
    requires AsRegisterId(ins.operands[0]).Ok? && AsRegisterId(ins.operands[0]).value == dr && 0 <= dr < 8
    requires AsRegisterId(ins.operands[1]).Ok? && AsRegisterId(ins.operands[1]).value == sr1 && 0 <= sr1 < 8
    requires ins.operands[2].kind != Immediate && AsRegisterId(ins.operands[2]).Ok? && AsRegisterId(ins.operands[2]).value == sr2 && 0 <= sr2 < 8
    ensures var r := EncodeArith(ins, opcode);
            r.Ok? && r.value == (opcode * 64 + dr * 8 + sr1) * 64 + sr2
  {
    ArithOperands(ins, opcode, dr, sr1);
    RegisterOperand(opcode * 64 + dr * 8 + sr1, ins.operands[2], sr2);
  }

  /** Once DR and SR1 are read, EncodeArith is the `or` of the head with the last operand. */
  lemma ArithOperands(ins: RawInstruction, opcode: nat, dr: int, sr1: int)
    requires |ins.operands| >= 3
    requires AsRegisterId(ins.operands[0]).Ok? && AsRegisterId(ins.operands[0]).value == dr
    requires AsRegisterId(ins.operands[1]).Ok? && AsRegisterId(ins.operands[1]).value == sr1
    requires opcode < 16 && 0 <= dr < 8 && 0 <= sr1 < 8
    ensures var r, o := EncodeArith(ins, opcode), OrSecondOperand((opcode * 64 + dr * 8 + sr1) * 64, ins.operands[2]);
            && (r.Ok? <==> o.Ok?)
            && (r.Ok? ==> r.value == o.value)
            && (r.Err? ==> r.error == o.error)
  {
    var head := Or16(Or16(opcode * 4096, dr * 512), sr1 * 64);
    assert head == (opcode * 64 + dr * 8 + sr1) * 64 by {
      ArithHead(opcode, dr, sr1);
    }
    var r, o := EncodeArith(ins, opcode), OrSecondOperand(head, ins.operands[2]);
    assert (r.Ok? <==> o.Ok?) && (r.Ok? ==> r.value == o.value) && (r.Err? ==> r.error == o.error);
  }

  /** An immediate in -16..15 below a head whose low six bits are clear adds bit 5 and
      its five-bit field. */
  lemma ImmediateOperand(base: nat, op2: Token, imm: int) returns (field: nat)
    requires base < 1024
    requires op2.kind == Immediate && AsImmediate(op2).Ok? && AsImmediate(op2).value == imm && -16 <= imm <= 15
    ensures ToComplement(imm, 5).Ok? && ToComplement(imm, 5).value == field && field < 32
    ensures var r := OrSecondOperand(base * 64, op2); r.Ok? && r.value == base * 64 + 32 + field
  {
    field := ImmediateField(imm);
    ImmediateMode(base * 64, op2, imm, field);
    ImmediateTail(base, field);
  }

  /** In immediate mode the head is `or`ed with bit 5 and then with the field. */
  lemma ImmediateMode(out: int, op2: Token, imm: int, field: nat)
    requires op2.kind == Immediate && AsImmediate(op2).Ok? && AsImmediate(op2).value == imm && ToComplement(imm, 5).Ok? && ToComplement(imm, 5).value == field
    ensures var r := OrSecondOperand(out, op2); r.Ok? && r.value == Or16(Or16(out, 32), field)
  {
  }

  /** In register mode the head is `or`ed with SR2. */
  lemma RegisterMode(out: int, op2: Token, sr2: int)
    requires op2.kind != Immediate && AsRegisterId(op2).Ok? && AsRegisterId(op2).value == sr2
    ensures var r := OrSecondOperand(out, op2); r.Ok? && r.value == Or16(out, sr2)
  {
  }

  /** A value in -16..15 fits the five-bit field of ADD/AND. */
  lemma ImmediateField(imm: int) returns (field: nat)
    requires -16 <= imm <= 15
    ensures ToComplement(imm, 5).Ok? && ToComplement(imm, 5).value == field && field < 32
  {
    FieldWidths();
    field := ToComplement(imm, 5).value;
  }

  /** Setting bit 5 and then the low five bits of a word whose low six bits are clear adds them. */
  lemma ImmediateTail(base: nat, field: nat)
    requires base < 1024 && field < 32
    ensures Or16(Or16(base * 64, 32), field) == base * 64 + 32 + field
  {
    ModeBit(base);
    var m := base * 2 + 1;
    LowField(m, field);
    assert m * 32 == base * 64 + 32;
  }

  /** Bit 5 of a word whose low six bits are clear is set by adding 32. */
  lemma ModeBit(base: nat)
    requires base < 1024
    ensures Or16(base * 64, 32) == (base * 2 + 1) * 32
  {
    FieldWidths();
    Or16Disjoint(base, 64, 32, 6);
  }

  /** A five-bit field `or`ed into a word whose low five bits are clear is added to it. */
  lemma LowField(m: nat, field: nat)
    requires m < 2048 && field < 32
    ensures Or16(m * 32, field) == m * 32 + field
  {
    FieldWidths();
    Or16Disjoint(m, 32, field, 5);
  }

  /** With register numbers 0..7 in all three operands, an ADD/AND word holds the opcode,
      DR, SR1, bits 5-3 clear and SR2. */
  lemma ArithRegisterEncoding(ins: RawInstruction, opcode: nat, dr: int, sr1: int, sr2: int)
    requires opcode < 16 && |ins.operands| >= 3
    requires AsRegisterId(ins.operands[0]).Ok? && AsRegisterId(ins.operands[0]).value == dr && 0 <= dr < 8
    requires AsRegisterId(ins.operands[1]).Ok? && AsRegisterId(ins.operands[1]).value == sr1 && 0 <= sr1 < 8
    requires ins.operands[2].kind != Immediate && AsRegisterId(ins.operands[2]).Ok? && AsRegisterId(ins.operands[2]).value == sr2 && 0 <= sr2 < 8
    ensures var r := EncodeArith(ins, opcode);
            r.Ok? && r.value / 8 % 4 == 0 && DecodeArith(r.value) == ArithFields(opcode, dr, sr1, false, sr2)
  {
    var base := opcode * 64 + dr * 8 + sr1;
    ArithOperands(ins, opcode, dr, sr1);
    var r := OrSecondOperand(base * 64, ins.operands[2]);
    RegisterOperand(base, ins.operands[2], sr2);
    DecodeArithRegister(r.value, opcode, dr, sr1, sr2);
  }

  /** A register number 0..7 below a head whose low six bits are clear is added to it. */
  lemma RegisterOperand(base: nat, op2: Token, sr2: int)
    requires base < 1024
    requires op2.kind != Immediate && AsRegisterId(op2).Ok? && AsRegisterId(op2).value == sr2 && 0 <= sr2 < 8
    ensures var r := OrSecondOperand(base * 64, op2); r.Ok? && r.value == base * 64 + sr2
  {
    RegisterMode(base * 64, op2, sr2);
    assert Or16(base * 64, sr2) == base * 64 + sr2 by {
      FieldWidths();
      Or16Disjoint(base, 64, sr2, 6);
    }
  }

  /** The opcode, DR and SR1 part of an ADD/AND word is the sum of the three fields. */
  lemma ArithHead(opcode: nat, dr: int, sr1: int)
    requires opcode < 16 && 0 <= dr < 8 && 0 <= sr1 < 8
    ensures Or16(Or16(opcode * 4096, dr * 512), sr1 * 64) == (opcode * 64 + dr * 8 + sr1) * 64
  {
    var x := opcode * 8 + dr;
    assert Or16(opcode * 4096, dr * 512) == x * 512 by {
      FieldWidths();
      Or16Disjoint(opcode, 4096, dr * 512, 12);
    }
    assert Or16(x * 512, sr1 * 64) == (x * 8 + sr1) * 64 by {
      FieldWidths();
      Or16Disjoint(x, 512, sr1 * 64, 9);
    }
  }

  /** A TRAP word is 0xF000 plus the vector's low byte. */
  lemma TrapEncoding(ins: RawInstruction)
    requires |ins.operands| >= 1
    ensures var r := EncodeTrap(ins);
            var vec := AsImmediate(ins.operands[0]);
            && (r.Ok? <==> vec.Ok?)
            && (r.Ok? ==> r.value == 0xF000 + vec.value % 256)
  {
    FieldWidths();
    var vec := AsImmediate(ins.operands[0]);
    if vec.Ok? {
      Or16Disjoint(240, 256, vec.value % 256, 8);
    }
  }

  /** Characters of the Basic Multilingual Plane are one code unit each: their own code. */
  lemma {:induction false} Utf16Bmp(s: string)
    requires forall i :: 0 <= i < |s| ==> s[i] as int < 0x1_0000
    ensures |Utf16(s)| == |s|
    ensures forall i :: 0 <= i < |s| ==> Utf16(s)[i] == s[i] as int
  {
    if s != [] {
      Utf16Bmp(s[1..]);
      assert Utf16(s) == [s[0] as int] + Utf16(s[1..]);
    }
  }

  /** `.STRINGZ` appends the code units of the decoded text and one zero word;
      `.BLKW n` appends exactly n zero words, and fails for a negative n. */
  lemma DirectiveExpansion(ins: RawInstruction, symbols: SymbolTable, pci: int)
    requires |ins.operands| >= 1
    ensures ins.operator == ".STRINGZ" && AsStringContent(ins.operands[0]).Ok? ==>
              var w := Emit(ins, symbols, pci);
              var text := AsStringContent(ins.operands[0]).value;
              w.Ok? && |w.value| == |Utf16(text)| + 1 &&
              w.value[..|Utf16(text)|] == Utf16(text) && w.value[|Utf16(text)|] == 0
    ensures ins.operator == ".BLKW" && AsNumber(ins.operands[0]).Ok? ==>
              var w := Emit(ins, symbols, pci);
              var n := AsNumber(ins.operands[0]).value;
              && (w.Ok? <==> n >= 0)
              && (w.Err? ==> w.error == NegativeSize(n))
              && (w.Ok? ==> |w.value| == n && forall i :: 0 <= i < n ==> w.value[i] == 0)
  {
    if ins.operator == ".STRINGZ" {
      assert Classify(ins.operator) == StringZ;
    } else if ins.operator == ".BLKW" {
      assert Classify(ins.operator) == BlockWords;
    }
  }

  /** Operators with no implementation fail as such; anything unrecognised is unknown. */
  lemma UnsupportedOperators(ins: RawInstruction, symbols: SymbolTable, pci: int)
    ensures ins.operator in Unimplemented ==> Emit(ins, symbols, pci).Err? && Emit(ins, symbols, pci).error == NotImplemented(ins.operator)
    ensures ins.operator == "JMP" && |ins.operands| >= 1 ==>
              Emit(ins, symbols, pci).Err? && Emit(ins, symbols, pci).error == NotImplemented(ins.operator)
    ensures !IsBranch(ins.operator) && ins.operator !in Unimplemented &&
            ins.operator !in {"ADD", "AND", "JMP", "TRAP", ".STRINGZ", ".BLKW"} ==>
              Emit(ins, symbols, pci).Err? && Emit(ins, symbols, pci).error == UnknownOperator(ins.operator)
  {
    var c := Classify(ins.operator);
    assert ins.operator in Unimplemented ==> c == Todo;
  }

  /** TRAP, JMP, `.STRINGZ` and `.BLKW` without an operand fail as a missing operand,
      since the source destructures the operand list first; an operand its accessor
      cannot read fails with that accessor's failure. */
  lemma OperandFailures(ins: RawInstruction, symbols: SymbolTable, pci: int)
    ensures |ins.operands| == 0 ==> EncodeTrap(ins).Err? && EncodeTrap(ins).error == MissingOperand(ins.operator)
    ensures |ins.operands| >= 1 && AsImmediate(ins.operands[0]).Err? ==>
              EncodeTrap(ins).Err? && EncodeTrap(ins).error == AsImmediate(ins.operands[0]).error
    ensures ins.operator in {"TRAP", "JMP", ".STRINGZ", ".BLKW"} && |ins.operands| == 0 ==>
              var r := Emit(ins, symbols, pci); r.Err? && r.error == MissingOperand(ins.operator)
    ensures ins.operator == "TRAP" && |ins.operands| >= 1 && AsImmediate(ins.operands[0]).Err? ==>
              var r := Emit(ins, symbols, pci); r.Err? && r.error == AsImmediate(ins.operands[0]).error
    ensures ins.operator == ".STRINGZ" && |ins.operands| >= 1 && AsStringContent(ins.operands[0]).Err? ==>
              var r := Emit(ins, symbols, pci); r.Err? && r.error == AsStringContent(ins.operands[0]).error
    ensures ins.operator == ".BLKW" && |ins.operands| >= 1 && AsNumber(ins.operands[0]).Err? ==>
              var r := Emit(ins, symbols, pci); r.Err? && r.error == AsNumber(ins.operands[0]).error
  {
    ClassifyDispatch(ins.operator);
  }

  /** `.ORIG` without an operand fails as a missing operand, and an origin that does not
      read as an immediate fails with that failure, wherever the PC stands. */
  lemma OriginFailures(ins: RawInstruction, symbols: SymbolTable, pci: Option<int>)
    ensures ins.operator == ".ORIG" && |ins.operands| == 0 ==>
              var r := Step(ins, symbols, pci); r.Err? && r.error == MissingOperand(ins.operator)
    ensures ins.operator == ".ORIG" && |ins.operands| >= 1 && AsImmediate(ins.operands[0]).Err? ==>
              var r := Step(ins, symbols, pci); r.Err? && r.error == AsImmediate(ins.operands[0]).error
  {
  }

  /** The PC advance the source computes separately equals the number of words emitted. */
  lemma AdvanceMatchesOutput(ins: RawInstruction, symbols: SymbolTable, pci: int)
    requires Emit(ins, symbols, pci).Ok?
    ensures NextPci(ins, pci).Ok? && NextPci(ins, pci).value == pci + |Emit(ins, symbols, pci).value|
  {
    var c := Classify(ins.operator);
    var w := Emit(ins, symbols, pci).value;
    if ins.operator == ".STRINGZ" {
      assert c == StringZ;
    } else if ins.operator == ".BLKW" {
      assert c == BlockWords;
    } else {
      assert c != StringZ && c != BlockWords;
      assert |w| == 1;
    }
  }

  /** `.ORIG x` opens an area with `pci` = x + 1, `.END` closes it, both emit nothing,
      and every other construct outside an area fails. */
  lemma AddressableArea(ins: RawInstruction, symbols: SymbolTable, pci: Option<int>)
    ensures ins.operator == ".ORIG" && |ins.operands| >= 1 && AsImmediate(ins.operands[0]).Ok? ==>
              Step(ins, symbols, pci).Ok? && Step(ins, symbols, pci).value == ([], Some(AsImmediate(ins.operands[0]).value + 1))
    ensures ins.operator == ".END" ==> Step(ins, symbols, pci).Ok? && Step(ins, symbols, pci).value == ([], None)
    ensures ins.operator != ".ORIG" && ins.operator != ".END" && pci.None? ==>
              Step(ins, symbols, pci).Err? && Step(ins, symbols, pci).error == OutsideAddressableArea
  {
  }

  /** Inside an area every construct moves `pci` on by exactly the words it appends. */
  lemma StepAdvance(ins: RawInstruction, symbols: SymbolTable, pci: int)
    requires ins.operator != ".ORIG" && ins.operator != ".END"
    requires Step(ins, symbols, Some(pci)).Ok?
    ensures Step(ins, symbols, Some(pci)).value.1 == Some(pci + |Step(ins, symbols, Some(pci)).value.0|)
  {
    AdvanceMatchesOutput(ins, symbols, pci);
  }

  /** A construct of one word emits exactly the word its encoder gives. */
  lemma EmitArith(ins: RawInstruction, symbols: SymbolTable, pci: int, opcode: nat)
    requires Classify(ins.operator) == Arith(opcode)
    requires EncodeArith(ins, opcode).Ok?
    ensures var w := Emit(ins, symbols, pci); w.Ok? && w.value == [EncodeArith(ins, opcode).value]
  {
  }

  // Each worked example below is proved in two lemmas: one reads the literal's operands
  // and gives the encoder's word, the other places that word in `Emit`'s output. One
  // proof over the whole literal unfolds every accessor at once and exceeds the
  // solver's budget.

  /** `ADD R1, R2, R3` is 0x1283. */
  lemma AddRegisterExample(ins: RawInstruction)
    requires ins == RawInstruction("ADD", [Token(Register, "R1"), Token(Register, "R2"), Token(Register, "R3")], None)
    ensures var w := Emit(ins, map[], 0); w.Ok? && w.value == [0x1283]
  {
    AddRegisterWord(ins);
    EmitArith(ins, map[], 0, 1);
  }

  lemma AddRegisterWord(ins: RawInstruction)
    requires ins == RawInstruction("ADD", [Token(Register, "R1"), Token(Register, "R2"), Token(Register, "R3")], None)
    ensures Classify(ins.operator) == Arith(1)
    ensures EncodeArith(ins, 1).Ok? && EncodeArith(ins, 1).value == 0x1283
  {
    AddRegisterOperands(ins);
    ArithRegisterWord(ins, 1, 1, 2, 3);
  }

  lemma AddRegisterOperands(ins: RawInstruction)
    requires ins == RawInstruction("ADD", [Token(Register, "R1"), Token(Register, "R2"), Token(Register, "R3")], None)
    ensures |ins.operands| == 3 && ins.operands[2].kind != Immediate
    ensures AsRegisterId(ins.operands[0]).Ok? && AsRegisterId(ins.operands[0]).value == 1
    ensures AsRegisterId(ins.operands[1]).Ok? && AsRegisterId(ins.operands[1]).value == 2
    ensures AsRegisterId(ins.operands[2]).Ok? && AsRegisterId(ins.operands[2]).value == 3
  {
    var dr, sr1, sr2 := AsRegisterId(ins.operands[0]), AsRegisterId(ins.operands[1]), AsRegisterId(ins.operands[2]);
    assert dr.Ok? && dr.value == 1 && sr1.Ok? && sr1.value == 2 && sr2.Ok? && sr2.value == 3;
  }

  /** `ADD R1, R2, #-1` is 0x12BF: the immediate is stored as 11111. */
  lemma AddImmediateExample(ins: RawInstruction)
    requires ins == RawInstruction("ADD", [Token(Register, "R1"), Token(Register, "R2"), Token(Immediate, "#-1")], None)
    ensures var w := Emit(ins, map[], 0); w.Ok? && w.value == [0x12BF]
  {
    AddImmediateWord(ins);
    EmitArith(ins, map[], 0, 1);
  }

  lemma AddImmediateWord(ins: RawInstruction)
    requires ins == RawInstruction("ADD", [Token(Register, "R1"), Token(Register, "R2"), Token(Immediate, "#-1")], None)
    ensures Classify(ins.operator) == Arith(1)
    ensures EncodeArith(ins, 1).Ok? && EncodeArith(ins, 1).value == 0x12BF
  {
    AddImmediateOperands(ins);
    var field := ArithImmediateWord(ins, 1, 1, 2, -1);
    assert field == 31 by {
      FieldWidths();
    }
  }

  lemma AddImmediateOperands(ins: RawInstruction)
    requires ins == RawInstruction("ADD", [Token(Register, "R1"), Token(Register, "R2"), Token(Immediate, "#-1")], None)
    ensures |ins.operands| == 3 && ins.operands[2].kind == Immediate
    ensures AsRegisterId(ins.operands[0]).Ok? && AsRegisterId(ins.operands[0]).value == 1
    ensures AsRegisterId(ins.operands[1]).Ok? && AsRegisterId(ins.operands[1]).value == 2
    ensures AsImmediate(ins.operands[2]).Ok? && AsImmediate(ins.operands[2]).value == -1
  {
    var dr, sr1 := AsRegisterId(ins.operands[0]), AsRegisterId(ins.operands[1]);
    assert dr.Ok? && dr.value == 1 && sr1.Ok? && sr1.value == 2;
    Tokens.ImmediateExamples();
  }

  /** `TRAP x25` is 0xF025. */
  lemma TrapExample(ins: RawInstruction)
    requires ins == RawInstruction("TRAP", [Token(Immediate, "x25")], None)
    ensures var w := Emit(ins, map[], 0); w.Ok? && w.value == [0xF025]
  {
    TrapWord(ins);
    assert Classify(ins.operator) == Trap;
  }

  lemma TrapWord(ins: RawInstruction)
    requires ins == RawInstruction("TRAP", [Token(Immediate, "x25")], None)
    ensures EncodeTrap(ins).Ok? && EncodeTrap(ins).value == 0xF025
  {
    var vec := AsImmediate(ins.operands[0]);
    assert vec.Ok? && vec.value == 37 by {
      Tokens.ImmediateExamples();
    }
    TrapEncoding(ins);
    assert vec.value % 256 == 37;
  }

  /** `BRZ LOOP` at 0x3002, two words after LOOP at 0x3000, is 0x05FD: its post-increment
      PC is 0x3003, so the offset is -3, written 111111101 below condition 010. */
  lemma BranchExample(ins: RawInstruction, symbols: SymbolTable)
    requires ins == RawInstruction("BRZ", [Token(Label, "LOOP")], None)
    requires symbols == map["LOOP" := 0x3000]
    ensures var w := Emit(ins, symbols, 0x3003); w.Ok? && w.value == [0x05FD]
  {
    assert ConditionCodes(ins.operator[2..]) == 2 by {
      assert ins.operator[2..] == ['Z'];
    }
    var field := BranchWord(ins, symbols, 0x3003, -3);
    assert field == 509 by {
      FieldWidths();
    }
  }
}
