/** The code generator object: it walks the parsed program once, appending machine
    words to a local output list and keeping the post-increment PC in a field. */
module Generator {
  import opened Outcomes
  import opened Tokens
  import opened CodeGen
  import Numbers
  import opened Layout

  class CodeGenerator {
    const instructions: seq<RawInstruction>
    /** The label addresses the linker resolved. */
    const symbols: SymbolTable
    /** The post-increment PC; `None` outside an addressable area. */
    var pci: Option<int>

    constructor (instructions: seq<RawInstruction>, symbols: SymbolTable)
      ensures this.instructions == instructions && this.symbols == symbols
      ensures pci == None
    {
      this.instructions := instructions;
      this.symbols := symbols;
      pci := None;
    }

    /** The offset from the current PC to a label; the caller must be inside an area. */
    method GetPCOffset(target: string) returns (r: Result<int>)
      requires pci.Some?
      ensures r.Ok? <==> target in symbols
      ensures r.Ok? ==> pci.value + r.value == symbols[target]
      ensures r.Err? ==> r.error == UndefinedLabel(target)
    {
      r := PCOffset(symbols, pci.value, target);
    }

    /** Generates the machine words of the whole program. The words come back when
        every construct is accepted; otherwise the first failure does, and `pci` keeps
        the value it had before the failing construct. */
    method Build() returns (r: Result<seq<Word>>)
      modifies this
      ensures var t := Run(instructions, symbols, old(pci));
              && pci == t.pci
              && (t.failure.None? ==> r.Ok? && r.value == t.words)
              && (t.failure.Some? ==> r.Err? && r.error == t.failure.value)
    {
      var output: seq<Word> := [];
      var i := 0;
      while i < |instructions|
        invariant 0 <= i <= |instructions|
        invariant Run(instructions[..i], symbols, old(pci)) == Trace(output, pci, None)
      {
        var before := Trace(output, pci, None);
        var words := Generate(instructions[i]);
        if words.Err? {
          Stop(instructions, symbols, old(pci), i, before, words.error);
          return Err(words.error);
        }
        output := output + words.value;
        Continue(instructions, symbols, old(pci), i, before, words.value, pci);
        i := i + 1;
      }
      assert instructions[..i] == instructions;
      return Ok(output);
    }

    /** One pass of the loop body: the words one construct appends, with `pci` moved
        on past them; a failure leaves `pci` as it was. */
    method Generate(ins: RawInstruction) returns (r: Result<seq<Word>>)
      modifies this
      ensures var step := Step(ins, symbols, old(pci));
              && (step.Ok? ==> r.Ok? && r.value == step.value.0 && pci == step.value.1)
              && (step.Err? ==> r.Err? && r.error == step.error && pci == old(pci))
    {
      if ins.operator == ".ORIG" {
        if |ins.operands| == 0 {
          return Err(MissingOperand(ins.operator));
        }
        var origin := AsImmediate(ins.operands[0]);
        if origin.Err? {
          return Err(origin.error);
        }
        pci := Some(origin.value + 1);
        return Ok([]);
      } else if ins.operator == ".END" {
        pci := None;
        return Ok([]);
      }
      if pci.None? {
        return Err(OutsideAddressableArea);
      }
      var at := pci.value;
      var words := EmitWords(ins);
      if words.Err? {
        return Err(words.error);
      }
      AdvanceMatchesOutput(ins, symbols, at);
      pci := Some(NextPci(ins, at).value);
      return Ok(words.value);
    }

    /** The words a construct appends inside an area, as `Emit` gives them. */
    method EmitWords(ins: RawInstruction) returns (r: Result<seq<Word>>)
      requires pci.Some?
      ensures var w := Emit(ins, symbols, pci.value);
              && (r.Ok? <==> w.Ok?)
              && (r.Ok? ==> r.value == w.value)
              && (r.Err? ==> r.error == w.error)
    {
      if ins.operator == ".STRINGZ" {
        if |ins.operands| == 0 {
          return Err(MissingOperand(ins.operator));
        }
        var text := AsStringContent(ins.operands[0]);
        if text.Err? {
          return Err(text.error);
        }
        var words := AppendUnits([], Utf16(text.value));
        StringzStep(ins, symbols, pci.value, text.value);
        return Ok(words + [0]);
      } else if IsBranch(ins.operator) {
        r := BranchWords(ins);
      } else {
        r := Emit(ins, symbols, pci.value);
      }
    }

    /** A branch: the condition codes, then the label's offset from `pci` as a
        nine-bit field. */
    method BranchWords(ins: RawInstruction) returns (r: Result<seq<Word>>)
      requires pci.Some? && IsBranch(ins.operator)
      ensures var w := Emit(ins, symbols, pci.value);
              && (r.Ok? <==> w.Ok?)
              && (r.Ok? ==> r.value == w.value)
              && (r.Err? ==> r.error == w.error)
    {
      if |ins.operands| == 0 {
        assert Classify(ins.operator) == Branch;
        return Err(MissingOperand(ins.operator));
      }
      BranchSteps(ins, symbols, pci.value);
      var cc := ConditionCodes(ins.operator[2..]);
      var offset := GetPCOffset(AsLabel(ins.operands[0]));
      if offset.Err? {
        return Err(offset.error);
      }
      var field := ToComplement(offset.value, 9);
      if field.Err? {
        return Err(field.error);
      }
      return Ok([Numbers.Or16(cc * 512, field.value)]);
    }
  }

  /** Appends the code units one by one, as the source's loop over the characters does. */
  method AppendUnits(output: seq<Word>, units: seq<Word>) returns (out: seq<Word>)
    ensures |out| == |output| + |units|
    ensures out[..|output|] == output && out[|output|..] == units
  {
    out := output;
    var j := 0;
    while j < |units|
      invariant 0 <= j <= |units|
      invariant out == output + units[..j]
    {
      out := out + [units[j]];
      j := j + 1;
    }
    assert units[..j] == units;
  }

  /** What `.STRINGZ` appends inside an area: the code units of the text and a zero. */
  lemma StringzStep(ins: RawInstruction, symbols: SymbolTable, pci: int, text: string)
    requires ins.operator == ".STRINGZ" && |ins.operands| >= 1
    requires AsStringContent(ins.operands[0]).Ok? && AsStringContent(ins.operands[0]).value == text
    ensures Emit(ins, symbols, pci).Ok? && Emit(ins, symbols, pci).value == Utf16(text) + [0]
  {
    assert Classify(ins.operator) == StringZ;
  }

  /** The branch path of the loop body, step by step: the label's offset, its nine-bit
      field, and the word `Emit` gives for them. */
  lemma BranchSteps(ins: RawInstruction, symbols: SymbolTable, pci: int)
    requires IsBranch(ins.operator) && |ins.operands| >= 1
    ensures var w, target := Emit(ins, symbols, pci), AsLabel(ins.operands[0]);
            && (target !in symbols ==> w.Err? && w.error == UndefinedLabel(target))
            && (target in symbols ==>
                  var f := ToComplement(symbols[target] - pci, 9);
                  && (w.Ok? <==> f.Ok?)
                  && (f.Err? ==> w.error == f.error)
                  && (f.Ok? ==> w.value == [Numbers.Or16(ConditionCodes(ins.operator[2..]) * 512, f.value)]))
  {
    assert Classify(ins.operator) == Branch;
  }

  /** A construct that is accepted extends the run by its words and its new PC. */
  lemma Continue(program: seq<RawInstruction>, symbols: SymbolTable, pci0: Option<int>, i: nat,
                 before: Trace, words: seq<Word>, next: Option<int>)
    requires i < |program|
    requires Run(program[..i], symbols, pci0) == before && before.failure.None?
    requires var step := Step(program[i], symbols, before.pci);
             step.Ok? && step.value.0 == words && step.value.1 == next
    ensures Run(program[..i + 1], symbols, pci0) == Trace(before.words + words, next, None)
  {
    assert program[..i + 1][..i] == program[..i];
    RunLast(program[..i + 1], symbols, pci0);
  }

  /** A construct that fails ends the run: nothing after it is looked at. */
  lemma Stop(program: seq<RawInstruction>, symbols: SymbolTable, pci0: Option<int>, i: nat,
             before: Trace, e: Error)
    requires i < |program|
    requires Run(program[..i], symbols, pci0) == before && before.failure.None?
    requires var step := Step(program[i], symbols, before.pci);
             step.Err? && step.error == e
    ensures Run(program, symbols, pci0) == Trace(before.words, before.pci, Some(e))
  {
    assert program[..i + 1][..i] == program[..i];
    RunLast(program[..i + 1], symbols, pci0);
    RunStops(program, symbols, pci0, i + 1);
  }
}
