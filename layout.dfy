/** What the generator's loop computes over a whole program, as a function of the
    instructions seen so far, and the address layout its `pci` bookkeeping implies. */
module Layout {
  import opened Outcomes
  import opened Tokens
  import opened CodeGen

  /** The generator after a prefix of the program: the words appended so far, the
      post-increment PC, and the failure that stopped it, if any. A failure leaves
      `pci` as it was before the failing construct. */
  datatype Trace = Trace(words: seq<Word>, pci: Option<int>, failure: Option<Error>)

  /** One iteration of the generator's loop applied to the state after the constructs
      before it; a failure already recorded makes it do nothing. */
  function Extend(before: Trace, ins: RawInstruction, symbols: SymbolTable): Trace
  {
    if before.failure.Some? then before
    else
      var step := Step(ins, symbols, before.pci);
      if step.Err? then Trace(before.words, before.pci, Some(step.error))
      else Trace(before.words + step.value.0, step.value.1, None)
  }

  /** The generator run over `program`, one `Step` per construct, stopping at the first failure. */
  function Run(program: seq<RawInstruction>, symbols: SymbolTable, pci: Option<int>): Trace
    decreases |program|
  {
    if program == [] then Trace([], pci, None)
    else Extend(Run(program[..|program| - 1], symbols, pci), program[|program| - 1], symbols)
  }

  /** A run is the run of all but the last construct, extended by the last. */
  lemma RunLast(program: seq<RawInstruction>, symbols: SymbolTable, pci: Option<int>)
    requires program != []
    ensures Run(program, symbols, pci) == Extend(Run(program[..|program| - 1], symbols, pci), program[|program| - 1], symbols)
  {
  }

  /** Once a construct fails, the constructs after it change nothing. */
  lemma {:induction false} RunStops(program: seq<RawInstruction>, symbols: SymbolTable, pci: Option<int>, i: nat)
    requires i <= |program|
    requires Run(program[..i], symbols, pci).failure.Some?
    ensures Run(program, symbols, pci) == Run(program[..i], symbols, pci)
    decreases |program| - i
  {
    if i < |program| {
      var next := program[..i + 1];
      assert next[..i] == program[..i];
      assert Run(next, symbols, pci) == Run(program[..i], symbols, pci);
      assert program[..i + 1][..i + 1] == next;
      RunStops(program, symbols, pci, i + 1);
    } else {
      assert program[..i] == program;
    }
  }

  /** Inside an area opened at `start`: unless stopped, the PC is the origin plus one
      plus the words emitted since (`start` is that post-increment PC). */
  predicate InArea(t: Trace, start: int) {
    t.failure.None? ==> t.pci == Some(start + |t.words|)
  }

  /** Between `.ORIG` and `.END` the PC moves on by exactly the words emitted, so the
      construct at output word k sits at address origin + k. */
  lemma {:induction false} BlockLayout(block: seq<RawInstruction>, symbols: SymbolTable, start: int)
    requires forall i :: 0 <= i < |block| ==> block[i].operator != ".ORIG" && block[i].operator != ".END"
    ensures InArea(Run(block, symbols, Some(start)), start)
    decreases |block|
  {
    if block != [] {
      var prefix := block[..|block| - 1];
      assert forall i :: 0 <= i < |prefix| ==> prefix[i] == block[i];
      BlockLayout(prefix, symbols, start);
      RunLast(block, symbols, Some(start));
      ExtendLayout(Run(prefix, symbols, Some(start)), block[|block| - 1], symbols, start);
    }
  }

  /** `.ORIG x` with a readable operand stands at index `o`. */
  predicate OpensArea(program: seq<RawInstruction>, o: nat, x: int) {
    && o < |program|
    && program[o].operator == ".ORIG" && |program[o].operands| >= 1
    && AsImmediate(program[o].operands[0]).Ok? && AsImmediate(program[o].operands[0]).value == x
  }

  /** No `.ORIG` or `.END` among the constructs at indices lo .. hi - 1. */
  predicate NoBoundary(program: seq<RawInstruction>, lo: nat, hi: nat)
    requires hi <= |program|
  {
    forall j :: lo <= j < hi ==> program[j].operator != ".ORIG" && program[j].operator != ".END"
  }

  /** The same inside a whole program: once `.ORIG x` at index `o` opens an area, and
      until the next `.ORIG` or `.END`, a run that has not failed has its PC at x + 1
      plus the words emitted since `o`, that is at `start` plus all its words, where
      `start` is x + 1 less the words emitted before `o`. */
  lemma AreaLayout(program: seq<RawInstruction>, symbols: SymbolTable, pci0: Option<int>,
                   o: nat, k: nat, x: int, start: int)
    requires o < k <= |program|
    requires OpensArea(program, o, x)
    requires Run(program[..o], symbols, pci0).failure.None?
    requires NoBoundary(program, o + 1, k)
    requires start == x + 1 - |Run(program[..o], symbols, pci0).words|
    ensures InArea(Run(program[..k], symbols, pci0), start)
  {
    OriginStep(program, symbols, pci0, o, x, start);
    AreaFrom(program, symbols, pci0, o + 1, k, start);
  }

  /** From a prefix that is inside an area, constructs other than `.ORIG`/`.END` keep it so. */
  lemma {:induction false} AreaFrom(program: seq<RawInstruction>, symbols: SymbolTable, pci0: Option<int>,
                                    m: nat, k: nat, start: int)
    requires m <= k <= |program|
    requires InArea(Run(program[..m], symbols, pci0), start)
    requires NoBoundary(program, m, k)
    ensures InArea(Run(program[..k], symbols, pci0), start)
    decreases k
  {
    if k > m {
      AreaFrom(program, symbols, pci0, m, k - 1, start);
      AreaStep(program, symbols, pci0, k, start);
    }
  }

  lemma OriginStep(program: seq<RawInstruction>, symbols: SymbolTable, pci0: Option<int>, o: nat, x: int, start: int)
    requires OpensArea(program, o, x)
    requires Run(program[..o], symbols, pci0).failure.None?
    requires start == x + 1 - |Run(program[..o], symbols, pci0).words|
    ensures InArea(Run(program[..o + 1], symbols, pci0), start)
  {
    assert program[..o + 1][..o] == program[..o];
    RunLast(program[..o + 1], symbols, pci0);
    OriginOpens(Run(program[..o], symbols, pci0), program[o], symbols, x);
  }

  lemma AreaStep(program: seq<RawInstruction>, symbols: SymbolTable, pci0: Option<int>, k: nat, start: int)
    requires 1 <= k <= |program|
    requires program[k - 1].operator != ".ORIG" && program[k - 1].operator != ".END"
    requires InArea(Run(program[..k - 1], symbols, pci0), start)
    ensures InArea(Run(program[..k], symbols, pci0), start)
  {
    assert program[..k][..k - 1] == program[..k - 1];
    RunLast(program[..k], symbols, pci0);
    ExtendLayout(Run(program[..k - 1], symbols, pci0), program[k - 1], symbols, start);
  }

  /** `.ORIG x` with a readable operand sets the PC to x + 1 and emits nothing. */
  lemma OriginOpens(before: Trace, ins: RawInstruction, symbols: SymbolTable, x: int)
    requires before.failure.None?
    requires ins.operator == ".ORIG" && |ins.operands| >= 1
    requires AsImmediate(ins.operands[0]).Ok? && AsImmediate(ins.operands[0]).value == x
    ensures var t := Extend(before, ins, symbols);
            t.failure.None? && t.pci == Some(x + 1) && t.words == before.words
  {
    var step := Step(ins, symbols, before.pci);
    assert step.Ok? && step.value.0 == [] && step.value.1 == Some(x + 1);
    assert before.words + [] == before.words;
  }

  /** One more construct inside an area keeps the PC equal to the origin plus the words emitted. */
  lemma ExtendLayout(before: Trace, ins: RawInstruction, symbols: SymbolTable, start: int)
    requires ins.operator != ".ORIG" && ins.operator != ".END"
    requires InArea(before, start)
    ensures InArea(Extend(before, ins, symbols), start)
  {
    if before.failure.None? {
      var p := start + |before.words|;
      assert before.pci == Some(p);
      if Step(ins, symbols, Some(p)).Ok? {
        ExtendAdvance(before, ins, symbols, start, p);
      } else {
        ExtendErr(before, ins, symbols);
      }
    }
  }

  lemma ExtendAdvance(before: Trace, ins: RawInstruction, symbols: SymbolTable, start: int, p: int)
    requires ins.operator != ".ORIG" && ins.operator != ".END"
    requires before.failure.None? && before.pci == Some(p) && p == start + |before.words|
    requires Step(ins, symbols, Some(p)).Ok?
    ensures InArea(Extend(before, ins, symbols), start)
  {
    StepAdvance(ins, symbols, p);
    ExtendOk(before, ins, symbols);
  }

  lemma ExtendOk(before: Trace, ins: RawInstruction, symbols: SymbolTable)
    requires before.failure.None? && Step(ins, symbols, before.pci).Ok?
    ensures var t, step := Extend(before, ins, symbols), Step(ins, symbols, before.pci);
            t.failure.None? && t.pci == step.value.1 && |t.words| == |before.words| + |step.value.0|
  {
  }

  lemma ExtendErr(before: Trace, ins: RawInstruction, symbols: SymbolTable)
    requires before.failure.None? && Step(ins, symbols, before.pci).Err?
    ensures Extend(before, ins, symbols).failure.Some?
  {
  }

  /** Outside an addressable area only `.ORIG` and `.END` are accepted: a program whose
      first construct is anything else fails at once and emits nothing. */
  lemma OutsideArea(program: seq<RawInstruction>, symbols: SymbolTable)
    requires |program| >= 1 && program[0].operator != ".ORIG" && program[0].operator != ".END"
    ensures Run(program, symbols, None) == Trace([], None, Some(OutsideAddressableArea))
  {
    assert program[..1][..0] == [];
    RunStops(program, symbols, None, 1);
  }

  /** The PC update alone, as the source writes it after emitting: what `.ORIG` and
      `.END` set, and the advance of every other construct. */
  function Advance(ins: RawInstruction, pci: Option<int>): Result<Option<int>>
  {
    var op := ins.operator;
    if op == ".ORIG" then
      if |ins.operands| < 1 then Err(MissingOperand(op))
      else
        var origin :- AsImmediate(ins.operands[0]);
        Ok(Some(origin + 1))
    else if op == ".END" then Ok(None)
    else if pci.None? then Err(OutsideAddressableArea)
    else
      var next :- NextPci(ins, pci.value);
      Ok(Some(next))
  }

  /** The PC after a program when only the PC updates are followed, ignoring the words. */
  function PciAfter(program: seq<RawInstruction>, pci: Option<int>): Result<Option<int>>
    decreases |program|
  {
    if program == [] then Ok(pci)
    else
      var before :- PciAfter(program[..|program| - 1], pci);
      Advance(program[|program| - 1], before)
  }

  /** A step that succeeds moves the PC exactly as the PC update alone does. */
  lemma StepPci(ins: RawInstruction, symbols: SymbolTable, pci: Option<int>)
    requires Step(ins, symbols, pci).Ok?
    ensures Advance(ins, pci).Ok? && Advance(ins, pci).value == Step(ins, symbols, pci).value.1
  {
  }

  /** A run that does not fail leaves the PC where the PC updates alone would. */
  lemma {:induction false} RunPci(program: seq<RawInstruction>, symbols: SymbolTable, pci: Option<int>)
    requires Run(program, symbols, pci).failure.None?
    ensures PciAfter(program, pci).Ok? && PciAfter(program, pci).value == Run(program, symbols, pci).pci
    decreases |program|
  {
    if program != [] {
      var prefix := program[..|program| - 1];
      RunPci(prefix, symbols, pci);
      StepPci(program[|program| - 1], symbols, Run(prefix, symbols, pci).pci);
    }
  }

  /** The address of the construct at `index`: the post-increment PC in effect there, minus one. */
  function AddressOf(program: seq<RawInstruction>, index: nat): Result<int>
    requires index <= |program|
  {
    var pci :- PciAfter(program[..index], None);
    if pci.None? then Err(OutsideAddressableArea) else Ok(pci.value - 1)
  }

  /** `.ORIG x200`, `LEA R0, TEXT`, `TEXT .BLKW 3`, `NUM .STRINGZ "ciallo"`, `A .FILL x0`,
      `B .FILL x1`, `.END`, as the parser hands them over. */
  predicate IsLinkerExample(program: seq<RawInstruction>) {
    && |program| == 7
    && program[0] == RawInstruction(".ORIG", [Token(Immediate, "x200")], None)
    && program[1] == RawInstruction("LEA", [Token(Register, "R0"), Token(Label, "TEXT")], None)
    && program[2] == RawInstruction(".BLKW", [Token(Number, "3")], Some("TEXT"))
    && program[3] == RawInstruction(".STRINGZ", [Token(String, "\"ciallo\"")], Some("NUM"))
    && program[4] == RawInstruction(".FILL", [Token(Immediate, "x0")], Some("A"))
    && program[5] == RawInstruction(".FILL", [Token(Immediate, "x1")], Some("B"))
    && program[6] == RawInstruction(".END", [], None)
  }

  /** One more construct extends `PciAfter` by that construct's PC update. */
  lemma PciAfterNext(program: seq<RawInstruction>, k: nat, before: Option<int>, after: Option<int>)
    requires k < |program|
    requires PciAfter(program[..k], None).Ok? && PciAfter(program[..k], None).value == before
    requires Advance(program[k], before).Ok? && Advance(program[k], before).value == after
    ensures PciAfter(program[..k + 1], None).Ok? && PciAfter(program[..k + 1], None).value == after
  {
    assert program[..k + 1][..k] == program[..k];
  }

  // The PC update of each construct of the example is worked out in a lemma of its own
  // that takes the construct as a parameter: a proof that sees the whole literal program
  // at once unfolds every accessor on every operand and exceeds the solver's budget.

  lemma OriginAdvance(ins: RawInstruction)
    requires ins == RawInstruction(".ORIG", [Token(Immediate, "x200")], None)
    ensures Advance(ins, None).Ok? && Advance(ins, None).value == Some(0x201)
  {
    Tokens.ImmediateExamples();
  }

  lemma BlockAdvance(ins: RawInstruction)
    requires ins == RawInstruction(".BLKW", [Token(Number, "3")], Some("TEXT"))
    ensures Advance(ins, Some(0x202)).Ok? && Advance(ins, Some(0x202)).value == Some(0x205)
  {
    assert AsNumber(ins.operands[0]).Ok? && AsNumber(ins.operands[0]).value == 3 by {
      Numbers.ParseOneDigit('3', 10);
    }
  }

  lemma StringAdvance(ins: RawInstruction)
    requires ins == RawInstruction(".STRINGZ", [Token(String, "\"ciallo\"")], Some("NUM"))
    ensures Advance(ins, Some(0x205)).Ok? && Advance(ins, Some(0x205)).value == Some(0x20C)
  {
    var text := StringOperand(ins.operands[0]);
    forall i | 0 <= i < |text|
      ensures text[i] as int < 0x1_0000
    {
      assert text[i] in "ciallo";
    }
    Utf16Bmp(text);
    StringzAdvance(ins, text, 0x205);
  }

  lemma StringzAdvance(ins: RawInstruction, text: string, pci: int)
    requires ins.operator == ".STRINGZ" && |ins.operands| >= 1
    requires AsStringContent(ins.operands[0]).Ok? && AsStringContent(ins.operands[0]).value == text
    ensures Advance(ins, Some(pci)).Ok? && Advance(ins, Some(pci)).value == Some(pci + |Utf16(text)| + 1)
  {
  }

  lemma StringOperand(t: Token) returns (text: string)
    requires t == Token(String, "\"ciallo\"")
    ensures AsStringContent(t).Ok? && AsStringContent(t).value == text && text == "ciallo"
  {
    text := Tokens.Unquote(t.content);
    assert text == t.content[1..7];
    assert text == "ciallo" by {
      assert |text| == 6;
      forall i | 0 <= i < 6
        ensures text[i] == "ciallo"[i]
      {
        assert text[i] == t.content[i + 1];
      }
    }
    assert Backslash !in t.content;
    Tokens.StringContentWithoutEscapes(t);
  }

  /** The label addresses of the example: TEXT at 0x201, NUM at 0x204, A at 0x20B and
      B at 0x20C, as the PC updates lay them out. */
  lemma LinkerExampleLayout(program: seq<RawInstruction>)
    requires IsLinkerExample(program)
    ensures AddressOf(program, 2).Ok? && AddressOf(program, 2).value == 0x201
    ensures AddressOf(program, 3).Ok? && AddressOf(program, 3).value == 0x204
    ensures AddressOf(program, 4).Ok? && AddressOf(program, 4).value == 0x20B
    ensures AddressOf(program, 5).Ok? && AddressOf(program, 5).value == 0x20C
  {
    LinkerExampleHead(program);
    LinkerExampleBody(program);
    PciAfterNext(program, 4, Some(0x20C), Some(0x20D));
    AddressFrom(program, 2, 0x202);
    AddressFrom(program, 3, 0x205);
    AddressFrom(program, 4, 0x20C);
    AddressFrom(program, 5, 0x20D);
  }

  /** `.ORIG x200` and `LEA` leave the PC at 0x202. */
  lemma LinkerExampleHead(program: seq<RawInstruction>)
    requires IsLinkerExample(program)
    ensures PciAfter(program[..2], None).Ok? && PciAfter(program[..2], None).value == Some(0x202)
  {
    assert program[..0] == [];
    OriginAdvance(program[0]);
    PciAfterNext(program, 0, None, Some(0x201));
    PciAfterNext(program, 1, Some(0x201), Some(0x202));
  }

  /** `.BLKW 3` and `.STRINGZ "ciallo"` move the PC on by 3 and by 7. */
  lemma LinkerExampleBody(program: seq<RawInstruction>)
    requires IsLinkerExample(program)
    requires PciAfter(program[..2], None).Ok? && PciAfter(program[..2], None).value == Some(0x202)
    ensures PciAfter(program[..3], None).Ok? && PciAfter(program[..3], None).value == Some(0x205)
    ensures PciAfter(program[..4], None).Ok? && PciAfter(program[..4], None).value == Some(0x20C)
  {
    BlockAdvance(program[2]);
    PciAfterNext(program, 2, Some(0x202), Some(0x205));
    StringAdvance(program[3]);
    PciAfterNext(program, 3, Some(0x205), Some(0x20C));
  }

  lemma AddressFrom(program: seq<RawInstruction>, k: nat, pci: int)
    requires k <= |program|
    requires PciAfter(program[..k], None).Ok? && PciAfter(program[..k], None).value == Some(pci)
    ensures AddressOf(program, k).Ok? && AddressOf(program, k).value == pci - 1
  {
  }

  /** One more construct extends a run that has not failed by that construct's step. */
  lemma RunNext(program: seq<RawInstruction>, symbols: SymbolTable, k: nat, before: Trace)
    requires k < |program|
    requires Run(program[..k], symbols, None) == before && before.failure.None?
    ensures var step := Step(program[k], symbols, before.pci);
            Run(program[..k + 1], symbols, None)
            == if step.Err? then Trace(before.words, before.pci, Some(step.error))
               else Trace(before.words + step.value.0, step.value.1, None)
  {
    assert program[..k + 1][..k] == program[..k];
  }

  /** `LEA` inside an area fails as not implemented. */
  lemma LeaStep(ins: RawInstruction, symbols: SymbolTable)
    requires ins.operator == "LEA"
    ensures var step := Step(ins, symbols, Some(0x201));
            step.Err? && step.error == NotImplemented("LEA")
  {
    assert Classify(ins.operator) == Todo by {
      assert "LEA" in Unimplemented;
    }
  }

  /** The generator itself stops at `LEA`, whose encoding the source leaves unimplemented. */
  lemma LinkerExampleStops(program: seq<RawInstruction>, symbols: SymbolTable)
    requires IsLinkerExample(program)
    ensures Run(program, symbols, None) == Trace([], Some(0x201), Some(NotImplemented("LEA")))
  {
    assert program[..0] == [];
    OriginAdvance(program[0]);
    RunNext(program, symbols, 0, Trace([], None, None));
    LeaStep(program[1], symbols);
    RunNext(program, symbols, 1, Trace([], Some(0x201), None));
    RunStops(program, symbols, None, 2);
  }
}
