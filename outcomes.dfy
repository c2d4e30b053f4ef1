/** Failure values of the assembler's code-generation stage.
    Each case stands for one exception the Kotlin code can throw. */
module Outcomes {

  datatype Option<+T> = None | Some(value: T)

  datatype Error =
    | TypeMismatch                  // `require(type == ...)` in a Token accessor
    | EmptyContent                  // `content.first()` on an empty token
    | UnknownRadix(marker: char)    // an immediate that starts with neither `#` nor `x`
    | NumberFormat(text: string)    // Kotlin `String.toInt` rejects the text
    | MissingOperand(op: string)    // `first()` or destructuring on too few operands
    | OutOfRange(value: int, bits: nat)
    | UndefinedLabel(name: string)
    | OutsideAddressableArea        // an instruction while `pci` is null
    | NegativeSize(count: int)      // `List(n)` with n < 0
    | NotImplemented(op: string)    // an opcode whose branch is `TODO()`
    | UnknownOperator(op: string)

  datatype Result<+T> = Ok(value: T) | Err(error: Error) {
    predicate IsFailure() { Err? }

    function PropagateFailure<U>(): Result<U>
      requires Err?
    {
      Err(error)
    }

    function Extract(): T
      requires Ok?
    {
      value
    }
  }
}
