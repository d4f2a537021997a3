/** Failure-compatible wrappers and the error kinds the compiler raises. */
module Base {

  datatype Option<+T> = None | Some(value: T)

  /** The exceptions that escape the compiler.  `Fault` stands for a Python
      built-in exception (KeyError, ValueError, AttributeError, IndexError,
      TypeError) that the code does not catch; `Diverges` marks a run whose
      loop never terminates. */
  datatype Error =
    | GenerateSourceError(msg: string)
    | SourceError(msg: string)
    | ImportClsError(msg: string)
    | Fault(kind: string)
    | Diverges

  datatype Result<+T> = Ok(value: T) | Err(error: Error) {
    predicate IsFailure() { Err? }

    function PropagateFailure<U>(): Result<U>
      requires Err?
    {
      Err(error)
    }

    function Extract(): T
      requires Ok?
    {
      value
    }
  }
}
