/** Outcomes of the operations of the assembler and the emulator.

    `Ok` and `Err` are Rust's `Result`; `Panic` stands for a run-time abort of
    the Rust program (an index out of bounds, a missing map key, an
    `unimplemented` arm), which ends the whole run. */
module Outcome {

  datatype Option<+T> = None | Some(value: T)

  datatype Result<+T, +E> = Ok(value: T) | Err(error: E) | Panic(reason: string)
  {
    /** Both `Err` and `Panic` stop the computation (`?` in Rust, an abort for a panic). */
    predicate IsFailure() {
      !Ok?
    }

    function PropagateFailure<U>(): Result<U, E>
      requires !Ok?
    {
      if Err? then Err(error) else Panic(reason)
    }

    function Extract(): T
      requires Ok?
    {
      value
    }
  }
}
