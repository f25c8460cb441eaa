/** Option and Result types shared by every module of the model.

    A Unity object reference that may be null is an `Option`; an operation
    whose C# code can throw returns a `Result` whose `Err` names the exception
    the code would raise on that input. */
module Wrappers {

  datatype Option<+T> = None | Some(value: T)

  /** The run-time exceptions the modelled C# code can raise. */
  datatype Fault =
    | NullReference      // a member access through a null reference
    | IndexOutOfRange    // a list or array index outside its bounds
    | KeyNotFound        // a dictionary lookup of a missing key
    | NotANumber         // a 0/0 division whose NaN result flows onward
    | Overflow           // int.MinValue divided by -1
    | OutOfFuel          // the model's iteration bound ran out (see README)

  datatype Result<+T> = Ok(value: T) | Err(fault: Fault) {

    predicate IsFailure() {
      Err?
    }

    function PropagateFailure<U>(): Result<U>
      requires Err?
    {
      Err(fault)
    }

    function Extract(): T
      requires Ok?
    {
      value
    }
  }

  function Min(a: int, b: int): int {
    if a < b then a else b
  }

  function Max(a: int, b: int): int {
    if a < b then b else a
  }
}
