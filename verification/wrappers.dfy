/** Failure-carrying results shared by every part of the duration engine.
    `Exception` names the .NET exception type an operation of the source throws. */
module Wrappers {

  datatype Option<+T> = None | Some(value: T)

  /** The .NET exceptions the modelled code can raise. */
  datatype Exception =
    | FormatException             // bad pattern, or input that matches no format
    | OverflowException           // numeric capture or tick arithmetic out of range
    | ArgumentNullException       // null or empty required input
    | ArgumentOutOfRangeException // TimeSpan constructor range, List.GetRange bounds
    | ArgumentException           // StringBuilder.Replace with an empty old value
    | IndexOutOfRangeException    // array or string index past its end

  datatype Result<+T> = Ok(value: T) | Err(error: Exception)
  {
    predicate IsFailure() { Err? }

    function PropagateFailure<U>(): Result<U>
      requires Err?
    {
      Err(error)
    }

    function Extract(): T
      requires Ok?
    {
      value
    }
  }
}
