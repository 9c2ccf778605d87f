/** Optional values and the exceptions the modelled code can raise. */
module Outcomes {

  /** A value that may be absent; stands for a C# nullable or `null` reference. */
  datatype Option<+T> = None | Some(value: T)

  /** The .NET exceptions that the modelled operations throw. */
  datatype Exception =
    | ArgumentException        // e.g. WeightedAverage over an empty sequence
    | ArgumentOutOfRange       // an enum value outside its declared members, or a bad index through `IReadOnlyList<T>`
    | DivideByZero             // WeightedAverage with total weight 0
    | IndexOutOfRange          // a bad index straight into an array
    | Overflow                 // an array of negative length, or `Convert.ToByte` out of range
    | Thrown(message: string)  // `new Exception(message)`
    | StepFailure(message: string)  // the failure of one body's step
    | Aggregate(inner: Exception)   // `AggregateException`, as `Parallel.For` rethrows a failure of its body

  /** The outcome of a C# call that either returns a value or throws. */
  datatype Result<+T> = Ok(value: T) | Err(error: Exception)
}
