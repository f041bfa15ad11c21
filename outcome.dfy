/** Failure-carrying results of the table-cleaning pipeline. Each error kind
    names the exception the original routine would raise at that point. */
module Outcome {

  /** Why a run of the pipeline produced no table. */
  datatype Error =
    | MissingMetadataRows            // dropping row labels 0 and 1 fails: fewer than two rows
    | TooFewColumns(width: nat)      // a fixed drop position lies beyond the last column
    | MalformedTime(row: nat)        // a trace timestamp is not a valid HH:MM:SS time
    | MalformedFinishTime(stage: nat) // a stage finish time is not a valid MM:SS time
    | EmptyStageTable                // the last stage row is read but there is none
    | MissingColumn(column: nat)     // a measurement column is not in the pruned trace
    | NonNumeric(row: nat, column: nat) // a measurement cell cannot be read as a number

  datatype Result<T> = Ok(value: T) | Err(error: Error) {
    predicate IsFailure() { Err? }

    function PropagateFailure<U>(): Result<U>
      requires Err?
    {
      Err(error)
    }

    function Extract(): T
      requires Ok?
    {
      value
    }
  }
}
