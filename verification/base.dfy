/** Shared failure-compatible wrappers and the error taxonomy of the analysis view. */
module Base {

  datatype Option<+T> = None | Some(value: T)

  /** Why the view gives up: it either renders an error page (invalid category, no upload)
      or its catch-all handler redirects after an exception (a missing column, a comparison
      Python refuses). */
  datatype Failure =
    | InvalidCategory(category: string)
    | NoUploadedFile(category: string)
    | MissingColumn(name: string)
    | UncomparableScores
    | NonNumericScores

  datatype Result<+T> = Ok(value: T) | Err(error: Failure) {
    predicate IsFailure() { Err? }

    function PropagateFailure<U>(): Result<U>
      requires Err?
    {
      Err(error)
    }

    function Extract(): T
      requires Ok?
    {
      value
    }
  }
}
