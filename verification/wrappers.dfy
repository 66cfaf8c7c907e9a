/**
  Results and errors of the constraint engine. Every construction-time and
  evaluation-time failure of the source (a `StrictValidationError`, a
  `KeyError` on a missing column, an `IndexError` on a too-short condition
  list, a `TypeError` on bad keyword arguments) becomes a `Failure` carrying
  one `Error` value. `Result` and `Check` take part in Dafny's `:-`
  notation, which stops a computation at the first failure.
 */
module Wrappers {

  /** An optional field: a tolerance or a nested constraint that may be none. */
  datatype Option<+T> = None | Some(value: T)

  /** A computed value, or the error that stopped the computation. */
  datatype Result<+T, +E> = Success(value: T) | Failure(error: E) {

    predicate IsFailure() {
      Failure?
    }

    function PropagateFailure<U>(): Result<U, E>
      requires Failure?
    {
      Failure(error)
    }

    function Extract(): T
      requires Success?
    {
      value
    }
  }

  /** A validation step that yields no value: it passes, or fails with an error. */
  datatype Check<+E> = Pass | Fail(error: E) {

    predicate IsFailure() {
      Fail?
    }

    function PropagateFailure<U>(): Result<U, E>
      requires Fail?
    {
      Failure(error)
    }
  }

  /** The validation step that fails with `error` unless `condition` holds. */
  function Require<E>(condition: bool, error: E): (r: Check<E>)
    ensures r.Pass? <==> condition
  {
    if condition then Pass else Fail(error)
  }

  datatype Error =
    /** The `parameters` list of a constraint repeats a name. */
    | DuplicateParameters(parameters: seq<string>)
    /** An operator symbol outside `<`, `<=`, `=`, `==`, `!=`, `>`, `>=`. */
    | InvalidOperator(symbol: string)
    /** A tolerance given together with an operator that takes none. */
    | ToleranceNotAllowed
    /** A combiner name outside AND, OR, XOR. */
    | InvalidCombiner(name: string)
    /** An exclusion constraint without conditions. */
    | TooFewConditions
    /** Dependencies: `conditions` and `affected_parameters` differ in length. */
    | ConditionCountMismatch
    /** A `type` tag naming no condition or constraint variant. */
    | UnknownType(tag: string)
    /** Keyword arguments that the selected variant does not take, or a missing required one. */
    | BadArguments
    /** A threshold condition applied to a column that is not numeric. */
    | NonNumeric
    /** A tolerance operator whose tolerance was explicitly set to none, applied to data. */
    | MissingTolerance
    /** A column name absent from the candidate table. */
    | MissingColumn(name: string)
    /** An exclusion constraint with more conditions than parameters. */
    | IndexOutOfRange
    /** A configuration without a `type` entry. */
    | MissingType
    /** A row-wise `apply` over no columns on a table that has rows: pandas
        cannot build the one-value-per-row result (a `frozenset` is refused as
        unordered, an empty `tuple` has the wrong length). */
    | EmptyRowApply
}
