/** Shared vocabulary: optional values, the errors the evaluation pipeline raises,
    and a result type that carries either a value or one of those errors. */
module Common {

  datatype Option<+T> = None | Some(value: T)

  /** The distinct failures of the continual-learning evaluation. Each corresponds to
      one `raise` in the Python source (mostly `ValueError`, with its own message). */
  datatype Error =
    | TaskListMismatch          // stored task list differs from the current run's
    | StageOutOfRange           // update: stage outside [1, number of tasks]
    | EmptyMatrix               // final metrics on a matrix with no rows
    | FinalRowIncomplete        // final metrics: the last row has an unset cell
    | StageOutOfBounds          // stage metrics: stage outside [1, number of rows]
    | StageRowIncomplete        // stage metrics: an unset cell among the first `stage` of the row
    | EmptyTaskList             // the parsed task list is empty
    | NoResultsSource           // neither a results JSON nor a predictions directory was given
    | ResultsNotMapping         // the results JSON is not an object
    | MissingPredictionFile(task: string)   // no prediction file for this task
    | MissingField(task: string)            // a prediction record lacks the answer or prediction key

  datatype Result<+T> = Ok(value: T) | Err(error: Error)

  /** A number times a positive count keeps its sign, and exceeds the count when the
      number exceeds one. */
  lemma ScaledSign(q: real, n: real)
    requires n > 0.0
    ensures q < 0.0 ==> q * n < 0.0
    ensures q > 1.0 ==> q * n > n
  {
  }

  /** Dividing a sum by a positive count: the quotient times the count is the sum, a
      non-negative sum has a non-negative quotient, and a sum of at most the count has a
      quotient of at most one. */
  lemma DivideByCount(sum: real, n: real)
    requires n > 0.0
    ensures (sum / n) * n == sum
    ensures 0.0 <= sum ==> 0.0 <= sum / n
    ensures sum <= n ==> sum / n <= 1.0
  {
    ScaledSign(sum / n, n);
  }
}
