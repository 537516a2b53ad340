/** Outcomes of service calls: returned values and the exceptions the services throw. */
module Results {

  datatype Option<+T> = None | Some(value: T)

  /** The exceptions a service call can end with. */
  datatype Error =
    | NotFound(message: string)                          // EntityNotFoundException and its message
    | StudentsNotFound(missing: seq<int>)                // EntityNotFoundException of addGroup, naming the unresolved ids
    | SubjectNotAssigned(studentId: int, subjectId: int) // SubjectNotAssignedException
    | CachedValueOfOtherType                             // ClassCastException: the cache holds a value of another type under the key
    | NonUniqueResult(actual: nat)                       // IncorrectResultSizeDataAccessException: a single-row query met that many rows

  /** A value-returning call: it returns a value or throws. */
  datatype Result<+T> = Ok(value: T) | Err(error: Error)

  /** A void call: it returns or throws. */
  datatype Outcome = Pass | Fail(error: Error)
}
