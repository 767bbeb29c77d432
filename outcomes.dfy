/** Optional values and the run's fatal errors. */
module Outcomes {

  datatype Option<+T> = None | Some(value: T)

  /** The exceptions the schedule reader and the message builder raise. */
  datatype Error =
    | MalformedInput       // a missing page, text segment or polygon vertex (IndexError / ValueError)
    | UnknownMonth         // ValueError("Target month is unknown")
    | GradeColumnNotFound  // ValueError("Cannot find <n>年生 in words")
    | EmptyArgmin          // np.argmin over an empty date table
    | ZeroDivision         // ceil(len / 0) in the message builder
    | NoSections           // np.array_split with a section count that is not positive

  datatype Result<+T> = Ok(value: T) | Err(error: Error)
}
