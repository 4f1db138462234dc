/** Failure-carrying values shared by the condition parser and the row filter. */
module Outcomes {

  datatype Option<T> = None | Some(value: T)

  /** The four ways `filter` can fail, in the order the function can reach them. */
  datatype FilterError =
    | WrongTokenCount(count: nat)   // unpacking the split condition into three names fails
    | InvalidOperator(op: string)   // the explicit "Invalid comparison operator" exception
    | MissingField(field: string)   // looking up a column the table does not have
    | Incomparable(field: string)   // ordering a number against a string (a TypeError under Python 3)

  datatype Result<T> = Ok(value: T) | Err(error: FilterError)
}
