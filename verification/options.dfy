/** A possibly missing value: a table cell that may be empty, or a column that
    may be absent from the input. */
module Options {

  datatype Option<+T> = None | Some(value: T)
}
