// A value that may be missing: a Go call's (value, error) pair when the error value
// itself plays no further part.

module Options {

  datatype Option<+T> = None | Some(value: T)
}
