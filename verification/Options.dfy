/** A value or none: what the source expresses by special results and error returns. */
module Options {

  datatype Option<T> = None | Some(value: T)
}
