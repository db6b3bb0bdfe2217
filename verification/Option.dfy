/** A value that may be missing: what the program returns as a null pointer or by falling off a loop. */
module Options {

  datatype Option<T> = None | Some(value: T)
}
