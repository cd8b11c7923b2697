/** A value that may be missing: a null pointer, an empty slot, an answer that did not come. */
module Options {

  datatype Option<+T> = None | Some(value: T)
}
