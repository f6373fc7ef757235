/** JavaScript's `undefined`/`null` for a single value, made explicit. */
module Optional {

  datatype Option<+T> = None | Some(value: T)
}
