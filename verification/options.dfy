/** JavaScript's `null`-or-value results, as an optional value. */
module Options {

  datatype Option<+T> = None | Some(value: T)
}
