/** `Option` stands for a JavaScript value that may be `undefined`. */
module Options {
  datatype Option<+T> = None | Some(value: T)
}
