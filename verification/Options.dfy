/** The conventional optional value, used where the original returns `Option`. */
module Options {
  datatype Option<+T> = None | Some(value: T)
}
