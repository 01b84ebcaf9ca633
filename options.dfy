/** The optional value used throughout the model: Go's "(value, ok)" pairs,
    nil pointers and empty regular-expression matches all become `None`. */
module Options {
  datatype Option<+T> = None | Some(value: T)
}
