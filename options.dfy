/** The optional value used throughout the model, mirroring Rust's `Option`. */
module Options {
  datatype Option<+T> = None | Some(value: T)
}
