/** Rust's `Option`. */
module Optional {
  datatype Option<T> = None | Some(value: T)
}
