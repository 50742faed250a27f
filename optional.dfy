/** Rust's `Option<T>`: the absence-or-value result of the store's reads. */
module Optional {
  datatype Option<+T> = None | Some(value: T)
}
