/** The optional-value datatype the rest of the model uses for absent values,
    for Rust's `Option`, and (as `None`) for a panic where a result is partial. */
module Wrappers {

  datatype Option<+T> = None | Some(value: T)
}
