/** The optional value every parser and search in the model returns: `None` stands for
    Rust's `None`, and also for the panics (`unwrap` on an error, a failed index) that the
    small parsing functions of the source run into on malformed input. */
module Options {
  datatype Option<T> = None | Some(value: T)
}
