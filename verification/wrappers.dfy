/** Failure-carrying datatypes shared by every module of the model. */
module Wrappers {

  /** Rust's `Option`. */
  datatype Option<+T> = None | Some(value: T)

  /** Rust's `Result`: a value the caller can inspect. */
  datatype Result<+T, +E> = Ok(value: T) | Err(error: E)

  /** How a Rust function ends: it either returns a value or panics
      (`unwrap` on `None`/`Err`, `expect`, a failed `assert!`,
      `unimplemented!`, an out-of-bounds index). A panic aborts the
      process, so no caller ever sees a value. */
  datatype Exit<+T> = Returns(value: T) | Panics(reason: string)
}

/** The installer's TOML files, reduced to what `from`/`read` can observe. */
module Toml {

  /** A stored document: the file cannot be opened, its text does not
      deserialize into `T`, or it deserializes to `value`. */
  datatype Stored<+T> = Missing | Unparsable | Parsed(value: T)
}
