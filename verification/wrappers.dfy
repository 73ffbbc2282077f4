/** Failure-carrying values shared by the whole model: `Option` stands for a JavaScript
    `null`/`undefined` or a Java `null`, `Result` for a value or a thrown exception
    (its message). */
module Wrappers {

  datatype Option<+T> = None | Some(value: T)

  datatype Result<+T> = Ok(value: T) | Err(message: string)
}
