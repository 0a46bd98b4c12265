/** Shared vocabulary of the model: optional values, results, and the
    JavaScript `Error` values that controllers hand on with `next(error)`. */
module Base {

  /** A value that may be absent: `undefined` in the JavaScript source. */
  datatype Option<+T> = None | Some(value: T)

  /** The outcome of a step that can throw: a value, or the thrown error. */
  datatype Result<+T> = Ok(value: T) | Err(error: Error)

  /** A JavaScript `Error`: its constructor name and its message. */
  datatype Error = Error(name: string, message: string)

  /** The first line of the stack trace V8 records for an error
      (`<name>: <message>`); the frames below it are not modelled. */
  function StackHead(e: Error): string
  {
    e.name + ": " + e.message
  }

  /** JavaScript truthiness of an optional string: `undefined` and `''` are falsy. */
  predicate TruthyText(v: Option<string>)
  {
    v.Some? && v.value != ""
  }

  /** JavaScript truthiness of an optional number: `undefined` and `0` are falsy. */
  predicate TruthyNumber(v: Option<int>)
  {
    v.Some? && v.value != 0
  }
}
