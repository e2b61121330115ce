/** Shared result types of the parser: an optional value and a result that
    either carries a value or one of the parser's fatal error conditions. */
module Common {

  datatype Option<T> = None | Some(value: T)

  /** The fatal conditions a parse can end with. The source reports them as
      message strings; `OutOfInput` and `InvalidRange` are the two messages of
      the slice guard. A missing `</script` is reported with the same message
      as a missing `>`, so it is `UnterminatedTag` here too. */
  datatype ParseError =
    | UnterminatedTag
    | UnterminatedComment
    | UnterminatedAttributeValue
    | InvalidRange
    | OutOfInput(bgn: nat, end: nat)

  /** Failure-compatible, so that `:-` plays the part of Rust's `?`. */
  datatype Result<T> = Ok(value: T) | Err(error: ParseError) {
    predicate IsFailure() { Err? }
    function PropagateFailure<U>(): Result<U> requires Err? { Err(error) }
    function Extract(): T requires Ok? { value }
  }
}
