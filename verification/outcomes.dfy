/** Failure-carrying values shared by every module of the model.

    The Rust code returns `Option`, `anyhow::Result` and occasionally panics
    (`unwrap`, `assert!`, out-of-range slicing). Panics are made explicit here
    as values so that the model can say exactly when they happen. */
module Outcomes {

  datatype Option<+V> = None | Some(value: V)

  /** Outcome of one of the `FromStr` parsers. `Rejected` is an `Err` return,
      `Panicked` is a panic inside the parser. */
  datatype ParseResult<+V> = Parsed(value: V) | Rejected | Panicked

  /** Why a call failed: the external engine returned an error, the Rust code
      returned an error of its own (`anyhow::bail!`), or it panicked (an
      `assert!`, an `unwrap` or an out-of-range `split_off`). */
  datatype Error = EngineFailure(stage: string) | Failure(message: string) | Panic(reason: string)

  datatype Result<+V> = Ok(value: V) | Err(error: Error)

}
