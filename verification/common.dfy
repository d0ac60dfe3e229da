/** Values that carry either a result or one of the ledger's error kinds. */
module Common {

  datatype Option<+T> = None | Some(value: T)

  /** The failures the services and repositories report. */
  datatype Error =
    | NotFound           // gorm's record-not-found, or "account not found" / "user not found"
    | InsufficientFunds  // "insufficient funds" from the transfer funds check
    | NonZeroBalance     // "cannot close account with non-zero balance"
    | StoreFailure       // an INSERT or a full-row Save reported an error
    | PublishFailure     // the event producer reported an error
    | InvalidRequest     // only the corrected transfer rejects requests up front

  datatype Result<+T> = Ok(value: T) | Err(error: Error)

  function Min(a: int, b: int): int { if a <= b then a else b }

  function Max(a: int, b: int): int { if a <= b then b else a }

  /** Go's `int`, 64 bits wide on the platforms the service targets. */
  const MinInt: int := -0x8000_0000_0000_0000
  const MaxInt: int := 0x7fff_ffff_ffff_ffff
  const IntRange: int := 0x1_0000_0000_0000_0000

  /** The value Go's `int` arithmetic yields for the exact result `x`:
      two's-complement wrap-around into [MinInt, MaxInt]. */
  function WrapInt(x: int): (r: int)
    ensures MinInt <= r <= MaxInt
    ensures (x - r) % IntRange == 0
    ensures MinInt <= x <= MaxInt ==> r == x
  {
    (x - MinInt) % IntRange + MinInt
  }
}
