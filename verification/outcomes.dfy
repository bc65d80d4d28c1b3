/** Failure-compatible result types shared by the decoder modules. */
module Outcomes {

  /** A value that may be absent; `None` stands for PHP's `false` return. */
  datatype Option<+T> = None | Some(value: T)

  /** Why decoding a Shadow Sync Sample Box failed. */
  datatype Error =
    | OutOfBounds          // a stream read reaches past the source or the box end
    | TruncatedTable       // fewer than 8 * entryCount bytes follow the count
    | ShortField(index: nat)  // entry `index` handed a window other than 4 bytes to the integer decoder

  /** Either a decoded value or the error that stopped decoding. */
  datatype Result<+T> = Success(value: T) | Failure(error: Error) {

    predicate IsFailure() {
      Failure?
    }

    function PropagateFailure<U>(): Result<U>
      requires Failure?
    {
      Failure(error)
    }

    function Extract(): T
      requires Success?
    {
      value
    }
  }
}
