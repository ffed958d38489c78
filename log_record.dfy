/**
 * The persisted record of one practice session, and the error wrappers
 * shared by the store's operations.
 */
module LogRecord {
  import opened Calendar

  /** One logged practice session; `date` is also its storage key. */
  datatype Log = Log(
    id: string,
    platform: string,
    questionId: string,
    topic: string,
    difficulty: string,
    timeSpent: int,
    notes: string,
    date: Instant)

  datatype Option<T> = None | Some(value: T)

  datatype Result<T, E> = Success(value: T) | Failure(error: E)

  /** Why a store transaction returned an error. */
  datatype StoreError =
    | KeyOutOfRange        // the timestamp cannot be marshalled to a key
    | TransactionFailed    // the transaction could not begin or commit
}
