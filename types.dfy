/** The result shape every server action returns (lib/types.ts), and the
    optional value used for nullable columns and lookups. */
module Types {

  datatype Option<T> = None | Some(value: T)

  /** ActionResult<T>: either `{ success: true, data }` or `{ success: false, error }`. */
  datatype ActionResult<T> = Success(data: T) | Failure(error: string) {
    /** The `success` discriminant of the tagged union. */
    const success: bool := Success?
  }

  /** successResult: wraps `data` in a successful result. */
  function SuccessResult<T>(data: T): (r: ActionResult<T>)
    ensures r.success
    ensures r.data == data
  {
    Success(data)
  }

  /** errorResult: wraps the message `error` in a failed result. */
  function ErrorResult<T>(error: string): (r: ActionResult<T>)
    ensures !r.success
    ensures r.error == error
  {
    Failure(error)
  }
}
