/**
 * What the browser client sees of the server. A `fetch` either completes with
 * an ok status and a body, completes with an error status and a JSON body that
 * may carry a `detail` message, or throws (server unreachable). Form inputs are
 * either left empty or hold a number.
 */
module Client {
  import opened Wrappers
  import opened Http

  /** A numeric text input: empty, or holding a number. */
  datatype Field<T> = Blank | Entered(value: T)

  /** The outcome of one `fetch`: `res.ok` with a body, an error status with an optional `detail`, or a thrown error. */
  datatype Reply<T> = Success(body: T) | Failure(detail: Option<string>) | NetworkError

  /** Browser-side truthiness of a stored string: present and non-empty. */
  predicate Truthy(s: Option<string>) {
    s.Some? && s.value != ""
  }

  /** `data.detail || fallback`: the server's message unless it is missing or empty. */
  function DetailOr(detail: Option<string>, fallback: string): (m: string)
    ensures Truthy(detail) ==> m == detail.value
    ensures !Truthy(detail) ==> m == fallback
  {
    if Truthy(detail) then detail.value else fallback
  }

  /** The reply the browser receives for a handler's result: the body, or the error's `detail` field. */
  function ReplyOf<T>(r: Result<T, HttpError>): (reply: Reply<T>)
    ensures reply.Success? <==> r.Ok?
    ensures r.Ok? ==> reply.body == r.value
    ensures r.Err? ==> reply == Failure(Some(r.error.detail))
  {
    match r
    case Ok(v) => Success(v)
    case Err(e) => Failure(Some(e.detail))
  }

  /** Every error the server raises carries a non-empty message, so the client shows it rather than its fallback. */
  lemma ServerDetailShown<T>(r: Result<T, HttpError>, fallback: string)
    requires r.Err? && r.error.detail != ""
    ensures DetailOr(ReplyOf(r).detail, fallback) == r.error.detail
  {
  }
}
