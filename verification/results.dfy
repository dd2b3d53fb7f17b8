/** Optional values, service outcomes and the reply every state-changing
    service call produces. */
module Results {

  /** A value that may be absent: an `undefined` request field, an unset
      document path. */
  datatype Option<+T> = None | Some(value: T)

  /** The outcome of a service: a value, or the HTTP status and message of
      the error the service throws. Statuses other than 500 come from the
      service's own `CustomError`s; 500 stands for any other thrown error
      (a Mongoose validation error, a duplicate-key error). */
  datatype Result<+T> = Ok(value: T) | Err(status: nat, message: string)

  /** What a state-changing service call leaves behind: the store after the
      call (which, as in the source, may already differ from the store before
      it when a later step fails), the media public ids released on the way,
      in release order, and the outcome. */
  datatype Reply<S, +T> = Reply(store: S, released: seq<string>, result: Result<T>)

  /** A reply that changes nothing and releases nothing. */
  function Fail<S, T>(store: S, status: nat, message: string): (r: Reply<S, T>)
    ensures r.store == store && r.released == [] && r.result.Err?
    ensures r.result.status == status && r.result.message == message
  {
    Reply(store, [], Err(status, message))
  }
}
