/**
 * The JSON envelope every handler answers with: an HTTP status code and a
 * body `{status: 'success' | 'error', data}`.
 */
module Replies {

  datatype Body<+T> = Failure(message: string) | Success(data: T)

  datatype Reply<+T> = Reply(code: int, body: Body<T>)

  /** The message a snack handler sends when no user owns the session id. */
  const SessionUnknown: string := "Session ID does not exist"

  /** 403 with `status: 'error'`: the cookie resolved to no user. */
  function Forbidden<T>(): Reply<T> {
    Reply(403, Failure(SessionUnknown))
  }

  /** The default 200 with `status: 'success'` that a handler's return value gets. */
  function Ok<T>(data: T): Reply<T> {
    Reply(200, Success(data))
  }
}
