/** What a handler sends back: a status code and a JSON payload. */
module Http {
  import opened Schema

  const OK := 200
  const CREATED := 201
  const BAD_REQUEST := 400
  const UNAUTHORIZED := 401
  const NOT_FOUND := 404
  const UNPROCESSABLE := 422
  const SERVER_ERROR := 500

  /** The JSON body: the value itself, `{ error }`, `{ message }`, or `{ errors }`. */
  datatype Payload<+T> = Data(value: T) | Error(error: string) | Message(message: string) | Errors(issues: seq<Issue>)

  datatype Reply<+T> = Reply(status: int, payload: Payload<T>)
}
