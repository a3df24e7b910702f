/** The slice of net/http the handlers touch: request headers, the status
    codes they answer with, and the shape of an answer. */
module Http {

  /** Request headers as net/http stores them for a received request: keys
      in canonical form, each with the values in arrival order. */
  type Headers = map<string, seq<string>>

  /** http.Header.Get for a key given in canonical form: the first value
      stored under it, or "" when there is none. */
  function HeaderGet(h: Headers, key: string): string {
    if key in h && |h[key]| > 0 then h[key][0] else ""
  }

  /** The header map of a request carrying exactly one header. */
  function SingleHeader(key: string, value: string): Headers {
    map[key := [value]]
  }

  const StatusOK: int := 200
  const StatusCreated: int := 201
  const StatusNoContent: int := 204
  const StatusBadRequest: int := 400
  const StatusUnauthorized: int := 401
  const StatusForbidden: int := 403
  const StatusNotFound: int := 404
  const StatusInternalServerError: int := 500

  /** What a handler writes: a status with a JSON body, or a status with an
      error message (http.Error and respondWithError alike). */
  datatype Response<+T> = Reply(status: int, body: T) | Failure(status: int, message: string)
}
