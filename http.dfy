/**
  The two ways the backend reports the outcome of a request:
  a serializer's `validate`/`create` either passes or raises a
  `ValidationError` (HTTP 400 with a message), and a view action returns a
  `Response` with a status code.
*/
module Http {

  const HTTP_403_FORBIDDEN := 403
  const HTTP_404_NOT_FOUND := 404

  /** Outcome of a serializer: passed, or `ValidationError(message)`. */
  datatype Validation = Passed | Rejected(message: string)

  /** Outcome of a view action: 200 with the serialized entity, or an error response. */
  datatype Reply = Ok | Error(status: int, message: string)

  /** The request methods a client can send. */
  datatype HttpMethod = GET | HEAD | OPTIONS | POST | PUT | PATCH | DELETE

  /** Django REST framework's SAFE_METHODS: GET, HEAD and OPTIONS. */
  predicate IsSafe(m: HttpMethod)
    ensures IsSafe(m) <==> m !in {POST, PUT, PATCH, DELETE}
  {
    m == GET || m == HEAD || m == OPTIONS
  }
}
