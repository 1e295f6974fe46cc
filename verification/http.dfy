/** HTTP replies as the controllers produce them: a status code and an
    optional body. */
module Http {
  import opened Wrappers

  // Status codes, as section 15 of RFC 9110 defines them.
  const OK: int := 200
  const CREATED: int := 201
  const NO_CONTENT: int := 204
  const BAD_REQUEST: int := 400
  const NOT_FOUND: int := 404
  const INTERNAL_SERVER_ERROR: int := 500

  /** A reply; body None is an empty body (a null return value or a
      ResponseEntity built without one). */
  datatype Reply<T> = Reply(status: int, body: Option<T>)
}
