/** The failures the application raises and GlobalExceptionHandler, which
    turns each kind into an error envelope and a status. The envelope's
    timestamp is left out of the model. */
module Errors {
  import opened Http
  import opened Text

  /** A field constraint violation: the field's name and the constraint's
      message. */
  datatype FieldError = FieldError(field: string, message: string)

  /** EntityNotFoundException, IllegalArgumentException,
      MethodArgumentNotValidException (raised by request validation) and
      every other exception. */
  datatype Failure =
    | NotFound(message: string)
    | InvalidArgument(message: string)
    | ValidationFailed(errors: seq<FieldError>)
    | Unexpected(message: string)

  /** A service call's outcome: its value, or the failure it raised. */
  datatype Result<T> = Ok(value: T) | Err(failure: Failure)

  /** ErrorResponse and ValidationErrorResponse. */
  datatype ErrorBody =
    | ErrorResponse(status: int, error: string, message: string, details: string)
    | ValidationErrorResponse(status: int, error: string, message: string, fieldErrors: map<string, string>)

  datatype ErrorReply = ErrorReply(status: int, body: ErrorBody)

  const GenericMessage: string := "An unexpected error occurred"

  // The messages the services put into their exceptions; each names the id
  // as Long.toString renders it.

  function BookNotFound(id: int): string {
    "Book not found with ID: " + Decimal(id)
  }

  function AuthorNotFound(id: int): string {
    "Author not found with ID: " + Decimal(id)
  }

  /** The message deleteBook uses, worded differently from the lookups'. */
  function BookMissing(id: int): string {
    "Book with ID " + Decimal(id) + " not found."
  }

  /** The field-to-message map the validation handler fills by putting the
      errors in one after another, so a later error on a field replaces an
      earlier one. */
  function FieldErrorMap(errs: seq<FieldError>): (m: map<string, string>)
    ensures forall f :: f in m <==> exists i :: 0 <= i < |errs| && errs[i].field == f
  {
    if errs == [] then map[]
    else
      var last := errs[|errs| - 1];
      var m := FieldErrorMap(errs[..|errs| - 1]);
      assert forall i :: 0 <= i < |errs| - 1 ==> errs[..|errs| - 1][i] == errs[i];
      m[last.field := last.message]
  }

  /** The map holds, for each field, the message of the last error on it. */
  lemma {:induction false} LastErrorWins(errs: seq<FieldError>, i: int)
    requires 0 <= i < |errs|
    requires forall j :: i < j < |errs| ==> errs[j].field != errs[i].field
    ensures errs[i].field in FieldErrorMap(errs)
    ensures FieldErrorMap(errs)[errs[i].field] == errs[i].message
  {
    if i < |errs| - 1 {
      var init := errs[..|errs| - 1];
      assert init[i] == errs[i];
      LastErrorWins(init, i);
    }
  }

  /** The four exception handlers. */
  function Handle(f: Failure): (r: ErrorReply)
    ensures r.body.status == r.status
    ensures r.status == NOT_FOUND <==> f.NotFound?
    ensures r.status == BAD_REQUEST <==> f.InvalidArgument? || f.ValidationFailed?
    ensures r.status == INTERNAL_SERVER_ERROR <==> f.Unexpected?
    ensures r.body.ValidationErrorResponse? <==> f.ValidationFailed?
    ensures f.NotFound? || f.InvalidArgument? ==> r.body.message == f.message
    ensures f.Unexpected? ==> r.body.message == GenericMessage
    ensures f.NotFound? ==>
      r.body == ErrorResponse(NOT_FOUND, "Not Found", f.message, "Resource not found in database")
    ensures f.InvalidArgument? ==>
      r.body == ErrorResponse(BAD_REQUEST, "Bad Request", f.message, "Invalid input provided")
    ensures f.ValidationFailed? ==>
      r.body == ValidationErrorResponse(BAD_REQUEST, "Validation Failed", "Input validation failed", FieldErrorMap(f.errors))
    ensures f.Unexpected? ==>
      r.body == ErrorResponse(INTERNAL_SERVER_ERROR, "Internal Server Error", GenericMessage, "Please contact system administrator")
  {
    match f
    case NotFound(msg) =>
      ErrorReply(NOT_FOUND, ErrorResponse(NOT_FOUND, "Not Found", msg, "Resource not found in database"))
    case InvalidArgument(msg) =>
      ErrorReply(BAD_REQUEST, ErrorResponse(BAD_REQUEST, "Bad Request", msg, "Invalid input provided"))
    case ValidationFailed(errs) =>
      ErrorReply(BAD_REQUEST,
        ValidationErrorResponse(BAD_REQUEST, "Validation Failed", "Input validation failed", FieldErrorMap(errs)))
    case Unexpected(_) =>
      ErrorReply(INTERNAL_SERVER_ERROR,
        ErrorResponse(INTERNAL_SERVER_ERROR, "Internal Server Error", GenericMessage, "Please contact system administrator"))
  }

  /** Nothing of an unexpected failure's own message reaches the client:
      any two such failures produce the same reply. */
  lemma UnexpectedHidesMessage(a: string, b: string)
    ensures Handle(Unexpected(a)) == Handle(Unexpected(b))
  {
  }
}
