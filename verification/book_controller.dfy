/** BookController: the five /books handlers, working on the repositories
    directly and answering with status codes. Request bodies are validated
    before a handler runs; a rejected body is answered by the exception
    handler with 400 and the field errors. */
module BookController {
  import opened Wrappers
  import Tables
  import opened Model
  import opened Store
  import opened Errors
  import opened Requests
  import opened Responses
  import opened Http
  import BookService

  datatype Body = One(book: BookResponse) | Many(books: seq<BookResponse>) | Invalid(error: ErrorBody)

  /** The reply to a body that fails validation. */
  function Rejected(errs: seq<FieldError>): (r: Reply<Body>)
    requires errs != []
    ensures r.status == BAD_REQUEST
    ensures r.body.Some? && r.body.value.Invalid? && r.body.value.error.ValidationErrorResponse?
    ensures r.body.value.error.fieldErrors == FieldErrorMap(errs)
  {
    var e := Handle(ValidationFailed(errs));
    Reply(e.status, Some(Invalid(e.body)))
  }

  /** GET /books: 200 and every stored book, in repository order. */
  function GetAll(s: Store): (r: Reply<Body>)
    requires Valid(s)
    ensures r.status == OK && r.body.Some? && r.body.value.Many?
    ensures |r.body.value.books| == |s.books.order| == |s.books.rows|
    ensures forall i :: 0 <= i < |r.body.value.books| ==>
      r.body.value.books[i] == BookService.Shown(s, s.books.order[i])
  {
    Tables.OrderCountsRows(s.books);
    var books := FindAllBooks(s);
    Reply(OK, Some(Many(seq(|books|, i requires 0 <= i < |books| => FromEntity(books[i])))))
  }

  /** GET /books/{id}: 200 and the book, or 404 with no body. */
  function GetById(s: Store, id: Id): (r: Reply<Body>)
    ensures r.status == OK <==> id in s.books.rows
    ensures id !in s.books.rows ==> r == Reply(NOT_FOUND, None)
    ensures Linked(s, id) ==> r == Reply(OK, Some(One(BookService.Shown(s, id))))
  {
    match FindBookById(s, id)
    case Some(book) => Reply(OK, Some(One(FromEntity(book))))
    case None => Reply(NOT_FOUND, None)
  }

  /** POST /books: 400 for an unknown author with nothing saved, otherwise
      201 and one new book with the request's title and that author. */
  function Post(s: Store, req: BookRequest): (r: (Reply<Body>, Store))
    requires Valid(s)
    ensures r.0.status != CREATED ==> r.1 == s
    ensures ValidateBook(req) != [] ==> r.0 == Rejected(ValidateBook(req))
    ensures ValidateBook(req) == [] && req.authorId.value !in s.authors.rows ==> r.0 == Reply(BAD_REQUEST, None)
    ensures r.0.status == CREATED <==> ValidateBook(req) == [] && req.authorId.value in s.authors.rows
    ensures r.0.status == CREATED ==>
      && r.0.body.Some? && r.0.body.value.One?
      && var n := r.0.body.value.book.id;
      && n.Some? && n.value !in s.books.rows
      && r.1.books.rows == s.books.rows[n.value := BookRow(req.title, req.authorId)]
      && r.1.authors == s.authors
      && r.0.body.value.book == BookService.Shown(r.1, n.value)
    ensures Valid(r.1)
  {
    var errs := ValidateBook(req);
    if errs != [] then (Rejected(errs), s)
    else PostValid(s, req)
  }

  /** The body of POST /books once the request has passed validation. */
  function PostValid(s: Store, req: BookRequest): (r: (Reply<Body>, Store))
    requires Valid(s) && req.authorId.Some?
    ensures r.0.status != CREATED ==> r.1 == s
    ensures req.authorId.value !in s.authors.rows ==> r.0 == Reply(BAD_REQUEST, None)
    ensures r.0.status == CREATED <==> req.authorId.value in s.authors.rows
    ensures r.0.status == CREATED ==>
      && r.0.body.Some? && r.0.body.value.One?
      && var n := r.0.body.value.book.id;
      && n.Some? && n.value !in s.books.rows
      && r.1.books.rows == s.books.rows[n.value := BookRow(req.title, req.authorId)]
      && r.1.authors == s.authors
      && r.0.body.value.book == BookService.Shown(r.1, n.value)
    ensures Valid(r.1)
  {
    match FindAuthorById(s, req.authorId.value)
    case None => (Reply(BAD_REQUEST, None), s)
    case Some(author) =>
      var book := SetAuthor(SetTitle(NewBook(), req.title), Some(author));
      var (s', saved) := SaveBook(s, book);
      assert Linked(s', saved.id.value);
      (Reply(CREATED, Some(One(FromEntity(saved)))), s')
  }

  /** PUT /books/{id}: 404 for a missing book (checked before the author),
      400 for an unknown author, otherwise 200 with title and author
      replaced. */
  function Put(s: Store, id: Id, req: BookRequest): (r: (Reply<Body>, Store))
    requires Valid(s)
    ensures r.0.status != OK ==> r.1 == s
    ensures ValidateBook(req) != [] ==> r.0 == Rejected(ValidateBook(req))
    ensures ValidateBook(req) == [] && id !in s.books.rows ==> r.0 == Reply(NOT_FOUND, None)
    ensures (ValidateBook(req) == [] && id in s.books.rows && req.authorId.value !in s.authors.rows) ==>
      r.0 == Reply(BAD_REQUEST, None)
    ensures r.0.status == OK <==>
      ValidateBook(req) == [] && id in s.books.rows && req.authorId.value in s.authors.rows
    ensures r.0.status == OK ==>
      && r.1.books.rows == s.books.rows[id := BookRow(req.title, req.authorId)]
      && r.1.books.order == s.books.order
      && r.1.authors == s.authors
      && r.0.body == Some(One(BookService.Shown(r.1, id)))
    ensures Valid(r.1)
  {
    var errs := ValidateBook(req);
    if errs != [] then (Rejected(errs), s)
    else PutValid(s, id, req)
  }

  /** The body of PUT /books/{id} once the request has passed validation. */
  function PutValid(s: Store, id: Id, req: BookRequest): (r: (Reply<Body>, Store))
    requires Valid(s) && req.authorId.Some?
    ensures r.0.status != OK ==> r.1 == s
    ensures id !in s.books.rows ==> r.0 == Reply(NOT_FOUND, None)
    ensures id in s.books.rows && req.authorId.value !in s.authors.rows ==> r.0 == Reply(BAD_REQUEST, None)
    ensures r.0.status == OK <==> id in s.books.rows && req.authorId.value in s.authors.rows
    ensures r.0.status == OK ==>
      && r.1.books.rows == s.books.rows[id := BookRow(req.title, req.authorId)]
      && r.1.books.order == s.books.order
      && r.1.authors == s.authors
      && r.0.body == Some(One(BookService.Shown(r.1, id)))
    ensures Valid(r.1)
  {
    match FindBookById(s, id)
    case None => (Reply(NOT_FOUND, None), s)
    case Some(book) =>
      match FindAuthorById(s, req.authorId.value)
      case None => (Reply(BAD_REQUEST, None), s)
      case Some(author) =>
        var (s', saved) := SaveBook(s, SetAuthor(SetTitle(book, req.title), Some(author)));
        assert Linked(s', id);
        (Reply(OK, Some(One(FromEntity(saved)))), s')
  }

  /** DELETE /books/{id}: 404 and nothing deleted when absent, otherwise 204
      and exactly that book removed. */
  function Delete(s: Store, id: Id): (r: (Reply<Body>, Store))
    requires Valid(s)
    ensures id !in s.books.rows ==> r.0 == Reply(NOT_FOUND, None) && r.1 == s
    ensures id in s.books.rows ==>
      && r.0 == Reply(NO_CONTENT, None)
      && r.1.books.rows == s.books.rows - {id}
      && r.1.authors == s.authors
    ensures Valid(r.1)
  {
    if !Tables.Exists(s.books, id) then (Reply(NOT_FOUND, None), s)
    else (Reply(NO_CONTENT, None), DeleteBookById(s, id))
  }

  /** After a successful DELETE, a GET of the same id is 404. */
  lemma DeleteThenGet(s: Store, id: Id)
    requires Valid(s) && id in s.books.rows
    ensures var (r, s') := Delete(s, id);
      r.status == NO_CONTENT && GetById(s', id) == Reply(NOT_FOUND, None)
  {
  }

  /** GET /books/{id} says what the service's getBookById says: 200 with
      the same response, or 404 where the service reports not found. */
  lemma GetByIdAgreesWithService(s: Store, id: Id)
    requires Valid(s)
    ensures var r, c := BookService.GetBookById(s, Some(id)), GetById(s, id);
      (r.Ok? <==> c.status == OK)
      && (r.Ok? ==> c.body == Some(One(r.value)))
      && (r.Err? ==> c.status == Handle(r.failure).status)
  {
    if id in s.books.rows {
      assert Linked(s, id);
    }
  }

  /** For a valid body, POST /books makes the same change to the store as
      the service's createBook, and answers 201 with the response that
      createBook returns, or 400 where createBook fails. */
  lemma PostAgreesWithService(s: Store, req: BookRequest)
    requires Valid(s) && ValidateBook(req) == []
    ensures var (r, s1) := BookService.CreateBook(s, Some(req));
      var (c, s2) := Post(s, req);
      s1.books.rows == s2.books.rows && s1.authors == s2.authors
      && (r.Ok? <==> c.status == CREATED)
      && (r.Ok? ==> c.body == Some(One(r.value)))
      && (r.Err? ==> c.status == Handle(r.failure).status)
  {
  }

  /** For a valid body, PUT /books/{id} makes the same change to the store
      as the service's updateBook, and its status is the one the exception
      handler gives the service's failure. */
  lemma PutAgreesWithService(s: Store, id: Id, req: BookRequest)
    requires Valid(s) && ValidateBook(req) == []
    ensures var (r, s1) := BookService.UpdateBook(s, Some(id), Some(req));
      var (c, s2) := Put(s, id, req);
      s1 == s2
      && (r.Ok? <==> c.status == OK)
      && (r.Ok? ==> c.body == Some(One(r.value)))
      && (r.Err? ==> c.status == Handle(r.failure).status)
  {
  }
}
