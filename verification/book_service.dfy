/** BookServiceImpl over the abstract store. Every operation checks its
    arguments for null first, then the book, then the author; a failure
    leaves the store as it was. */
module BookService {
  import opened Wrappers
  import Tables
  import opened Model
  import opened Store
  import opened Errors
  import opened Requests
  import opened Responses

  const NullIdMessage: string := "Book ID cannot be null"
  const NullRequestMessage: string := "BookRequest cannot be null"
  const NullAuthorIdMessage: string := "Author ID cannot be null"

  /** How a stored, linked book reads in the API, straight off the rows:
      its id and title, its author's id and that author's current name. */
  function Shown(s: Store, k: Id): BookResponse
    requires Linked(s, k)
  {
    var row := s.books.rows[k];
    BookResponse(Some(k), row.title, row.author, s.authors.rows[row.author.value].name)
  }

  /** Loading a linked book and mapping it gives its row view. */
  lemma LoadedBookIsShown(s: Store, k: Id)
    requires Linked(s, k)
    ensures FromEntity(BookEntity(s, k)) == Shown(s, k)
  {
  }

  /** getAllBooks: one response per stored book, in repository order. */
  function GetAllBooks(s: Store): (r: seq<BookResponse>)
    requires Valid(s)
    ensures |r| == |s.books.order| == |s.books.rows|
    ensures forall i :: 0 <= i < |r| ==> r[i] == Shown(s, s.books.order[i])
    ensures s.books.rows == map[] ==> r == []
  {
    Tables.OrderCountsRows(s.books);
    var books := FindAllBooks(s);
    seq(|books|, i requires 0 <= i < |books| => FromEntity(books[i]))
  }

  /** getBookById. */
  function GetBookById(s: Store, id: Option<Id>): (r: Result<BookResponse>)
    ensures id.None? ==> r == Err(InvalidArgument(NullIdMessage))
    ensures id.Some? && id.value !in s.books.rows ==> r == Err(NotFound(BookNotFound(id.value)))
    ensures id.Some? && Linked(s, id.value) ==> r == Ok(Shown(s, id.value))
  {
    if id.None? then Err(InvalidArgument(NullIdMessage))
    else
      match FindBookById(s, id.value)
      case None => Err(NotFound(BookNotFound(id.value)))
      case Some(book) => Ok(FromEntity(book))
  }

  /** createBook: null checks, then the author lookup, then one insert. */
  function CreateBook(s: Store, req: Option<BookRequest>): (r: (Result<BookResponse>, Store))
    requires Valid(s)
    ensures r.0.Err? ==> r.1 == s
    ensures req.None? ==> r.0 == Err(InvalidArgument(NullRequestMessage))
    ensures req.Some? && req.value.authorId.None? ==> r.0 == Err(InvalidArgument(NullAuthorIdMessage))
    ensures req.Some? && req.value.authorId.Some? && req.value.authorId.value !in s.authors.rows ==>
      r.0 == Err(InvalidArgument(AuthorNotFound(req.value.authorId.value)))
    ensures r.0.Ok? <==>
      req.Some? && req.value.authorId.Some? && req.value.authorId.value in s.authors.rows
    ensures r.0.Ok? ==>
      && r.0.value.id.Some?
      && r.0.value.id.value !in s.books.rows
      && r.1.books.rows == s.books.rows[r.0.value.id.value := BookRow(req.value.title, req.value.authorId)]
      && r.1.authors == s.authors
      && r.0.value == Shown(r.1, r.0.value.id.value)
    ensures Valid(r.1)
  {
    if req.None? then (Err(InvalidArgument(NullRequestMessage)), s)
    else if req.value.authorId.None? then (Err(InvalidArgument(NullAuthorIdMessage)), s)
    else
      var aid := req.value.authorId.value;
      match FindAuthorById(s, aid)
      case None => (Err(InvalidArgument(AuthorNotFound(aid))), s)
      case Some(author) =>
        var book := SetAuthor(SetTitle(NewBook(), req.value.title), Some(author));
        var (s', saved) := SaveBook(s, book);
        assert Linked(s', saved.id.value);
        (Ok(FromEntity(saved)), s')
  }

  /** updateBook: null checks, then the book, then the author; on success
      the book's title and author are overwritten and nothing else moves. */
  function UpdateBook(s: Store, id: Option<Id>, req: Option<BookRequest>): (r: (Result<BookResponse>, Store))
    requires Valid(s)
    ensures r.0.Err? ==> r.1 == s
    ensures id.None? ==> r.0 == Err(InvalidArgument(NullIdMessage))
    ensures id.Some? && req.None? ==> r.0 == Err(InvalidArgument(NullRequestMessage))
    ensures id.Some? && req.Some? && req.value.authorId.None? ==> r.0 == Err(InvalidArgument(NullAuthorIdMessage))
    ensures id.Some? && req.Some? && req.value.authorId.Some? && id.value !in s.books.rows ==>
      r.0 == Err(NotFound(BookNotFound(id.value)))
    ensures (id.Some? && req.Some? && req.value.authorId.Some? && id.value in s.books.rows
             && req.value.authorId.value !in s.authors.rows) ==>
      r.0 == Err(InvalidArgument(AuthorNotFound(req.value.authorId.value)))
    ensures r.0.Ok? <==>
      id.Some? && req.Some? && req.value.authorId.Some?
      && id.value in s.books.rows && req.value.authorId.value in s.authors.rows
    ensures r.0.Ok? ==>
      && r.1.books.rows == s.books.rows[id.value := BookRow(req.value.title, req.value.authorId)]
      && r.1.books.order == s.books.order
      && r.1.authors == s.authors
      && r.0.value == Shown(r.1, id.value)
    ensures Valid(r.1)
  {
    if id.None? then (Err(InvalidArgument(NullIdMessage)), s)
    else if req.None? then (Err(InvalidArgument(NullRequestMessage)), s)
    else if req.value.authorId.None? then (Err(InvalidArgument(NullAuthorIdMessage)), s)
    else
      var bid, aid := id.value, req.value.authorId.value;
      match FindBookById(s, bid)
      case None => (Err(NotFound(BookNotFound(bid))), s)
      case Some(book) =>
        match FindAuthorById(s, aid)
        case None => (Err(InvalidArgument(AuthorNotFound(aid))), s)
        case Some(author) =>
          var (s', saved) := SaveBook(s, SetAuthor(SetTitle(book, req.value.title), Some(author)));
          assert Linked(s', bid);
          (Ok(FromEntity(saved)), s')
  }

  /** deleteBook: check, then delete exactly that book. */
  function DeleteBook(s: Store, id: Option<Id>): (r: (Result<()>, Store))
    requires Valid(s)
    ensures r.0.Err? ==> r.1 == s
    ensures id.None? ==> r.0 == Err(InvalidArgument(NullIdMessage))
    ensures id.Some? && id.value !in s.books.rows ==> r.0 == Err(NotFound(BookMissing(id.value)))
    ensures r.0.Ok? <==> id.Some? && id.value in s.books.rows
    ensures r.0.Ok? ==> r.1.books.rows == s.books.rows - {id.value} && r.1.authors == s.authors
    ensures Valid(r.1)
  {
    if id.None? then (Err(InvalidArgument(NullIdMessage)), s)
    else if !Tables.Exists(s.books, id.value) then (Err(NotFound(BookMissing(id.value))), s)
    else (Ok(()), DeleteBookById(s, id.value))
  }

  /** A created book reads back as the response that created it, with the
      author's current name. */
  lemma CreateThenGet(s: Store, req: BookRequest)
    requires Valid(s)
    requires req.authorId.Some? && req.authorId.value in s.authors.rows
    ensures var (r, s') := CreateBook(s, Some(req));
      r.Ok? && GetBookById(s', r.value.id) == r
      && r.value.title == req.title && r.value.authorId == req.authorId
      && r.value.authorName == s.authors.rows[req.authorId.value].name
  {
  }

  /** An updated book reads back with the new title and author. */
  lemma UpdateThenGet(s: Store, id: Id, req: BookRequest)
    requires Valid(s)
    requires id in s.books.rows && req.authorId.Some? && req.authorId.value in s.authors.rows
    ensures var (r, s') := UpdateBook(s, Some(id), Some(req));
      r.Ok? && GetBookById(s', Some(id)) == r
      && r.value.title == req.title && r.value.authorId == req.authorId
  {
  }

  /** A deleted book is not found afterwards. */
  lemma DeleteThenGet(s: Store, id: Id)
    requires Valid(s) && id in s.books.rows
    ensures var (r, s') := DeleteBook(s, Some(id));
      r.Ok? && GetBookById(s', Some(id)) == Err(NotFound(BookNotFound(id)))
  {
  }
}
