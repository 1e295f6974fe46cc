/** AuthorServiceImpl over the abstract store: not-found guards, an update
    that rewrites only the name, a delete that cascades to the author's
    books, and the mapping to AuthorResponse. */
module AuthorService {
  import opened Wrappers
  import opened Text
  import Tables
  import opened Model
  import opened Store
  import opened Errors
  import opened Requests
  import opened Responses

  /** The titles of a sequence of books, in order. */
  function Titles(books: seq<Book>): (t: seq<Str>)
    ensures |t| == |books|
    ensures forall i :: 0 <= i < |t| ==> t[i] == books[i].title
  {
    seq(|books|, i requires 0 <= i < |books| => books[i].title)
  }

  /** mapToResponse: id and name copied; the titles of the author's books in
      collection order, and the empty list (never null) when the collection
      is null. */
  function MapToResponse(a: Author): (r: AuthorResponse)
    ensures r.id == a.id && r.name == a.name
    ensures a.books.None? ==> r.bookTitles == []
    ensures a.books.Some? ==> r.bookTitles == Titles(a.books.value)
  {
    var bookTitles := if a.books.Some? then Titles(a.books.value) else [];
    AuthorResponse(a.id, a.name, bookTitles)
  }

  /** How a stored author reads in the API, straight off the rows: its id,
      its name, and the titles of the books linking to it in book-table
      order. */
  function AuthorShown(s: Store, aid: Id): AuthorResponse
    requires aid in s.authors.rows
  {
    var ids := BookIdsOf(s, aid);
    AuthorResponse(Some(aid), s.authors.rows[aid].name,
      seq(|ids|, i requires 0 <= i < |ids| => s.books.rows[ids[i]].title))
  }

  /** Loading a stored author and mapping it gives its row view. */
  lemma LoadedAuthorIsShown(s: Store, aid: Id)
    requires aid in s.authors.rows
    ensures MapToResponse(AuthorEntity(s, aid)) == AuthorShown(s, aid)
  {
    var ids := BookIdsOf(s, aid);
    var books := BooksOf(s, aid);
    assert |books| == |ids|;
    assert forall i :: 0 <= i < |ids| ==> books[i].title == s.books.rows[ids[i]].title;
  }

  /** getAllAuthors: every stored author mapped, in repository order. */
  function GetAllAuthors(s: Store): (r: seq<AuthorResponse>)
    requires Valid(s)
    ensures |r| == |s.authors.order| == |s.authors.rows|
    ensures forall i :: 0 <= i < |r| ==> r[i] == AuthorShown(s, s.authors.order[i])
  {
    Tables.OrderCountsRows(s.authors);
    var authors := FindAllAuthors(s);
    var r := seq(|authors|, i requires 0 <= i < |authors| => MapToResponse(authors[i]));
    assert forall i :: 0 <= i < |r| ==> r[i] == AuthorShown(s, s.authors.order[i]) by {
      forall i | 0 <= i < |r|
        ensures r[i] == AuthorShown(s, s.authors.order[i])
      {
        LoadedAuthorIsShown(s, s.authors.order[i]);
      }
    }
    r
  }

  /** getAuthorById. */
  function GetAuthorById(s: Store, id: Id): (r: Result<AuthorResponse>)
    ensures id !in s.authors.rows ==> r == Err(NotFound(AuthorNotFound(id)))
    ensures id in s.authors.rows ==> r == Ok(AuthorShown(s, id))
  {
    match FindAuthorById(s, id)
    case None => Err(NotFound(AuthorNotFound(id)))
    case Some(author) =>
      LoadedAuthorIsShown(s, id);
      Ok(MapToResponse(author))
  }

  /** createAuthor: a new Author carrying only the request's name is saved
      under a fresh id; its collection is still null, so no titles. */
  function CreateAuthor(s: Store, req: AuthorRequest): (r: (AuthorResponse, Store))
    requires Valid(s)
    ensures r.0.id.Some? && r.0.id.value !in s.authors.rows
    ensures r.1.authors.rows == s.authors.rows[r.0.id.value := AuthorRow(req.name)]
    ensures r.1.books == s.books
    ensures r.0.name == req.name && r.0.bookTitles == []
    ensures Valid(r.1)
  {
    var author := SetName(NewAuthor(), req.name);
    var (s', saved) := SaveAuthor(s, author);
    (MapToResponse(saved), s')
  }

  /** updateAuthor: only the name changes; the id and the author's books
      stay. */
  function UpdateAuthor(s: Store, id: Id, req: AuthorRequest): (r: (Result<AuthorResponse>, Store))
    requires Valid(s)
    ensures id !in s.authors.rows ==> r.0 == Err(NotFound(AuthorNotFound(id))) && r.1 == s
    ensures id in s.authors.rows ==>
      && r.1.authors.rows == s.authors.rows[id := AuthorRow(req.name)]
      && r.1.authors.order == s.authors.order
      && r.1.books == s.books
      && r.0 == Ok(AuthorShown(r.1, id))
      && r.0.value.bookTitles == AuthorShown(s, id).bookTitles
    ensures Valid(r.1)
  {
    match FindAuthorById(s, id)
    case None => (Err(NotFound(AuthorNotFound(id))), s)
    case Some(author) =>
      var (s', saved) := SaveAuthor(s, SetName(author, req.name));
      LoadedAuthorIsShown(s', id);
      assert BookIdsOf(s', id) == BookIdsOf(s, id);
      (Ok(MapToResponse(saved)), s')
  }

  /** deleteAuthor: not found when absent; otherwise the author and, by
      cascade, all of its books are removed. */
  function DeleteAuthor(s: Store, id: Id): (r: (Result<()>, Store))
    requires Valid(s)
    ensures id !in s.authors.rows ==> r.0 == Err(NotFound(AuthorNotFound(id))) && r.1 == s
    ensures id in s.authors.rows ==>
      && r.0 == Ok(())
      && r.1.authors.rows == s.authors.rows - {id}
      && (forall k :: k in r.1.books.rows <==> k in s.books.rows && s.books.rows[k].author != Some(id))
      && (forall k :: k in r.1.books.rows ==> r.1.books.rows[k] == s.books.rows[k])
    ensures Valid(r.1)
  {
    if !Tables.Exists(s.authors, id) then (Err(NotFound(AuthorNotFound(id))), s)
    else (Ok(()), DeleteAuthorById(s, id))
  }

  /** A new author reads back with the request's name and no books. */
  lemma CreateThenGet(s: Store, req: AuthorRequest)
    requires Valid(s)
    ensures var (r, s') := CreateAuthor(s, req);
      GetAuthorById(s', r.id.value) == Ok(r)
  {
    var (r, s') := CreateAuthor(s, req);
    var n := r.id.value;
    assert OwnedIds(s', n) == {} by {
      forall k | k in s'.books.rows
        ensures s'.books.rows[k].author != Some(n)
      {
        assert Linked(s, k);
      }
    }
    assert BookIdsOf(s', n) == [];
  }

  /** After an author is deleted, none of its books can be found, and every
      other book reads as before. */
  lemma DeleteCascades(s: Store, id: Id, k: Id)
    requires Valid(s) && id in s.authors.rows && k in s.books.rows
    ensures var (_, s') := DeleteAuthor(s, id);
      s.books.rows[k].author == Some(id) ==> FindBookById(s', k).None?
    ensures var (_, s') := DeleteAuthor(s, id);
      s.books.rows[k].author != Some(id) ==> FindBookById(s', k) == FindBookById(s, k)
  {
    var (_, s') := DeleteAuthor(s, id);
    assert Linked(s, k);
  }
}
