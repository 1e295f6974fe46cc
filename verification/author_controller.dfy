/** AuthorController: the /authors handlers, working on the
    repository directly and returning entities. Spring answers 200 for
    every one of them; a null return value gives an empty body. Nothing is
    an error here: a missing author reads as null, an update of a missing
    author does nothing and returns null, and a delete of a missing author
    is a silent no-op. */
module AuthorController {
  import opened Wrappers
  import opened Text
  import Tables
  import opened Model
  import opened Store
  import opened Errors
  import opened Http
  import AuthorService
  import Requests

  /** GET /authors: every stored author entity, in repository order. */
  function GetAll(s: Store): (r: Reply<seq<Author>>)
    requires Valid(s)
    ensures r.status == OK && r.body.Some?
    ensures |r.body.value| == |s.authors.order| == |s.authors.rows|
    ensures forall i :: 0 <= i < |r.body.value| ==>
      r.body.value[i].id == Some(s.authors.order[i])
      && r.body.value[i].name == s.authors.rows[s.authors.order[i]].name
      && r.body.value[i].books == Some(BooksOf(s, s.authors.order[i]))
  {
    Tables.OrderCountsRows(s.authors);
    Reply(OK, Some(FindAllAuthors(s)))
  }

  /** GET /authors/{id}: the author, or null (200 with an empty body). */
  function GetById(s: Store, id: Id): (r: Reply<Author>)
    ensures r.status == OK
    ensures r.body.None? <==> id !in s.authors.rows
    ensures r.body.Some? ==>
      r.body.value.id == Some(id) && r.body.value.name == s.authors.rows[id].name
      && r.body.value.books == Some(BooksOf(s, id))
  {
    Reply(OK, FindAuthorById(s, id))
  }

  /** POST /authors: the body is saved as a new author and returned with
      its assigned id; its collection stays null. */
  function Create(s: Store, name: Str): (r: (Reply<Author>, Store))
    requires Valid(s)
    ensures r.0.status == OK && r.0.body.Some?
    ensures r.0.body.value.id.Some? && r.0.body.value.id.value !in s.authors.rows
    ensures r.0.body.value.name == name && r.0.body.value.books.None?
    ensures r.1.authors.rows == s.authors.rows[r.0.body.value.id.value := AuthorRow(name)]
    ensures r.1.books == s.books
    ensures Valid(r.1)
  {
    var (s', saved) := SaveAuthor(s, NamedAuthor(name));
    (Reply(OK, Some(saved)), s')
  }

  /** PUT /authors/{id}: copies only the name from the body onto a stored
      author; for a missing one returns null and saves nothing. */
  function Update(s: Store, id: Id, name: Str): (r: (Reply<Author>, Store))
    requires Valid(s)
    ensures r.0.status == OK
    ensures id !in s.authors.rows ==> r.0.body.None? && r.1 == s
    ensures id in s.authors.rows ==>
      && r.0.body.Some?
      && r.0.body.value.id == Some(id)
      && r.0.body.value.name == name
      && r.1.authors.rows == s.authors.rows[id := AuthorRow(name)]
      && r.0.body == Some(AuthorEntity(r.1, id))
      && r.1.authors.order == s.authors.order
      && r.1.books == s.books
    ensures Valid(r.1)
  {
    match FindAuthorById(s, id)
    case Some(author) =>
      var (s', saved) := SaveAuthor(s, SetName(author, name));
      (Reply(OK, Some(saved)), s')
    case None => (Reply(OK, None), s)
  }

  /** DELETE /authors/{id}: deleteById without an existence check, so a
      missing id is a silent no-op; a stored author goes with its books. */
  function Delete(s: Store, id: Id): (r: (Reply<()>, Store))
    requires Valid(s)
    ensures r.0 == Reply(OK, None)
    ensures id !in s.authors.rows ==> r.1 == s
    ensures id in s.authors.rows ==>
      && r.1.authors.rows == s.authors.rows - {id}
      && (forall k :: k in r.1.books.rows <==> k in s.books.rows && s.books.rows[k].author != Some(id))
    ensures forall k :: k in r.1.books.rows ==> r.1.books.rows[k] == s.books.rows[k]
    ensures Valid(r.1)
  {
    (Reply(OK, None), DeleteAuthorById(s, id))
  }

  /** The controller's delete and the service's differ only on a missing
      author: the same store change when it is stored; otherwise the
      controller answers 200 where the service fails with not found (404). */
  lemma DeleteDiffersFromServiceOnlyWhenAbsent(s: Store, id: Id)
    requires Valid(s)
    ensures var (r, s1) := AuthorService.DeleteAuthor(s, id);
      var (c, s2) := Delete(s, id);
      s1 == s2
      && (id in s.authors.rows <==> r.Ok?)
      && (id !in s.authors.rows ==> c.status == OK && Handle(r.failure).status == NOT_FOUND)
  {
  }

  /** GET /authors/{id} against getAuthorById: the same author when it is
      stored; when it is not, 200 with an empty body where the service
      fails with not found (404). */
  lemma GetByIdDiffersFromServiceOnlyWhenAbsent(s: Store, id: Id)
    ensures var r, c := AuthorService.GetAuthorById(s, id), GetById(s, id);
      c.status == OK
      && (id in s.authors.rows <==> r.Ok?)
      && (r.Ok? ==> c.body.Some? && AuthorService.MapToResponse(c.body.value) == r.value)
      && (r.Err? ==> c.body.None? && Handle(r.failure).status == NOT_FOUND)
  {
  }

  /** PUT /authors/{id} against updateAuthor with the same name: the same
      store change and the same author; for a missing author, 200 with an
      empty body where the service fails with not found (404). */
  lemma UpdateDiffersFromServiceOnlyWhenAbsent(s: Store, id: Id, name: Str)
    requires Valid(s)
    ensures var (r, s1) := AuthorService.UpdateAuthor(s, id, Requests.AuthorRequest(name));
      var (c, s2) := Update(s, id, name);
      s1 == s2 && c.status == OK
      && (id in s.authors.rows <==> r.Ok?)
      && (r.Ok? ==> c.body.Some? && AuthorService.MapToResponse(c.body.value) == r.value)
      && (r.Err? ==> c.body.None? && Handle(r.failure).status == NOT_FOUND)
  {
  }
}
