/** The relational store behind AuthorRepository and BookRepository: an
    author table (id to name) and a book table (id to title and author_id
    join column). Entities are views of rows; the repository operations
    (findAll, findById, existsById, save, deleteById) are functions from a
    store to a new store. Deleting an author cascades to its books. */
module Store {
  import opened Wrappers
  import opened Text
  import Tables
  import opened Model

  datatype AuthorRow = AuthorRow(name: Str)

  datatype BookRow = BookRow(title: Str, author: Option<Id>)

  datatype Store = Store(authors: Tables.Table<AuthorRow>, books: Tables.Table<BookRow>)

  /** Book k is stored and links to an author that is stored. */
  predicate Linked(s: Store, k: Id) {
    k in s.books.rows && s.books.rows[k].author.Some? && s.books.rows[k].author.value in s.authors.rows
  }

  /** No stored book is orphaned. */
  ghost predicate NoOrphans(s: Store) {
    forall k :: k in s.books.rows ==> Linked(s, k)
  }

  ghost predicate Valid(s: Store) {
    Tables.Valid(s.authors) && Tables.Valid(s.books) && NoOrphans(s)
  }

  function Empty(): (s: Store)
    ensures Valid(s)
    ensures s.authors.rows == map[] && s.books.rows == map[]
  {
    Store(Tables.Empty(), Tables.Empty())
  }

  /** The author reached through a book's many-to-one link: its id and name.
      The inverse collection is not followed from this side (None), which
      keeps entity values finite. */
  function AuthorLink(s: Store, aid: Id): (r: Option<Author>)
    ensures r.Some? <==> aid in s.authors.rows
    ensures r.Some? ==> r.value.id == Some(aid) && r.value.name == s.authors.rows[aid].name
  {
    if aid in s.authors.rows then Some(Author(Some(aid), s.authors.rows[aid].name, None)) else None
  }

  /** The Book entity a stored row loads as. */
  function BookEntity(s: Store, bid: Id): (b: Book)
    requires bid in s.books.rows
  {
    var row := s.books.rows[bid];
    Book(Some(bid), row.title, if row.author.Some? then AuthorLink(s, row.author.value) else None)
  }

  /** The ids of the books whose author_id is aid. */
  function OwnedIds(s: Store, aid: Id): set<Id> {
    set k | k in s.books.rows && s.books.rows[k].author == Some(aid)
  }

  /** An author's collection (mappedBy "author"): the books linking to it,
      in book-table order. */
  function BooksOf(s: Store, aid: Id): (r: seq<Book>)
    ensures forall i :: 0 <= i < |r| ==>
      r[i].id.Some? && r[i].id.value in OwnedIds(s, aid) && r[i] == BookEntity(s, r[i].id.value)
  {
    var ids := BookIdsOf(s, aid);
    seq(|ids|, i requires 0 <= i < |ids| => BookEntity(s, ids[i]))
  }

  /** The ids of an author's collection, in book-table order. */
  function BookIdsOf(s: Store, aid: Id): (ids: seq<Id>)
    ensures forall i :: 0 <= i < |ids| ==> ids[i] in OwnedIds(s, aid)
    ensures OwnedIds(s, aid) == {} ==> ids == []
  {
    Tables.Keep(s.books.order, OwnedIds(s, aid))
  }

  /** mappedBy "author": an author's collection holds exactly the stored
      books that link to it, each once. */
  lemma CollectionIsLinkedBooks(s: Store, aid: Id)
    requires Tables.Valid(s.books)
    ensures forall k :: k in s.books.rows && s.books.rows[k].author == Some(aid) <==>
      exists i :: 0 <= i < |BooksOf(s, aid)| && BooksOf(s, aid)[i].id == Some(k)
    ensures forall i, j :: 0 <= i < j < |BooksOf(s, aid)| ==> BooksOf(s, aid)[i].id != BooksOf(s, aid)[j].id
  {
    var ids := BookIdsOf(s, aid);
    var r := BooksOf(s, aid);
    assert forall i :: 0 <= i < |r| ==> r[i].id == Some(ids[i]);
    forall k | k in s.books.rows && s.books.rows[k].author == Some(aid)
      ensures exists i :: 0 <= i < |r| && r[i].id == Some(k)
    {
      assert k in ids;
      var i :| 0 <= i < |ids| && ids[i] == k;
      assert r[i].id == Some(k);
    }
  }

  /** bookRepository.findById: present exactly for a stored id; the book
      carries that id, its title, and its author's id and current name. */
  function FindBookById(s: Store, id: Id): (r: Option<Book>)
    ensures r.Some? <==> id in s.books.rows
    ensures r.Some? ==> r.value == BookEntity(s, id)
    ensures r.Some? ==> r.value.id == Some(id) && r.value.title == s.books.rows[id].title
    ensures Linked(s, id) ==>
      && AuthorIdOf(r.value) == s.books.rows[id].author
      && r.value.author.value.name == s.authors.rows[s.books.rows[id].author.value].name
  {
    if id in s.books.rows then Some(BookEntity(s, id)) else None
  }

  /** bookRepository.findAll: every stored book exactly once, in table
      order. */
  function FindAllBooks(s: Store): (r: seq<Book>)
    requires Tables.Valid(s.books)
    ensures |r| == |s.books.order| == |s.books.rows|
    ensures forall i :: 0 <= i < |r| ==> r[i] == BookEntity(s, s.books.order[i])
    ensures forall k :: k in s.books.rows <==> exists i :: 0 <= i < |r| && r[i].id == Some(k)
    ensures forall i, j :: 0 <= i < j < |r| ==> r[i].id != r[j].id
  {
    Tables.OrderCountsRows(s.books);
    var r := seq(|s.books.order|, i requires 0 <= i < |s.books.order| => BookEntity(s, s.books.order[i]));
    assert forall i :: 0 <= i < |r| ==> r[i].id == Some(s.books.order[i]);
    forall k | k in s.books.rows
      ensures exists i :: 0 <= i < |r| && r[i].id == Some(k)
    {
      var i :| 0 <= i < |s.books.order| && s.books.order[i] == k;
      assert r[i].id == Some(k);
    }
    r
  }

  /** The Author entity a stored row loads as, with its collection. */
  function AuthorEntity(s: Store, aid: Id): (a: Author)
    requires aid in s.authors.rows
  {
    Author(Some(aid), s.authors.rows[aid].name, Some(BooksOf(s, aid)))
  }

  /** authorRepository.findById: present exactly for a stored id; the
      author carries that id, its name and its collection. */
  function FindAuthorById(s: Store, id: Id): (r: Option<Author>)
    ensures r.Some? <==> id in s.authors.rows
    ensures r.Some? ==> r.value == AuthorEntity(s, id)
    ensures r.Some? ==>
      r.value.id == Some(id) && r.value.name == s.authors.rows[id].name && r.value.books == Some(BooksOf(s, id))
  {
    if id in s.authors.rows then Some(AuthorEntity(s, id)) else None
  }

  /** authorRepository.findAll: every stored author exactly once, in table
      order. */
  function FindAllAuthors(s: Store): (r: seq<Author>)
    requires Tables.Valid(s.authors)
    ensures |r| == |s.authors.order| == |s.authors.rows|
    ensures forall i :: 0 <= i < |r| ==> r[i] == AuthorEntity(s, s.authors.order[i])
    ensures forall k :: k in s.authors.rows <==> exists i :: 0 <= i < |r| && r[i].id == Some(k)
    ensures forall i, j :: 0 <= i < j < |r| ==> r[i].id != r[j].id
  {
    Tables.OrderCountsRows(s.authors);
    var r := seq(|s.authors.order|, i requires 0 <= i < |s.authors.order| => AuthorEntity(s, s.authors.order[i]));
    assert forall i :: 0 <= i < |r| ==> r[i].id == Some(s.authors.order[i]);
    forall k | k in s.authors.rows
      ensures exists i :: 0 <= i < |r| && r[i].id == Some(k)
    {
      var i :| 0 <= i < |s.authors.order| && s.authors.order[i] == k;
      assert r[i].id == Some(k);
    }
    r
  }

  /** bookRepository.save: a Book without id is inserted under a fresh id
      and returned with it; a stored one is overwritten in place. */
  function SaveBook(s: Store, b: Book): (r: (Store, Book))
    requires Tables.Valid(s.books)
    requires b.id.Some? ==> b.id.value in s.books.rows
    requires b.author.Some? ==> b.author.value.id.Some? && b.author.value.id.value in s.authors.rows
    ensures r.0.authors == s.authors
    ensures r.1.id.Some? && r.1 == b.(id := r.1.id)
    ensures r.0.books.rows == s.books.rows[r.1.id.value := BookRow(b.title, AuthorIdOf(b))]
    ensures b.id.None? ==> r.1.id.value !in s.books.rows
    ensures b.id.Some? ==> r.1.id == b.id && r.0.books.order == s.books.order
    ensures Tables.Valid(r.0.books)
  {
    var row := BookRow(b.title, AuthorIdOf(b));
    if b.id.None? then
      var (t, id) := Tables.Insert(s.books, row);
      (s.(books := t), b.(id := Some(id)))
    else
      (s.(books := Tables.Update(s.books, b.id.value, row)), b)
  }

  /** authorRepository.save: as SaveBook, writing the author's name. The
      collection cascades on save, so it is taken to be null or exactly
      the collection as loaded, whose books cascading writes back
      unchanged. Saving a stored author with its collection returns the
      managed entity, whose books link back to it under its new name. */
  function SaveAuthor(s: Store, a: Author): (r: (Store, Author))
    requires Tables.Valid(s.authors)
    requires a.id.Some? ==> a.id.value in s.authors.rows
    requires a.books.None? || (a.id.Some? && a.books == Some(BooksOf(s, a.id.value)))
    ensures r.0.books == s.books
    ensures r.1.id.Some? && r.1.name == a.name
    ensures r.0.authors.rows == s.authors.rows[r.1.id.value := AuthorRow(a.name)]
    ensures a.id.None? ==> r.1.id.value !in s.authors.rows
    ensures a.id.Some? ==> r.1.id == a.id && r.0.authors.order == s.authors.order
    ensures a.books.None? ==> r.1 == a.(id := r.1.id)
    ensures a.books.Some? ==> r.1 == AuthorEntity(r.0, r.1.id.value)
    ensures Tables.Valid(r.0.authors)
  {
    var row := AuthorRow(a.name);
    if a.id.None? then
      var (t, id) := Tables.Insert(s.authors, row);
      (s.(authors := t), a.(id := Some(id)))
    else
      var s' := s.(authors := Tables.Update(s.authors, a.id.value, row));
      (s', if a.books.Some? then AuthorEntity(s', a.id.value) else a)
  }

  /** Saving a book just as it was loaded writes nothing: the store and
      the entity come back unchanged. */
  lemma SaveLoadedBookChangesNothing(s: Store, id: Id)
    requires Valid(s) && id in s.books.rows
    ensures var b := FindBookById(s, id).value;
      SaveBook(s, b) == (s, b)
  {
    assert Linked(s, id);
    assert s.books.rows[id := s.books.rows[id]] == s.books.rows;
  }

  /** Saving an author just as it was loaded writes nothing. */
  lemma SaveLoadedAuthorChangesNothing(s: Store, id: Id)
    requires Valid(s) && id in s.authors.rows
    ensures var a := FindAuthorById(s, id).value;
      SaveAuthor(s, a) == (s, a)
  {
    assert s.authors.rows[id := s.authors.rows[id]] == s.authors.rows;
  }

  /** bookRepository.deleteById: removes that book, or does nothing when it
      is absent. */
  function DeleteBookById(s: Store, id: Id): (r: Store)
    ensures r.authors == s.authors
    ensures r.books.rows == s.books.rows - {id}
    ensures Valid(s) ==> Valid(r)
    ensures Valid(s) && id !in s.books.rows ==> r == s
  {
    s.(books := Tables.Delete(s.books, id))
  }

  /** authorRepository.deleteById: when the author is stored, removes it
      and, by cascade, every book linking to it; otherwise does nothing. */
  function DeleteAuthorById(s: Store, id: Id): (r: Store)
    ensures id !in s.authors.rows ==> r == s
    ensures id in s.authors.rows ==> r.authors.rows == s.authors.rows - {id}
    ensures id in s.authors.rows ==>
      forall k :: k in r.books.rows <==> k in s.books.rows && s.books.rows[k].author != Some(id)
    ensures forall k :: k in r.books.rows ==> r.books.rows[k] == s.books.rows[k]
    ensures id in s.authors.rows ==> forall k :: k in r.books.rows ==> r.books.rows[k].author != Some(id)
    ensures Valid(s) ==> Valid(r)
  {
    if id in s.authors.rows then
      Store(Tables.Delete(s.authors, id), Tables.Restrict(s.books, s.books.rows.Keys - OwnedIds(s, id)))
    else
      s
  }
}
