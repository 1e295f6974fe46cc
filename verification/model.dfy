/** The two JPA entities. An Author owns a collection of Books (the inverse
    side of Book.author, cascade ALL); a Book links to at most one Author,
    and many Books may link to the same one. Ids are absent until the store
    assigns them. */
module Model {
  import opened Wrappers
  import opened Text
  import Tables

  type Id = Tables.Id

  /** books is None while the collection is null, as on a freshly
      constructed Author. */
  datatype Author = Author(id: Option<Id>, name: Str, books: Option<seq<Book>>)

  datatype Book = Book(id: Option<Id>, title: Str, author: Option<Author>)

  /** new Author(): every field null. */
  function NewAuthor(): (a: Author)
    ensures a.id.None? && a.name.None? && a.books.None?
  {
    Author(None, None, None)
  }

  /** new Author(name): only the name is set. */
  function NamedAuthor(name: Str): (a: Author)
    ensures a.name == name
    ensures a.id.None? && a.books.None?
  {
    Author(None, name, None)
  }

  /** setName changes the name and nothing else. */
  function SetName(a: Author, name: Str): (r: Author)
    ensures r.name == name
    ensures r.id == a.id && r.books == a.books
  {
    a.(name := name)
  }

  /** setBooks changes the collection and nothing else. */
  function SetBooks(a: Author, books: Option<seq<Book>>): (r: Author)
    ensures r.books == books
    ensures r.id == a.id && r.name == a.name
  {
    a.(books := books)
  }

  /** new Book(): every field null. */
  function NewBook(): (b: Book)
    ensures b.id.None? && b.title.None? && b.author.None?
  {
    Book(None, None, None)
  }

  /** new Book(title, author): title and author set, id absent. */
  function TitledBook(title: Str, author: Option<Author>): (b: Book)
    ensures b.title == title && b.author == author
    ensures b.id.None?
  {
    Book(None, title, author)
  }

  /** setTitle changes the title and nothing else. */
  function SetTitle(b: Book, title: Str): (r: Book)
    ensures r.title == title
    ensures r.id == b.id && r.author == b.author
  {
    b.(title := title)
  }

  /** setAuthor changes the author link and nothing else. */
  function SetAuthor(b: Book, author: Option<Author>): (r: Book)
    ensures r.author == author
    ensures r.id == b.id && r.title == b.title
  {
    b.(author := author)
  }

  /** The author_id join column a Book entity is written with. */
  function AuthorIdOf(b: Book): Option<Id> {
    if b.author.Some? then b.author.value.id else None
  }
}
