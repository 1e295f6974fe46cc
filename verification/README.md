# Author/Book referential integrity, modelled in Dafny

This project models the core of a small Spring Boot CRUD service over two
entities, Author and Book. An author owns a collection of books. Each book
links to one author, and many books may share one.

The store is modelled as two tables. The author table maps an id to a name.
The book table maps an id to a title and an `author_id` join column. Each
table also keeps the order `findAll` reports rows in, and its next identity
value. Every operation is a pure function from a store (and its input) to a
result and a new store. Failures are a small datatype: `NotFound`,
`InvalidArgument`, `ValidationFailed` (field errors) and `Unexpected`.

Modules, one per component of the service:

- `Wrappers`: `Option`, standing for Java's `null` and `Optional`.
- `Text`: nullable strings, `String.trim`, and the decimal rendering of a `Long` inside a message.
- `Tables`: one repository table, with the row-level `save` (insert or update), `existsById`, `deleteById` and `findAll` order. The entity-level `findById` lookups are in `Store`.
- `Model`: the `Author` and `Book` entities, their constructors and setters.
- `Store`: the two tables, entity views of rows, the repository operations, and the cascade from author to books.
  The store invariant `Store.Valid` says no stored book is orphaned.
- `Requests`: `BookRequest` and `AuthorRequest`, with their `@NotBlank`/`@NotNull` checks.
- `Responses`: `BookResponse.fromEntity`, `BookDto.toDto` and `AuthorResponse`.
- `Errors`: the failure kinds and `GlobalExceptionHandler` (failure kind to status and error envelope).
- `Http`: status codes and replies.
- `BookService`, `AuthorService`: `BookServiceImpl` and `AuthorServiceImpl`.
- `BookController`, `AuthorController`: the `/books` and `/authors` handlers.

Every write operation of the services and controllers is proved to keep
`Store.Valid`, and so every book keeps a stored author. That holds for the
operations as modelled: the author controller's POST is reduced to the
author's name (see "Left out"), and the program's cascade-persist of a
`books` list sent in that body is the one path to a book without an author.
The author controller answers a lookup or update of a missing author with
null and status 200, and its DELETE does not check that the author exists.
It is modelled as written, next to the service. Three lemmas state where its
lookup, update and delete differ from the service's: only on a missing
author.

Facts about the code that the model keeps:

- The author controller never answers 201 or 404. Its status is 200 for POST, for a lookup of a missing author and for DELETE.
  DELETE of a missing author is a silent no-op.
  A body that cannot be serialised is a separate matter, listed under "Left out".
- The fallback name for a book without an author is "Nepoznat autor".
- The author controller does not validate the name it receives.

Modelling choices:

- `Text.Str` (`Option<string>`) stands for a nullable Java `String`. Ids are unbounded `int`s.
- `@NotBlank` means "not null, and non-empty after `String.trim`". `String.trim` strips every character up to U+0020.
  `Requests.NotBlankIffVisibleChar` proves this equals "holds a character above U+0020".
- A JPA entity graph is cyclic. Here, the author reached through a book carries its id and name, and its collection is `None`.
  Loading an author fills in its collection: the books whose `author_id` is that author, in book-table order.
- Constructors of the request and response records are the datatypes' own constructors.

## Model

| member | source | states |
|---|---|---|
| `Model.NewAuthor` | src/main/java/com/teodora/demo/model/Author.java:21 | a no-argument Author has null id, name and collection |
| `Model.NamedAuthor` | src/main/java/com/teodora/demo/model/Author.java:23-25 | `new Author(name)` sets only the name; id and collection stay null |
| `Model.SetName` | src/main/java/com/teodora/demo/model/Author.java:37-39 | `setName` changes the name; id and collection are unchanged |
| `Model.SetBooks` | src/main/java/com/teodora/demo/model/Author.java:45-47 | `setBooks` changes the collection; id and name are unchanged |
| `Model.NewBook` | src/main/java/com/teodora/demo/model/Book.java:19 | a no-argument Book has null id, title and author |
| `Model.TitledBook` | src/main/java/com/teodora/demo/model/Book.java:21-24 | `new Book(title, author)` sets title and author; the id stays null until saved |
| `Model.SetTitle` | src/main/java/com/teodora/demo/model/Book.java:36-38 | `setTitle` changes only the title |
| `Model.SetAuthor` | src/main/java/com/teodora/demo/model/Book.java:44-46 | `setAuthor` changes only the author link |
| `Store.CollectionIsLinkedBooks` | src/main/java/com/teodora/demo/model/Author.java:16-18 | an author's collection holds exactly the stored books whose author is that author, each once |
| `Store.DeleteAuthorById` | src/main/java/com/teodora/demo/model/Author.java:17-18 | removing a stored author removes every book linking to it and no other; the store invariant survives; an absent id changes nothing |
| `Store.SaveBook` | src/test/java/com/teodora/demo/repository/BookRepositoryTest.java:106-156 | save of a new book stores it under a fresh id; save of a stored one overwrites that row only; authors are untouched; the book's author, if any, must be a stored author |
| `Store.SaveAuthor` | src/main/java/com/teodora/demo/repository/AuthorRepository.java:18-19 | save of a new author stores its name under a fresh id; save of a stored one overwrites only its name and returns the managed entity, whose books link back under the new name; books are untouched, for a collection that is null or exactly as loaded |
| `Store.BooksOf` | src/main/java/com/teodora/demo/model/Author.java:17-18 | every book in an author's collection is a stored book linking to that author, loaded as its row |
| `Store.FindBookById` | src/main/java/com/teodora/demo/service/impl/BookServiceImpl.java:63-67 | present exactly for a stored id; the book carries that id, its title, and its author's id and current name |
| `Store.FindAllBooks` | src/main/java/com/teodora/demo/service/impl/BookServiceImpl.java:38 | every stored book exactly once, none other, in table order |
| `Store.FindAuthorById` | src/main/java/com/teodora/demo/service/impl/AuthorServiceImpl.java:35-36 | present exactly for a stored id; the author carries that id, its name and its collection |
| `Store.FindAllAuthors` | src/main/java/com/teodora/demo/service/impl/AuthorServiceImpl.java:27 | every stored author exactly once, none other, in table order |
| `Store.SaveLoadedBookChangesNothing` | src/test/java/com/teodora/demo/repository/BookRepositoryTest.java:132-157 | saving a book exactly as it was loaded leaves the store and the entity unchanged |
| `Store.SaveLoadedAuthorChangesNothing` | src/main/java/com/teodora/demo/service/impl/AuthorServiceImpl.java:49-52 | saving an author exactly as it was loaded leaves the store and the entity unchanged |
| `Tables.Exists` | src/main/java/com/teodora/demo/service/impl/BookServiceImpl.java:196 | existsById holds exactly for the ids findAll lists, all of them issued identities |
| `Text.Trim` | src/main/java/com/teodora/demo/dto/AuthorRequest.java:24 | the trim `@NotBlank` applies: a middle slice of the string, with only trimmable characters cut from either end, beginning and ending with a kept character |
| `Store.DeleteBookById` | src/test/java/com/teodora/demo/repository/BookRepositoryTest.java:188-223 | deleteById removes that book only, and an absent id is a no-op |
| `Text.Decimal` | src/main/java/com/teodora/demo/service/impl/BookServiceImpl.java:66 | `Long.toString` inside the not-found messages: for n >= 0, digits only, denoting n; for n < 0, a minus sign and then digits denoting -n; no leading zero, and 0 renders as "0" |
| `Text.DecimalInjective` | src/main/java/com/teodora/demo/service/impl/BookServiceImpl.java:66 | distinct ids render as distinct strings, so each not-found message names its own id |
| `Requests.NotBlankIffVisibleChar` | src/main/java/com/teodora/demo/dto/AuthorRequest.java:19-24 | a name is valid iff it is non-null and holds a non-whitespace character; null, empty and whitespace-only names are invalid |
| `Requests.ValidateBook` | src/main/java/com/teodora/demo/dto/BookRequest.java:8-12 | a title error iff the title is blank, an authorId error iff the id is null, with the declared messages; no errors iff both hold |
| `Requests.BothViolationsReported` | src/main/java/com/teodora/demo/dto/BookRequest.java:8-12 | the two constraints are independent: breaking both yields an envelope naming both fields |
| `Requests.ValidateAuthor` | src/main/java/com/teodora/demo/dto/AuthorRequest.java:24-25 | one "Name must not be blank" error iff the name is blank |
| `Responses.FromEntity` | src/main/java/com/teodora/demo/dto/BookResponse.java:7-18 | id and title copied; the author's id and name when present, else a null id and "Nepoznat autor"; defined for every book |
| `Responses.ToDto` | src/main/java/com/teodora/demo/model/BookDto.java:5-12 | id and title copied, author id and name taken from the author, which must be present |
| `Responses.ToDtoAgreesWithFromEntity` | src/main/java/com/teodora/demo/model/BookDto.java:5-12 | where `toDto` is defined, it agrees field for field with `fromEntity` |
| `Errors.FieldErrorMap` | src/main/java/com/teodora/demo/exception/GlobalExceptionHandler.java:71-76 | the field map's keys are exactly the fields that have an error |
| `Errors.LastErrorWins` | src/main/java/com/teodora/demo/exception/GlobalExceptionHandler.java:71-76 | for each field the map holds the message of the last error on that field |
| `Errors.Handle` | src/main/java/com/teodora/demo/exception/GlobalExceptionHandler.java:31-104 | 404 iff not found, 400 iff invalid argument or validation failure, 500 iff anything else; each kind's full envelope: its fixed error and details strings, the exception's message (the generic one for 500), and for validation "Validation Failed", "Input validation failed" and the field-error map |
| `Errors.UnexpectedHidesMessage` | src/main/java/com/teodora/demo/exception/GlobalExceptionHandler.java:92-104 | an unexpected failure's reply does not depend on its message |
| `BookService.LoadedBookIsShown` | src/main/java/com/teodora/demo/dto/BookResponse.java:9-16 | a loaded book maps to its id, its title, its author's id and that author's current name |
| `BookService.GetAllBooks` | src/main/java/com/teodora/demo/service/impl/BookServiceImpl.java:35-46 | one response per stored book, in repository order; an empty store gives an empty list |
| `BookService.GetBookById` | src/main/java/com/teodora/demo/service/impl/BookServiceImpl.java:55-80 | a null id fails before any lookup; an absent id is not found with its message; otherwise the mapped book |
| `BookService.CreateBook` | src/main/java/com/teodora/demo/service/impl/BookServiceImpl.java:83-124 | null request, null author id and unknown author fail in that order and write nothing; success adds exactly one book under a fresh id with the request's title and author |
| `BookService.UpdateBook` | src/main/java/com/teodora/demo/service/impl/BookServiceImpl.java:127-184 | null checks, then the book (not found), then the author (invalid argument); failure writes nothing; success overwrites only that book's title and author, keeping its id |
| `BookService.DeleteBook` | src/main/java/com/teodora/demo/service/impl/BookServiceImpl.java:187-211 | a null id is an invalid argument and an absent id is not found, with nothing deleted; otherwise exactly that book goes |
| `BookService.CreateThenGet` | src/main/java/com/teodora/demo/service/impl/BookServiceImpl.java:106-116 | a created book reads back with the request's title and author id, and that author's current name |
| `BookService.UpdateThenGet` | src/main/java/com/teodora/demo/service/impl/BookServiceImpl.java:165-176 | an updated book reads back with the new title and author |
| `BookService.DeleteThenGet` | src/main/java/com/teodora/demo/service/impl/BookServiceImpl.java:194-203 | a deleted book is not found afterwards |
| `AuthorService.MapToResponse` | src/main/java/com/teodora/demo/service/impl/AuthorServiceImpl.java:63-71 | book titles in collection order, and the empty list (never null) when the collection is null |
| `AuthorService.LoadedAuthorIsShown` | src/main/java/com/teodora/demo/service/impl/AuthorServiceImpl.java:63-71 | a loaded author maps to its name and the titles of the books linking to it |
| `AuthorService.GetAllAuthors` | src/main/java/com/teodora/demo/service/impl/AuthorServiceImpl.java:26-31 | every stored author mapped; count and order preserved |
| `AuthorService.GetAuthorById` | src/main/java/com/teodora/demo/service/impl/AuthorServiceImpl.java:34-38 | an absent id is not found with its message; otherwise the mapped author |
| `AuthorService.CreateAuthor` | src/main/java/com/teodora/demo/service/impl/AuthorServiceImpl.java:41-45 | a new author with the request's name under a fresh id; no titles; books untouched |
| `AuthorService.UpdateAuthor` | src/main/java/com/teodora/demo/service/impl/AuthorServiceImpl.java:48-53 | an absent id is not found with nothing written; otherwise only the name changes, and id and books are kept |
| `AuthorService.DeleteAuthor` | src/main/java/com/teodora/demo/service/impl/AuthorServiceImpl.java:56-61 | an absent id is not found with nothing deleted; otherwise the author and exactly its books are removed |
| `AuthorService.CreateThenGet` | src/main/java/com/teodora/demo/service/impl/AuthorServiceImpl.java:41-45 | a created author reads back with the same name and no book titles |
| `AuthorService.DeleteCascades` | src/main/java/com/teodora/demo/service/impl/AuthorServiceImpl.java:56-61 | after deleting an author none of its books is found, and every other book reads as before |
| `BookController.Rejected` | src/main/java/com/teodora/demo/controller/BookController.java:45 | a body failing validation is answered 400 with the field-error map |
| `BookController.GetAll` | src/main/java/com/teodora/demo/controller/BookController.java:27-34 | 200 with the response of every stored book, in repository order |
| `BookController.GetById` | src/main/java/com/teodora/demo/controller/BookController.java:36-42 | 200 with the mapped book iff present, else 404 with no body |
| `BookController.Post` | src/main/java/com/teodora/demo/controller/BookController.java:44-59 | an unknown author gives 400 and saves nothing; otherwise 201 and exactly one new book with the request's title and that author |
| `BookController.Put` | src/main/java/com/teodora/demo/controller/BookController.java:61-81 | 404 for a missing book, checked before the author; 400 for an unknown author with the book unchanged; otherwise 200 with title and author replaced |
| `BookController.Delete` | src/main/java/com/teodora/demo/controller/BookController.java:83-91 | 404 and nothing deleted when absent; otherwise 204 and exactly that book removed |
| `BookController.DeleteThenGet` | src/main/java/com/teodora/demo/controller/BookController.java:83-91 | after a successful DELETE, a GET of the same id is 404 |
| `BookController.GetByIdAgreesWithService` | src/main/java/com/teodora/demo/controller/BookController.java:36-42 | GET by id answers as the service's lookup does, with the status the exception handler gives its failure |
| `BookController.PostAgreesWithService` | src/main/java/com/teodora/demo/controller/BookController.java:44-59 | for a valid body, POST writes what the service's create writes and answers with its response or its failure's status |
| `BookController.PutAgreesWithService` | src/main/java/com/teodora/demo/controller/BookController.java:61-81 | for a valid body, PUT leaves the same store as the service's update and answers with its response or its failure's status |
| `AuthorController.GetAll` | src/main/java/com/teodora/demo/controller/AuthorController.java:20-23 | every stored author entity with its books, in repository order |
| `AuthorController.GetById` | src/main/java/com/teodora/demo/controller/AuthorController.java:26-29 | the author when present; null (200, empty body), not an error, when absent |
| `AuthorController.Create` | src/main/java/com/teodora/demo/controller/AuthorController.java:32-35 | the given author is saved under a fresh id and returned with it |
| `AuthorController.Update` | src/main/java/com/teodora/demo/controller/AuthorController.java:38-48 | a present author gets only the body's name, and the reply is the author as now stored, its books linking back under the new name; an absent one gives null and nothing is saved |
| `AuthorController.Delete` | src/main/java/com/teodora/demo/controller/AuthorController.java:51-54 | no existence check: an absent id is a silent no-op; a present author goes with its books |
| `AuthorController.DeleteDiffersFromServiceOnlyWhenAbsent` | src/main/java/com/teodora/demo/controller/AuthorController.java:51-54 | the controller's and the service's deletes leave the same store; they differ only on an absent id: 200 from the controller, not found (404) from the service |
| `AuthorController.GetByIdDiffersFromServiceOnlyWhenAbsent` | src/main/java/com/teodora/demo/controller/AuthorController.java:26-29 | GET by id and getAuthorById agree on a stored author; for a missing one the controller answers 200 with an empty body where the service fails with not found (404) |
| `AuthorController.UpdateDiffersFromServiceOnlyWhenAbsent` | src/main/java/com/teodora/demo/controller/AuthorController.java:38-48 | PUT and updateAuthor with the same name leave the same store and map to the same response; for a missing author the controller answers 200 with an empty body where the service fails with not found (404) |

## Left out

- Spring wiring, routing, `@Transactional`, SLF4J logging and Jackson serialisation of bodies: handlers are plain functions returning a status and a body.
- The `RuntimeException("Failed to …")` wrapping in `BookServiceImpl`: it fires only when the store fails, and the abstract store never fails.
- The `timestamp` field of both error envelopes: it reads the clock.
- JPA internals (flush, persistence context, lazy loading, `IDENTITY` generation): rows are maps and ids come from a counter per table.
- `findAll` order: assumed to be insertion order. JPA does not promise it, and no test observes it.
  The book repository test compares in any order; the service test's order check is the order a mock returns.
- `AuthorServiceImpl` with a null id or a null request: these fail inside the repository or with a null dereference, not in the shown code. The model takes them non-null.
- `AuthorController.Create` and `AuthorController.Update`: the request body is reduced to its name. A client-sent id (JPA merge) or a `books` list in the body (cascade persist) is not modelled.
- The order of the field errors that bean validation reports is unspecified. `Requests.ValidateBook` lists the title first; the envelope map does not depend on the order.
- 64-bit overflow of ids and `Long` path-variable parsing.
- `BookService.GetBookById`: the result is stated for books linked to a stored author, which under `Store.Valid` is every stored book.
- `BookController.GetById`: stated in the same way, for books linked to a stored author.
- `AuthorController.Create`: `Store.Valid` and every "no orphaned book" guarantee depend on the body being reduced to its name.
  In the program, a body carrying a `books` list cascade-persists those books (`cascade = CascadeType.ALL`) with a null `author_id`.
  Such books then read with a null author id and "Nepoznat autor", a state the model's invariant excludes.
- `Store.SaveAuthor`: cascade on save is modelled only for a null collection or the collection exactly as loaded, which is all any caller passes.
  Saving an author whose collection holds new or changed books would persist or merge those books too (`cascade = CascadeType.ALL`).
- `Store.SaveBook`: requires the book's author to be stored. The program's save of a book linking to an unsaved or missing author fails with a persistence error, which is not modelled.
- `AuthorController.GetAll`, `AuthorController.GetById` and `AuthorController.Update`: the author entity is returned as the body, as modelled.
  The program serialises it with Jackson, which has no guard against the book-to-author-to-books cycle.
  For an author with a book, the client therefore gets a truncated body or a 500, not the 200 the model states.
  JSON serialisation is not modelled.
- `AuthorResponse`'s no-argument constructor and setters, and the `AuthorService`/`BookService` interfaces: field holders and signatures only.
