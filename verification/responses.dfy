/** The response shapes and the entity mappers: BookResponse.fromEntity
    (null-safe), BookDto.toDto (needs an author), and AuthorResponse. */
module Responses {
  import opened Wrappers
  import opened Text
  import opened Model

  datatype BookResponse = BookResponse(id: Option<Id>, title: Str, authorId: Option<Id>, authorName: Str)

  datatype BookDto = BookDto(id: Option<Id>, title: Str, authorId: Option<Id>, authorName: Str)

  /** bookTitles is never null as the service builds it. */
  datatype AuthorResponse = AuthorResponse(id: Option<Id>, name: Str, bookTitles: seq<Str>)

  /** The name shown for a book without an author. */
  const UnknownAuthor: string := "Nepoznat autor"

  /** BookResponse.fromEntity: id and title copied; the author's id and name
      when there is an author, otherwise no id and the fallback name. Total:
      defined for every book. */
  function FromEntity(b: Book): (r: BookResponse)
    ensures r.id == b.id && r.title == b.title
    ensures b.author.Some? ==> r.authorId == b.author.value.id && r.authorName == b.author.value.name
    ensures b.author.None? ==> r.authorId.None? && r.authorName == Some(UnknownAuthor)
  {
    var authorId := if b.author.Some? then b.author.value.id else None;
    var authorName := if b.author.Some? then b.author.value.name else Some(UnknownAuthor);
    BookResponse(b.id, b.title, authorId, authorName)
  }

  /** BookDto.toDto: dereferences the author without a null check, so the
      book must have one. */
  function ToDto(b: Book): (d: BookDto)
    requires b.author.Some?
    ensures d.id == b.id && d.title == b.title
    ensures d.authorId == b.author.value.id && d.authorName == b.author.value.name
  {
    BookDto(b.id, b.title, b.author.value.id, b.author.value.name)
  }

  /** Where toDto is defined it agrees field for field with fromEntity. */
  lemma ToDtoAgreesWithFromEntity(b: Book)
    requires b.author.Some?
    ensures var d, r := ToDto(b), FromEntity(b);
      d.id == r.id && d.title == r.title && d.authorId == r.authorId && d.authorName == r.authorName
  {
  }
}
