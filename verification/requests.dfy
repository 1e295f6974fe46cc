/** The request bodies and their declared constraints: BookRequest's title
    is @NotBlank and its authorId @NotNull; AuthorRequest's name is
    @NotBlank. Validation reports one field error per violated constraint. */
module Requests {
  import opened Wrappers
  import opened Text
  import opened Errors
  import Tables

  datatype BookRequest = BookRequest(title: Str, authorId: Option<Tables.Id>)

  datatype AuthorRequest = AuthorRequest(name: Str)

  const TitleMessage: string := "Naziv knjige je obavezan"
  const AuthorIdMessage: string := "ID autora je obavezan"
  const NameMessage: string := "Name must not be blank"

  /** @NotBlank: not null, and something is left after String.trim. */
  predicate NotBlank(x: Str) {
    x.Some? && Trim(x.value) != []
  }

  /** A string is not blank exactly when it is non-null and holds a
      character above U+0020; so null, empty and whitespace-only strings are
      all blank. */
  lemma NotBlankIffVisibleChar(x: Str)
    ensures NotBlank(x) <==> x.Some? && exists i :: 0 <= i < |x.value| && !Trimmable(x.value[i])
  {
    if x.Some? {
      TrimEmptyIffAllTrimmable(x.value);
    }
  }

  /** The field errors of a BookRequest: title first, then authorId. */
  function ValidateBook(r: BookRequest): (errs: seq<FieldError>)
    ensures errs == [] <==> NotBlank(r.title) && r.authorId.Some?
    ensures FieldError("title", TitleMessage) in errs <==> !NotBlank(r.title)
    ensures FieldError("authorId", AuthorIdMessage) in errs <==> r.authorId.None?
    ensures |errs| == (if NotBlank(r.title) then 0 else 1) + (if r.authorId.Some? then 0 else 1)
  {
    (if NotBlank(r.title) then [] else [FieldError("title", TitleMessage)])
    + (if r.authorId.Some? then [] else [FieldError("authorId", AuthorIdMessage)])
  }

  /** The two constraints are independent: a request that breaks both gets
      an envelope naming both fields. */
  lemma BothViolationsReported(r: BookRequest)
    requires !NotBlank(r.title) && r.authorId.None?
    ensures FieldErrorMap(ValidateBook(r)) == map["title" := TitleMessage, "authorId" := AuthorIdMessage]
  {
    var errs := ValidateBook(r);
    assert errs == [FieldError("title", TitleMessage), FieldError("authorId", AuthorIdMessage)];
    assert errs[..1] == [FieldError("title", TitleMessage)];
    assert errs[..1][..0] == [];
  }

  /** The field errors of an AuthorRequest. */
  function ValidateAuthor(r: AuthorRequest): (errs: seq<FieldError>)
    ensures errs == [] <==> NotBlank(r.name)
    ensures errs != [] ==> errs == [FieldError("name", NameMessage)]
  {
    if NotBlank(r.name) then [] else [FieldError("name", NameMessage)]
  }
}
