/** The transfer shape `BookDTO` (api/DTO/BookDTO.java), its `@NotEmpty`
    constraints, and the field copy the controller makes between it and the
    entity. */
module Dto {
  import opened Wrappers
  import opened Entity

  datatype BookDto = BookDto(id: Option<int>, title: Text, author: Text, isbn: Text)

  /** The constrained fields, in declaration order. `id` has no constraint. */
  datatype Field = Title | Author | Isbn

  /** `@NotEmpty` on a `String`: not null and at least one character long;
      that is, neither null nor the empty string. */
  predicate NotEmpty(s: Text)
    ensures NotEmpty(s) <==> s != None && s != Some("")
  {
    s.Some? && |s.value| > 0
  }

  /** The DTO passes bean validation: none of title, author and isbn is null
      or the empty string, whatever the `id` holds. */
  predicate IsValid(dto: BookDto)
    ensures IsValid(dto) <==>
      None !in {dto.title, dto.author, dto.isbn} && Some("") !in {dto.title, dto.author, dto.isbn}
  {
    NotEmpty(dto.title) && NotEmpty(dto.author) && NotEmpty(dto.isbn)
  }

  /** One violation per field whose `@NotEmpty` fails, none for `id`, none
      twice; so the DTO is valid exactly when there is none. */
  function Violations(dto: BookDto): (v: seq<Field>)
    ensures Title in v <==> !NotEmpty(dto.title)
    ensures Author in v <==> !NotEmpty(dto.author)
    ensures Isbn in v <==> !NotEmpty(dto.isbn)
    ensures forall i, j :: 0 <= i < j < |v| ==> v[i] != v[j]
    ensures v == [] <==> IsValid(dto)
  {
    (if NotEmpty(dto.title) then [] else [Title])
    + (if NotEmpty(dto.author) then [] else [Author])
    + (if NotEmpty(dto.isbn) then [] else [Isbn])
  }

  /** The number of violations is the number of failing fields, whatever the
      `id` holds. */
  lemma {:induction false} ViolationCount(dto: BookDto)
    ensures |Violations(dto)| ==
      (if NotEmpty(dto.title) then 0 else 1)
      + (if NotEmpty(dto.author) then 0 else 1)
      + (if NotEmpty(dto.isbn) then 0 else 1)
    ensures forall id :: Violations(dto.(id := id)) == Violations(dto)
  {
  }

  /** A DTO with every field null or empty fails on all three fields. */
  lemma AllEmptyHasThreeViolations(dto: BookDto)
    requires !NotEmpty(dto.title) && !NotEmpty(dto.author) && !NotEmpty(dto.isbn)
    ensures Violations(dto) == [Title, Author, Isbn]
  {
  }

  /** The field-by-field copy from DTO to entity (the model mapper); copying
      back gives the DTO again. */
  function ToEntity(dto: BookDto): (b: Book)
    ensures FromEntity(b) == dto
  {
    Book(dto.id, dto.title, dto.author, dto.isbn)
  }

  /** The field-by-field copy from entity to DTO; copying back gives the
      entity again. */
  function FromEntity(b: Book): (dto: BookDto)
    ensures dto.id == b.id && dto.title == b.title && dto.author == b.author && dto.isbn == b.isbn
  {
    BookDto(b.id, b.title, b.author, b.isbn)
  }

  /** Copying an entity out and back in loses nothing. */
  lemma EntityRoundTrip(b: Book)
    ensures ToEntity(FromEntity(b)) == b
  {
  }
}
