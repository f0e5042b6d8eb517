/** The decision logic of `BookController` (api/resource/BookController.java):
    each endpoint as a call into the service that ends in an outcome, with
    the HTTP transport left out. */
module Controller {
  import opened Wrappers
  import opened Entity
  import opened Dto
  import opened Repository
  import opened Service

  /** The default message of a failed `@NotEmpty` constraint. */
  const NotEmptyMessage: string := "must not be empty"

  /** How a request ends: the response status and its body. An exception no
      handler catches ends as `InternalServerError`. */
  datatype Outcome =
    | Created(body: BookDto)
    | Ok(body: BookDto)
    | NoContent
    | NotFound
    | BadRequest(errors: seq<string>)
    | InternalServerError

  /** One request: its outcome and the table it leaves. */
  datatype Exchange = Exchange(outcome: Outcome, after: Table)

  /** The handler for failed bean validation: one error per violated field,
      each the constraint's default message. */
  function HandleValidationException(violations: seq<Field>): (o: Outcome)
    ensures o.BadRequest? && |o.errors| == |violations|
    ensures forall i :: 0 <= i < |o.errors| ==> o.errors[i] == NotEmptyMessage
  {
    BadRequest(seq(|violations|, _ => NotEmptyMessage))
  }

  /** The handler for `BusinessException`: exactly one error, the
      exception's message. */
  function HandleBusinessException(message: string): (o: Outcome)
    ensures o.BadRequest? && o.errors == [message]
  {
    BadRequest([message])
  }

  /** How the service's exceptions reach the client: a business error through
      its handler, anything else unhandled. */
  function Handle(e: ServiceError): (o: Outcome)
    ensures e.BusinessException? ==> o == BadRequest([e.message])
    ensures !e.BusinessException? ==> o == InternalServerError
  {
    if e.BusinessException? then HandleBusinessException(e.message) else InternalServerError
  }

  /** The merge `update` makes through the setters: author, title and isbn
      come from the DTO, the id stays the fetched one. */
  function Merge(book: Book, dto: BookDto): (m: Book)
    ensures FromEntity(m) == dto.(id := book.id)
  {
    book.(author := dto.author, title := dto.title, isbn := dto.isbn)
  }

  /** Merging twice with the same DTO is merging once, and the merge does not
      depend on the fetched title, author or isbn. */
  lemma MergeForgetsOldFields(book: Book, other: Book, dto: BookDto)
    requires other.id == book.id
    ensures Merge(Merge(book, dto), dto) == Merge(book, dto)
    ensures Merge(other, dto) == Merge(book, dto)
  {
  }

  /** `POST`: an invalid DTO is answered with its violations and never reaches
      the service; a valid one is copied to an entity (its id included) and
      saved; a duplicate isbn becomes a single business error; a successful
      save answers with the stored book. */
  function CreateExchange(t: Table, dto: BookDto): (x: Exchange)
    requires t.Valid()
    ensures x.after.Valid()
    ensures !x.outcome.InternalServerError?
    ensures !IsValid(dto) ==> x == Exchange(HandleValidationException(Violations(dto)), t)
    ensures IsValid(dto) && t.ExistsByIsbn(dto.isbn) ==>
      x == Exchange(BadRequest([DuplicateIsbnMessage]), t)
    ensures x.outcome.Created? <==> IsValid(dto) && !t.ExistsByIsbn(dto.isbn)
    ensures x.outcome.Created? ==>
      && x.outcome.body.id.Some?
      && (dto.id.Some? ==> x.outcome.body.id == dto.id)
      && x.outcome.body == dto.(id := x.outcome.body.id)
      && x.after.FindById(x.outcome.body.id.value) == Some(ToEntity(x.outcome.body))
      && x.after.rows == t.rows[x.outcome.body.id.value := ToEntity(x.outcome.body)]
      && (dto.id.None? ==> x.outcome.body.id.value !in t.rows)
  {
    var violations := Violations(dto);
    if violations != [] then
      Exchange(HandleValidationException(violations), t)
    else
      var s := SaveStep(t, Some(ToEntity(dto)));
      match s.result
      case Success(saved) => Exchange(Created(FromEntity(saved)), s.after)
      case Failure(e) => Exchange(Handle(e), s.after)
  }

  /** `GET {id}`: the stored book, or not found. */
  function GetOutcome(t: Table, id: int): (o: Outcome)
    requires t.Valid()
    ensures o.Ok? <==> id in t.rows
    ensures o.Ok? ==> ToEntity(o.body) == t.rows[id]
    ensures !o.Ok? ==> o == NotFound
  {
    match t.FindById(id)
    case Some(book) => Ok(FromEntity(book))
    case None => NotFound
  }

  /** `DELETE {id}`: not found without calling the service's `delete` when
      no row has the id; otherwise that row is removed, every other row is
      kept, and the answer is no content. */
  function DeleteExchange(t: Table, id: int): (x: Exchange)
    requires t.Valid()
    ensures x.after.Valid()
    ensures id !in t.rows <==> x == Exchange(NotFound, t)
    ensures id in t.rows ==>
      && x.outcome == NoContent
      && x.after.rows.Keys == t.rows.Keys - {id}
      && forall k :: k in x.after.rows ==> x.after.rows[k] == t.rows[k]
  {
    match t.FindById(id)
    case None => Exchange(NotFound, t)
    case Some(book) =>
      var s := DeleteStep(t, Some(book));
      match s.result
      case Success(_) => Exchange(NoContent, s.after)
      case Failure(e) => Exchange(Handle(e), s.after)
  }

  /** `PUT {id}`: not found without calling the service's `update` when no row
      has the id; otherwise the DTO's title, author and isbn, unvalidated,
      overwrite that row under the same id, and the answer is the stored
      book. */
  function UpdateExchange(t: Table, id: int, dto: BookDto): (x: Exchange)
    requires t.Valid()
    ensures x.after.Valid()
    ensures id !in t.rows <==> x == Exchange(NotFound, t)
    ensures id in t.rows ==>
      && x.outcome == Ok(dto.(id := Some(id)))
      && x.after.rows == t.rows[id := ToEntity(dto.(id := Some(id)))]
  {
    match t.FindById(id)
    case None => Exchange(NotFound, t)
    case Some(book) =>
      var s := UpdateStep(t, Some(Merge(book, dto)));
      match s.result
      case Success(updated) => Exchange(Ok(FromEntity(updated)), s.after)
      case Failure(e) => Exchange(Handle(e), s.after)
  }

  /** A created book is what a following `GET` of its id answers. */
  lemma {:induction false} CreatedIsFound(t: Table, dto: BookDto)
    requires t.Valid()
    requires CreateExchange(t, dto).outcome.Created?
    ensures var x := CreateExchange(t, dto);
      GetOutcome(x.after, x.outcome.body.id.value) == Ok(x.outcome.body)
  {
    var x := CreateExchange(t, dto);
    var id := x.outcome.body.id.value;
    assert x.after.FindById(id) == Some(ToEntity(x.outcome.body));
    EntityRoundTrip(ToEntity(x.outcome.body));
  }

  /** A DTO carrying the id of a stored row and a fresh isbn is created over
      that row: the client chooses the id. */
  lemma {:induction false} CreateWithStoredIdOverwrites(t: Table, dto: BookDto)
    requires t.Valid() && IsValid(dto) && !t.ExistsByIsbn(dto.isbn)
    requires dto.id.Some? && dto.id.value in t.rows
    ensures var x := CreateExchange(t, dto);
      x.outcome == Created(dto) && x.after.rows == t.rows[dto.id.value := ToEntity(dto)]
  {
    var x := CreateExchange(t, dto);
    assert x.after == t.AfterSave(ToEntity(dto));
  }

  /** A deleted id is not found afterwards. */
  lemma {:induction false} DeletedIsNotFound(t: Table, id: int)
    requires t.Valid()
    ensures GetOutcome(DeleteExchange(t, id).after, id) == NotFound
  {
    var after := DeleteExchange(t, id).after;
    assert id !in after.rows;
  }

  /** Every request leaves a store with unique isbns unique, except `PUT`. */
  lemma {:induction false} CreateAndDeleteKeepIsbnsUnique(t: Table, dto: BookDto, id: int)
    requires t.Valid() && t.UniqueIsbns()
    ensures CreateExchange(t, dto).after.UniqueIsbns()
    ensures DeleteExchange(t, id).after.UniqueIsbns()
  {
    SaveKeepsIsbnsUnique(t, Some(ToEntity(dto)));
    if id in t.rows {
      DeleteKeepsIsbnsUnique(t, Some(t.rows[id]));
    }
  }

  /** The controller bean, holding the service it was constructed with. */
  class BookController {
    const service: BookServiceImpl

    constructor (service: BookServiceImpl)
      ensures this.service == service
    {
      this.service := service;
    }

    method Create(dto: BookDto) returns (o: Outcome)
      requires service.repository.Valid()
      modifies service.repository
      ensures service.repository.Valid()
      ensures Exchange(o, service.repository.State()) == CreateExchange(old(service.repository.State()), dto)
    {
      var violations := Violations(dto);
      if violations != [] {
        return HandleValidationException(violations);
      }
      var entity := ToEntity(dto);
      var r := service.Save(Some(entity));
      match r
      case Success(saved) => o := Created(FromEntity(saved));
      case Failure(e) => o := Handle(e);
    }

    /** `GET {id}`: reads the store, changes nothing. */
    method Get(id: int) returns (o: Outcome)
      requires service.repository.Valid()
      ensures o == GetOutcome(service.repository.State(), id)
    {
      var found := service.GetById(id);
      match found
      case Some(book) => o := Ok(FromEntity(book));
      case None => o := NotFound;
    }

    method Delete(id: int) returns (o: Outcome)
      requires service.repository.Valid()
      modifies service.repository
      ensures service.repository.Valid()
      ensures Exchange(o, service.repository.State()) == DeleteExchange(old(service.repository.State()), id)
    {
      var found := service.GetById(id);
      if found.None? {
        return NotFound;
      }
      var r := service.Delete(found);
      match r
      case Success(_) => o := NoContent;
      case Failure(e) => o := Handle(e);
    }

    /** `PUT {id}`: the fetched book is changed through its setters, then
        handed to the service's `update`. */
    method Update(id: int, dto: BookDto) returns (o: Outcome)
      requires service.repository.Valid()
      modifies service.repository
      ensures service.repository.Valid()
      ensures Exchange(o, service.repository.State()) == UpdateExchange(old(service.repository.State()), id, dto)
    {
      var found := service.GetById(id);
      if found.None? {
        return NotFound;
      }
      var book := found.value;
      book := book.(author := dto.author);
      book := book.(title := dto.title);
      book := book.(isbn := dto.isbn);
      var r := service.Update(Some(book));
      match r
      case Success(updated) => o := Ok(FromEntity(updated));
      case Failure(e) => o := Handle(e);
    }
  }
}
