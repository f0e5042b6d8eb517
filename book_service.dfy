/** The business rules of `BookServiceImpl` (service/impl/BookServiceImpl.java)
    over the repository it is given at construction. */
module Service {
  import opened Wrappers
  import opened Entity
  import opened Repository

  /** The message of the `BusinessException` a duplicate isbn raises. */
  const DuplicateIsbnMessage: string := "Isbn Já cadastrado"

  /** The message of the `IllegalArgumentException` the id guard raises. */
  const NullBookMessage: string := "Book can't be null"

  /** What the service can throw. */
  datatype ServiceError =
    | BusinessException(message: string)
    | IllegalArgumentException(message: string)
    | NullPointerException

  /** One service call: what it returns or throws, and the table it leaves. */
  datatype Step<+T> = Step(result: Result<T, ServiceError>, after: Table)

  /** The guard of `delete` and `update`: the book is null or has no id. */
  predicate Unidentified(book: Option<Book>) {
    book.None? || book.value.id.None?
  }

  /** `save`: a null book fails on `getIsbn`; a book whose isbn is already
      stored is refused with the fixed business message and nothing is
      written; any other book is handed to the repository's `save`, whose
      result (with its id set) is returned. */
  function SaveStep(t: Table, book: Option<Book>): (s: Step<Book>)
    requires t.Valid()
    ensures s.after.Valid()
    ensures book.None? ==> s == Step(Failure(NullPointerException), t)
    ensures book.Some? && t.ExistsByIsbn(book.value.isbn) ==>
      s == Step(Failure(BusinessException(DuplicateIsbnMessage)), t)
    ensures s.result.Success? <==> book.Some? && !t.ExistsByIsbn(book.value.isbn)
    ensures s.result.Success? ==>
      && s.result.value == t.Saved(book.value)
      && s.after == t.AfterSave(book.value)
      && s.result.value.id.Some?
      && s.after.FindById(s.result.value.id.value) == Some(s.result.value)
  {
    if book.None? then
      Step(Failure(NullPointerException), t)
    else if t.ExistsByIsbn(book.value.isbn) then
      Step(Failure(BusinessException(DuplicateIsbnMessage)), t)
    else
      Step(Success(t.Saved(book.value)), t.AfterSave(book.value))
  }

  /** `delete`: a null book or one without id is refused before the
      repository is touched; otherwise the row with its id is removed and
      every other row is kept. */
  function DeleteStep(t: Table, book: Option<Book>): (s: Step<()>)
    requires t.Valid()
    ensures s.after.Valid()
    ensures Unidentified(book) <==> s.result == Failure(IllegalArgumentException(NullBookMessage))
    ensures s.result.Success? <==> !Unidentified(book)
    ensures s.result.Failure? ==> s.after == t
    ensures s.result.Success? ==>
      && s.after == t.AfterDelete(book.value)
      && s.after.FindById(book.value.id.value).None?
      && forall k :: k != book.value.id.value ==> s.after.FindById(k) == t.FindById(k)
  {
    if Unidentified(book) then
      Step(Failure(IllegalArgumentException(NullBookMessage)), t)
    else
      Step(Success(()), t.AfterDelete(book.value))
  }

  /** `update`: a null book or one without id is refused before the
      repository is touched; otherwise the book is written over the row with
      its id, with no isbn check, and returned as stored. */
  function UpdateStep(t: Table, book: Option<Book>): (s: Step<Book>)
    requires t.Valid()
    ensures s.after.Valid()
    ensures Unidentified(book) <==> s.result == Failure(IllegalArgumentException(NullBookMessage))
    ensures s.result.Success? <==> !Unidentified(book)
    ensures s.result.Failure? ==> s.after == t
    ensures s.result.Success? ==>
      && s.result.value == book.value
      && s.after == t.AfterSave(book.value)
      && s.after.FindById(book.value.id.value) == Some(book.value)
  {
    if Unidentified(book) then
      Step(Failure(IllegalArgumentException(NullBookMessage)), t)
    else
      Step(Success(t.Saved(book.value)), t.AfterSave(book.value))
  }

  /** A book built with no arguments has no id, so `update` and `delete`
      refuse it and write nothing. */
  lemma NoArgsBookIsRefused(t: Table)
    requires t.Valid()
    ensures UpdateStep(t, Some(NoArgsBook)) == Step(Failure(IllegalArgumentException(NullBookMessage)), t)
    ensures DeleteStep(t, Some(NoArgsBook)) == Step(Failure(IllegalArgumentException(NullBookMessage)), t)
  {
  }

  /** `save` keeps the isbns of the store pairwise distinct, whether it
      succeeds or not. */
  lemma {:induction false} SaveKeepsIsbnsUnique(t: Table, book: Option<Book>)
    requires t.Valid() && t.UniqueIsbns()
    ensures SaveStep(t, book).after.UniqueIsbns()
  {
    if book.Some? && !t.ExistsByIsbn(book.value.isbn) {
      SaveFreshIsbnKeepsUnique(t, book.value);
    }
  }

  /** Once a `save` with some isbn has succeeded, every later `save` with
      that isbn is refused with the business message and writes nothing. */
  lemma {:induction false} SecondSaveOfSameIsbnFails(t: Table, first: Book, second: Book)
    requires t.Valid()
    requires SaveStep(t, Some(first)).result.Success?
    requires second.isbn == first.isbn
    ensures var t' := SaveStep(t, Some(first)).after;
      SaveStep(t', Some(second)) == Step(Failure(BusinessException(DuplicateIsbnMessage)), t')
  {
    assert SaveStep(t, Some(first)).after.ExistsByIsbn(first.isbn);
  }

  /** `update` keeps the isbns unique exactly when no other row has the
      updated book's isbn: it does not check, so it can break the rule. */
  lemma {:induction false} UpdateKeepsIsbnsUniqueIff(t: Table, book: Book)
    requires t.Valid() && t.UniqueIsbns() && book.id.Some?
    ensures UpdateStep(t, Some(book)).after.UniqueIsbns() <==>
      forall k :: k in t.rows && k != book.id.value ==> t.rows[k].isbn != book.isbn
  {
    OverwriteKeepsUniqueIff(t, book);
  }

  /** A store with unique isbns where a successful `update` leaves two rows
      with the same isbn. */
  lemma UpdateCanDuplicateIsbn()
    ensures var t := Table(map[1 := Book(Some(1), Some("As aventuras"), Some("Artur"), Some("001")),
                               2 := Book(Some(2), Some("Outro"), Some("Fulano"), Some("002"))], 3);
            var s := UpdateStep(t, Some(Book(Some(2), Some("Outro"), Some("Fulano"), Some("001"))));
            t.Valid() && t.UniqueIsbns() && s.result.Success? && !s.after.UniqueIsbns()
  {
    var t := Table(map[1 := Book(Some(1), Some("As aventuras"), Some("Artur"), Some("001")),
                       2 := Book(Some(2), Some("Outro"), Some("Fulano"), Some("002"))], 3);
    var b := Book(Some(2), Some("Outro"), Some("Fulano"), Some("001"));
    var after := UpdateStep(t, Some(b)).after;
    assert after.rows[1].isbn == after.rows[2].isbn;
  }

  /** Updating twice with the same book leaves the same store and returns the
      same result as updating once. */
  lemma {:induction false} UpdateIsIdempotent(t: Table, book: Option<Book>)
    requires t.Valid()
    ensures var s := UpdateStep(t, book);
      UpdateStep(s.after, book) == s
  {
    if !Unidentified(book) {
      var s := UpdateStep(t, book);
      var key := book.value.id.value;
      assert s.after.rows[key := book.value] == s.after.rows;
    }
  }

  /** `delete` keeps the isbns unique. */
  lemma {:induction false} DeleteKeepsIsbnsUnique(t: Table, book: Option<Book>)
    requires t.Valid() && t.UniqueIsbns()
    ensures DeleteStep(t, book).after.UniqueIsbns()
  {
    if !Unidentified(book) {
      DeleteKeepsUnique(t, book.value);
    }
  }

  /** One call on the service bean, which lives across requests. */
  datatype Call =
    | SaveCall(book: Option<Book>)
    | GetByIdCall(id: int)
    | DeleteCall(book: Option<Book>)
    | UpdateCall(book: Option<Book>)

  /** The table a call leaves; `getById` leaves it as it was. */
  function Apply(t: Table, call: Call): (t': Table)
    requires t.Valid()
    ensures t'.Valid()
    ensures call.GetByIdCall? ==> t' == t
  {
    match call
    case SaveCall(book) => SaveStep(t, book).after
    case GetByIdCall(_) => t
    case DeleteCall(book) => DeleteStep(t, book).after
    case UpdateCall(book) => UpdateStep(t, book).after
  }

  /** The table a sequence of calls leaves, made one after another; the
      store stays well formed throughout. */
  function Run(t: Table, calls: seq<Call>): (t': Table)
    requires t.Valid()
    ensures t'.Valid()
    decreases |calls|
  {
    if calls == [] then t else Run(Apply(t, calls[0]), calls[1..])
  }

  /** Any sequence of `save`, `getById` and `delete` calls, successful or
      not, keeps the isbns of the store pairwise distinct. */
  lemma {:induction false} RunWithoutUpdateKeepsIsbnsUnique(t: Table, calls: seq<Call>)
    requires t.Valid() && t.UniqueIsbns()
    requires forall i :: 0 <= i < |calls| ==> !calls[i].UpdateCall?
    ensures Run(t, calls).UniqueIsbns()
    decreases |calls|
  {
    if calls != [] {
      match calls[0] {
        case SaveCall(book) => SaveKeepsIsbnsUnique(t, book);
        case GetByIdCall(_) =>
        case DeleteCall(book) => DeleteKeepsIsbnsUnique(t, book);
      }
      RunWithoutUpdateKeepsIsbnsUnique(Apply(t, calls[0]), calls[1..]);
    }
  }

  /** A call that can only add rows: a `getById`, or a `save` of a null
      book or of a book without id. */
  predicate InsertOnly(call: Call) {
    call.GetByIdCall? || (call.SaveCall? && Unidentified(call.book))
  }

  /** An isbn that some row has is still found after any sequence of calls
      that only add rows. */
  lemma {:induction false} InsertOnlyRunKeepsIsbn(t: Table, calls: seq<Call>, isbn: Text)
    requires t.Valid() && t.ExistsByIsbn(isbn)
    requires forall i :: 0 <= i < |calls| ==> InsertOnly(calls[i])
    ensures Run(t, calls).ExistsByIsbn(isbn)
    decreases |calls|
  {
    if calls != [] {
      var next := Apply(t, calls[0]);
      var k :| k in t.rows && t.rows[k].isbn == isbn;
      if calls[0].SaveCall? && SaveStep(t, calls[0].book).result.Success? {
        assert k != t.KeyFor(calls[0].book.value);
        assert next.rows[k] == t.rows[k];
      }
      assert k in next.rows && next.rows[k].isbn == isbn;
      InsertOnlyRunKeepsIsbn(next, calls[1..], isbn);
    }
  }

  /** Once a `save` with some isbn has succeeded, a `save` with that isbn
      made after any further calls that only add rows is refused with the
      business message and writes nothing. */
  lemma {:induction false} LaterSaveOfSameIsbnFails(t: Table, first: Book, calls: seq<Call>, second: Book)
    requires t.Valid()
    requires SaveStep(t, Some(first)).result.Success?
    requires forall i :: 0 <= i < |calls| ==> InsertOnly(calls[i])
    requires second.isbn == first.isbn
    ensures var t' := Run(SaveStep(t, Some(first)).after, calls);
      SaveStep(t', Some(second)) == Step(Failure(BusinessException(DuplicateIsbnMessage)), t')
  {
    InsertOnlyRunKeepsIsbn(SaveStep(t, Some(first)).after, calls, first.isbn);
  }

  /** Without that restriction the rule does not last: a `save` of a book
      carrying the id of the row with isbn "001" and another isbn frees
      "001", and a later `save` of "001" succeeds. */
  lemma OverwritingSaveFreesIsbn()
    ensures var first := Book(None, Some("As aventuras"), Some("Artur"), Some("001"));
            var t1 := SaveStep(Table(map[], 1), Some(first)).after;
            var t2 := SaveStep(t1, Some(Book(Some(1), Some("As aventuras"), Some("Artur"), Some("002")))).after;
            SaveStep(Table(map[], 1), Some(first)).result.Success?
            && SaveStep(t2, Some(first)).result.Success?
  {
    var first := Book(None, Some("As aventuras"), Some("Artur"), Some("001"));
    var t1 := SaveStep(Table(map[], 1), Some(first)).after;
    assert t1.rows == map[1 := first.(id := Some(1))];
    var t2 := SaveStep(t1, Some(Book(Some(1), Some("As aventuras"), Some("Artur"), Some("002")))).after;
    assert t2.rows == map[1 := Book(Some(1), Some("As aventuras"), Some("Artur"), Some("002"))];
    assert !t2.ExistsByIsbn(first.isbn);
  }

  /** The service bean, holding the repository it was constructed with. */
  class BookServiceImpl {
    const repository: BookRepository

    constructor (repository: BookRepository)
      ensures this.repository == repository
    {
      this.repository := repository;
    }

    method Save(book: Option<Book>) returns (r: Result<Book, ServiceError>)
      requires repository.Valid()
      modifies repository
      ensures repository.Valid()
      ensures Step(r, repository.State()) == SaveStep(old(repository.State()), book)
    {
      if book.None? {
        return Failure(NullPointerException);
      }
      var taken := repository.ExistsByIsbn(book.value.isbn);
      if taken {
        return Failure(BusinessException(DuplicateIsbnMessage));
      }
      var saved := repository.Save(book.value);
      r := Success(saved);
    }

    /** `getById`: absence is an empty result, never an error, and the store
        is left as it was. */
    method GetById(id: int) returns (r: Option<Book>)
      requires repository.Valid()
      ensures r.None? <==> id !in repository.rows
      ensures r.Some? ==> r.value == repository.rows[id] && r.value.id == Some(id)
    {
      r := repository.FindById(id);
    }

    method Delete(book: Option<Book>) returns (r: Result<(), ServiceError>)
      requires repository.Valid()
      modifies repository
      ensures repository.Valid()
      ensures Step(r, repository.State()) == DeleteStep(old(repository.State()), book)
    {
      if book.None? || book.value.id.None? {
        return Failure(IllegalArgumentException(NullBookMessage));
      }
      repository.Delete(book.value);
      r := Success(());
    }

    method Update(book: Option<Book>) returns (r: Result<Book, ServiceError>)
      requires repository.Valid()
      modifies repository
      ensures repository.Valid()
      ensures Step(r, repository.State()) == UpdateStep(old(repository.State()), book)
    {
      if book.None? || book.value.id.None? {
        return Failure(IllegalArgumentException(NullBookMessage));
      }
      var saved := repository.Save(book.value);
      r := Success(saved);
    }
  }
}
