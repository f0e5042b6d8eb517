# Book library API: guarded persistence, modelled in Dafny

This project models the core of a small Spring CRUD service for one entity,
`Book`. It covers:

- the repository the service persists through, an in-memory table keyed by
  id with an IDENTITY counter;
- the service's business rules (`BookServiceImpl`);
- the `@NotEmpty` validation of the transfer object `BookDTO`;
- the decision logic of `BookController`, which ends in an outcome
  (`Created`, `Ok`, `NoContent`, `NotFound`, `BadRequest(errors)`, or
  `InternalServerError` for an exception no handler catches) instead of
  HTTP.

The central fact is about the isbns in the store. A `save` keeps them
pairwise distinct. An `update` does not check isbns, so it keeps them
distinct exactly when no other row has the new isbn, and a concrete store
shows it breaking the rule.

Files, one module each:

- `wrappers.dfy`: `Option` (also used for a nullable Java reference) and
  `Result`.
- `book.dfy`: the `Book` entity with optional id, title, author and isbn.
  A Java `String` is `Option<string>`, where `None` is null.
- `book_dto.dfy`: `BookDto`, the `@NotEmpty` violations, and the field copy
  between DTO and entity.
- `book_repository.dfy`: the pure `Table` value (rows plus the next
  IDENTITY value) with `ExistsByIsbn`, `FindById`, `AfterSave` and
  `AfterDelete`, and the class `BookRepository`. The class holds the rows
  map and updates it in place.
- `book_service.dfy`: the step functions `SaveStep`, `DeleteStep` and
  `UpdateStep`. Each gives the result or exception and the table left
  behind. The file also holds the class `BookServiceImpl`, whose methods are
  proved equal to those step functions.
- `book_controller.dfy`: the exchange functions for create, get, delete and
  update, the two exception handlers, the update merge, and the class
  `BookController`, whose methods are proved equal to the exchange
  functions.

Choices made where the code leaves room:

- The duplicate-isbn message is `"Isbn Já cadastrado"`, exactly as the
  service throws it.
- `existsByIsbn` compares exactly. A null argument matches a row whose isbn
  is null, which is how a derived query treats a null argument (IS NULL).
- `save` with no id inserts under the next IDENTITY value. The model proves
  that this key is not in the table yet. `save` with an id writes over (or
  creates) the row with that id.
- The service's `save` does not check that the book has no id. The
  controller's `create` copies the DTO's id into the entity. So a `POST`
  that carries the id of a stored row, together with a free isbn,
  overwrites that row (`CreateWithStoredIdOverwrites`). `Book.id` is an
  IDENTITY column (Book.java:23-26), but neither the controller nor the
  service stops a caller from supplying one.
- The service's `save` on a null book fails with a `NullPointerException`
  before any repository call.
- The controller's `update` has no `@Valid`, so empty or null fields are
  written as they come. Its DTO parameter also has no `@RequestBody`;
  the model takes the DTO exactly as binding produced it.
- The controller's `delete` and `update` only hand the service a book
  fetched from the store. That book always has an id, so the service's
  `IllegalArgumentException` never reaches a client: every exchange
  function proves its outcome is not `InternalServerError`.

## Model

| member | source | states |
|---|---|---|
| `Dto.NotEmpty` | src/main/java/br/dev/jstec/library_api/api/DTO/BookDTO.java:22-29 | `@NotEmpty` holds of a string exactly when it is neither null nor the empty string |
| `Dto.IsValid` | src/main/java/br/dev/jstec/library_api/api/DTO/BookDTO.java:20-29 | the DTO is valid exactly when none of title, author and isbn is null or empty; `id` is unconstrained |
| `Dto.Violations` | src/main/java/br/dev/jstec/library_api/api/DTO/BookDTO.java:20-29 | each of title, author and isbn is a violation exactly when it is null or empty; `id` never is; no field is listed twice; no violation exactly when the DTO is valid |
| `Dto.ViolationCount` | src/main/java/br/dev/jstec/library_api/api/DTO/BookDTO.java:20-29 | the number of violations is the number of failing fields and does not depend on `id` |
| `Dto.AllEmptyHasThreeViolations` | src/main/java/br/dev/jstec/library_api/api/DTO/BookDTO.java:22-29 | a DTO whose three constrained fields are all null or empty has exactly three violations, one per field |
| `Dto.ToEntity` | src/main/java/br/dev/jstec/library_api/api/resource/BookController.java:49 | the DTO-to-entity copy loses nothing: copying back gives the DTO |
| `Dto.EntityRoundTrip` | src/main/java/br/dev/jstec/library_api/api/resource/BookController.java:53 | the entity-to-DTO copy loses nothing: copying back gives the entity |
| `Dto.FromEntity` | src/main/java/br/dev/jstec/library_api/api/resource/BookController.java:53-61 | the entity-to-DTO copy carries id, title, author and isbn over unchanged |
| `Repository.Table.ExistsByIsbn` | src/main/java/br/dev/jstec/library_api/model/repository/BookRepository.java:10 | true exactly when the isbn is among the stored rows' isbns; a null argument matches a row whose isbn is null |
| `Repository.Table.FindById` | src/main/java/br/dev/jstec/library_api/model/repository/BookRepository.java:9 | empty exactly when no row has the id; a found book carries that id |
| `Repository.Table.KeyFor` | src/main/java/br/dev/jstec/library_api/api/model/entity/Book.java:23-26 | a book without id gets a key no row holds yet; a book with an id keeps it |
| `Repository.Table.Saved` | src/main/java/br/dev/jstec/library_api/model/repository/BookRepository.java:9 | `save` returns the book with a non-null id and the same title, author and isbn; a book that had an id is returned unchanged |
| `Repository.Table.AfterSave` | src/main/java/br/dev/jstec/library_api/model/repository/BookRepository.java:9-10 | after `save` the table is well formed, gains only the saved key, finds the saved book under it, keeps every other row, and `existsByIsbn` holds of the saved isbn |
| `Repository.Table.AfterDelete` | src/main/java/br/dev/jstec/library_api/model/repository/BookRepository.java:9 | after `delete` the book's id is gone and every other row is kept; no id, or an unknown id, changes nothing |
| `Repository.EmptyTableHasNoIsbn` | src/main/java/br/dev/jstec/library_api/model/repository/BookRepository.java:10 | on an empty table `existsByIsbn` is false for every isbn |
| `Repository.SaveFreshIsbnKeepsUnique` | src/main/java/br/dev/jstec/library_api/service/impl/BookServiceImpl.java:26-30 | saving a book whose isbn no row has keeps isbns pairwise distinct |
| `Repository.OverwriteKeepsUniqueIff` | src/main/java/br/dev/jstec/library_api/service/impl/BookServiceImpl.java:53-59 | overwriting a row by id keeps isbns distinct if and only if no other row has the new isbn |
| `Repository.DeleteKeepsUnique` | src/main/java/br/dev/jstec/library_api/model/repository/BookRepository.java:9 | deleting a row keeps isbns distinct |
| `Repository.BookRepository.constructor` | src/main/java/br/dev/jstec/library_api/model/repository/BookRepository.java:8-11 | the store starts empty and well formed, with the IDENTITY counter at 1 |
| `Repository.BookRepository.ExistsByIsbn` | src/main/java/br/dev/jstec/library_api/model/repository/BookRepository.java:10 | true exactly when some stored row has that isbn; the store is not modified |
| `Repository.BookRepository.FindById` | src/main/java/br/dev/jstec/library_api/model/repository/BookRepository.java:9 | returns the row with that id or empty; the store is not modified |
| `Repository.BookRepository.Save` | src/main/java/br/dev/jstec/library_api/model/repository/BookRepository.java:9 | updates the map in place to `AfterSave` and returns `Saved`; the store stays well formed |
| `Repository.BookRepository.Delete` | src/main/java/br/dev/jstec/library_api/model/repository/BookRepository.java:9 | removes the row with the book's id in place, as `AfterDelete` |
| `Service.SaveStep` | src/main/java/br/dev/jstec/library_api/service/impl/BookServiceImpl.java:25-31 | a stored isbn gives `BusinessException("Isbn Já cadastrado")` with the table unchanged; a null book gives a null-pointer failure; otherwise success, returning exactly what the repository's `save` returns (non-null id, found under it afterwards) |
| `Service.DeleteStep` | src/main/java/br/dev/jstec/library_api/service/impl/BookServiceImpl.java:41-49 | a null book or null id gives `IllegalArgumentException("Book can't be null")` with the table unchanged; a book with an id always succeeds, its id is gone and every other lookup is as before |
| `Service.UpdateStep` | src/main/java/br/dev/jstec/library_api/service/impl/BookServiceImpl.java:52-60 | a null book or null id gives `IllegalArgumentException` with no write; a book with an id always succeeds: it is written over its id, with no isbn check, and returned |
| `Service.NoArgsBookIsRefused` | src/main/java/br/dev/jstec/library_api/api/model/entity/Book.java:18-26 | a no-args book (every field null) is refused by `update` and `delete` with `IllegalArgumentException` and writes nothing |
| `Service.SaveKeepsIsbnsUnique` | src/main/java/br/dev/jstec/library_api/service/impl/BookServiceImpl.java:26-30 | `save` keeps isbns pairwise distinct, whether it succeeds or fails |
| `Service.SecondSaveOfSameIsbnFails` | src/main/java/br/dev/jstec/library_api/service/impl/BookServiceImpl.java:26-30 | after a successful save of isbn X, the next save with isbn X fails with the business message and writes nothing |
| `Service.InsertOnlyRunKeepsIsbn` | src/main/java/br/dev/jstec/library_api/service/impl/BookServiceImpl.java:25-38 | an isbn some row has is still found after any sequence of `getById` calls and `save` calls of null or id-less books |
| `Service.LaterSaveOfSameIsbnFails` | src/main/java/br/dev/jstec/library_api/service/impl/BookServiceImpl.java:26-30 | after a successful save of isbn X and any further calls that only add rows, a save with isbn X fails with the business message and writes nothing |
| `Service.OverwritingSaveFreesIsbn` | src/main/java/br/dev/jstec/library_api/service/impl/BookServiceImpl.java:26-30 | a concrete run where a save carrying the id of the row with isbn "001" replaces that isbn, after which a new save of "001" succeeds |
| `Service.UpdateKeepsIsbnsUniqueIff` | src/main/java/br/dev/jstec/library_api/service/impl/BookServiceImpl.java:53-59 | `update` keeps isbns distinct if and only if no other row has the book's isbn |
| `Service.UpdateCanDuplicateIsbn` | src/main/java/br/dev/jstec/library_api/service/impl/BookServiceImpl.java:53-59 | a concrete store with distinct isbns where a successful `update` leaves two rows with isbn "001" |
| `Service.UpdateIsIdempotent` | src/main/java/br/dev/jstec/library_api/service/impl/BookServiceImpl.java:52-60 | updating twice with the same book gives the same result and store as updating once |
| `Service.DeleteKeepsIsbnsUnique` | src/main/java/br/dev/jstec/library_api/service/impl/BookServiceImpl.java:41-49 | `delete` keeps isbns distinct |
| `Service.Apply` | src/main/java/br/dev/jstec/library_api/service/impl/BookServiceImpl.java:25-60 | every service call leaves a well-formed store, and `getById` leaves it as it was |
| `Service.Run` | src/main/java/br/dev/jstec/library_api/service/impl/BookServiceImpl.java:25-60 | any sequence of service calls, made one after another, leaves a well-formed store |
| `Service.RunWithoutUpdateKeepsIsbnsUnique` | src/main/java/br/dev/jstec/library_api/service/impl/BookServiceImpl.java:25-49 | any sequence of `save`, `getById` and `delete` calls, successful or not, keeps isbns pairwise distinct |
| `Service.BookServiceImpl.constructor` | src/main/java/br/dev/jstec/library_api/service/impl/BookServiceImpl.java:19-22 | the service keeps the repository it is given |
| `Service.BookServiceImpl.Save` | src/main/java/br/dev/jstec/library_api/service/impl/BookServiceImpl.java:25-31 | checks `existsByIsbn` and then calls the repository's `save`; its result and the new store are those of `SaveStep` |
| `Service.BookServiceImpl.GetById` | src/main/java/br/dev/jstec/library_api/service/impl/BookServiceImpl.java:34-38 | returns the stored row when the id is present and empty when it is absent; never fails, changes nothing |
| `Service.BookServiceImpl.Delete` | src/main/java/br/dev/jstec/library_api/service/impl/BookServiceImpl.java:41-49 | guards, then calls the repository's `delete` once; its result and the new store are those of `DeleteStep` |
| `Service.BookServiceImpl.Update` | src/main/java/br/dev/jstec/library_api/service/impl/BookServiceImpl.java:52-60 | guards, then calls the repository's `save`; its result and the new store are those of `UpdateStep` |
| `Controller.HandleValidationException` | src/main/java/br/dev/jstec/library_api/api/resource/BookController.java:111-119 | bad request with one error per violated field |
| `Controller.HandleBusinessException` | src/main/java/br/dev/jstec/library_api/api/resource/BookController.java:122-128 | bad request with exactly one error, the exception's message |
| `Controller.Handle` | src/main/java/br/dev/jstec/library_api/api/resource/BookController.java:111-128 | a business exception reaches its handler; any other service exception is unhandled |
| `Controller.Merge` | src/main/java/br/dev/jstec/library_api/api/resource/BookController.java:98-101 | the merged book is the DTO's title, author and isbn under the fetched book's id |
| `Controller.MergeForgetsOldFields` | src/main/java/br/dev/jstec/library_api/api/resource/BookController.java:98-101 | merging is idempotent and ignores the fetched title, author and isbn |
| `Controller.CreateExchange` | src/main/java/br/dev/jstec/library_api/api/resource/BookController.java:46-54 | an invalid DTO gives its violations with no write; a stored isbn gives the single business error with no write; otherwise created, carrying the DTO's fields and a non-null id (the DTO's own, if it had one, else one no row held) under which the book is stored, every other row kept; never an internal error |
| `Controller.GetOutcome` | src/main/java/br/dev/jstec/library_api/api/resource/BookController.java:56-65 | ok with the stored book exactly when the id is stored, otherwise not found |
| `Controller.DeleteExchange` | src/main/java/br/dev/jstec/library_api/api/resource/BookController.java:83-90 | not found with no write exactly when the id is absent; otherwise no content, with only that row removed |
| `Controller.UpdateExchange` | src/main/java/br/dev/jstec/library_api/api/resource/BookController.java:94-109 | not found with no write exactly when the id is absent; otherwise the DTO's title, author and isbn, unvalidated, are stored under that id and answered |
| `Controller.CreatedIsFound` | src/main/java/br/dev/jstec/library_api/api/resource/BookController.java:46-65 | a book created by `POST` is what a following `GET` of its id answers |
| `Controller.CreateWithStoredIdOverwrites` | src/main/java/br/dev/jstec/library_api/api/resource/BookController.java:46-54 | a valid DTO with a stored id and a free isbn overwrites that row and is answered as created |
| `Controller.DeletedIsNotFound` | src/main/java/br/dev/jstec/library_api/api/resource/BookController.java:83-90 | after `DELETE` of an id, `GET` of that id is not found |
| `Controller.CreateAndDeleteKeepIsbnsUnique` | src/main/java/br/dev/jstec/library_api/api/resource/BookController.java:46-90 | `POST` and `DELETE` keep isbns distinct across the store |
| `Controller.BookController.constructor` | src/main/java/br/dev/jstec/library_api/api/resource/BookController.java:41-44 | the controller keeps the service it is given |
| `Controller.BookController.Create` | src/main/java/br/dev/jstec/library_api/api/resource/BookController.java:46-54 | validates, copies, calls the service's `save`; outcome and new store are those of `CreateExchange` |
| `Controller.BookController.Get` | src/main/java/br/dev/jstec/library_api/api/resource/BookController.java:56-65 | outcome is `GetOutcome`; changes nothing |
| `Controller.BookController.Delete` | src/main/java/br/dev/jstec/library_api/api/resource/BookController.java:83-90 | looks up, then calls the service's `delete` only when found; outcome and new store are those of `DeleteExchange` |
| `Controller.BookController.Update` | src/main/java/br/dev/jstec/library_api/api/resource/BookController.java:94-109 | looks up, sets author, title and isbn on the fetched book, calls the service's `update` only when found; outcome and new store are those of `UpdateExchange` |

## Left out

- Filtered search and pagination (`find`): the controller calls a service `find` that `BookService` does not declare and `BookServiceImpl` does not implement. `Page` and `Pageable` are framework types.
- HTTP transport, status annotations, JSON and request binding, and `ApiErrors` are not part of this model. Its source is not available, so the model assumes it lists each validation error's default message, or the business exception's message.
- The validation messages are the constraint's default English text. Their order follows field declaration order; the validator does not guarantee an order.
- ModelMapper is modelled as a plain four-field copy between DTO and entity.
- JPA internals: IDENTITY generation is a counter that hands out a key no row holds. A `save` with an id no row has is modelled as an insert under that id; Hibernate's merge of an unknown detached entity is not modelled.
- Object identity and aliasing are not modelled. `Book` is a value here: JPA's `persist` setting the id on the caller's object, and the setters changing a managed entity, are both modelled as new values.
- Ids are unbounded integers: 32-bit `Integer` overflow of the IDENTITY column is not modelled. A null id passed to `getById` or to a path variable is not modelled either.
- How many times a repository method is called is not counted; the model states the single effect of each call.
- Concurrency: the race between `existsByIsbn` and `save` under concurrent requests is outside this sequential model.
- Storage failures, Spring dependency injection and profiles are left out.
