# Library catalog service: a Dafny model

This project models the core of a small library-management service: the
catalog service that adds, reads, updates, renames, deletes and toggles the
availability of books. It also models the validation rules on the inbound
book payload and the availability sentence of the outbound book record.

The storage layer (a Spring Data repository) is modelled as the state it
abstracts: a map from surrogate id to stored book, plus the next id the
store hands out (`Catalog.State`). On this state the service keeps one
invariant, `Catalog.Consistent`:

- every key is the id of the book stored under it;
- every id is below the next id, so a deleted id is never reused;
- every stored title has text;
- no two books share a title;
- no two books share an ISBN that has text. Absent and blank ISBNs never collide.

The model has two layers.

- **Pure layer** (`Catalog`). Every service operation is a function from
  the state before to its result and the state after (`Catalog.Outcome`).
  The contracts state the error rules and their precedence. They state that
  a failed operation writes nothing and what a successful one changes. They
  also state that the invariant is kept.
- **Imperative layer** (`Service.BookServiceImpl`). A class holds `books`
  and `nextId`. Its methods run the source's check-then-write steps: look
  the book up, check uniqueness, call the setters, then save. Each method
  is proved to leave exactly the state and result that the pure function of
  the same name gives, and to keep `Valid()`.

Cross-operation properties are lemmas in `CatalogProperties`: delete then
get, toggle twice, rename then look up, the self-rename quirk, and the
concrete scenarios.

Domain errors are a datatype instead of exceptions:

- `NotFound`, carrying the id or title that was looked up;
- `DuplicateTitle`, carrying the title;
- `DuplicateIsbn`, carrying the ISBN;
- `InvalidInput`.

Java `null` is `None` of `Wrappers.Option`. `String.isBlank` follows
`Character.isWhitespace` (`JavaText`).

Where the documentation and the code disagree, the model follows the code:

- The interface comment at `src/main/java/com/library/service/BookService.java:35`
  says the availability check throws for an unknown title. The
  implementation returns the "not in the library's collection" sentence
  instead, and so does the model.
- The service does not re-validate the payload of add and update. It relies
  on the transport layer's `@Valid`. The model therefore states the payload
  rules as a precondition (`BookDto.ValidDto`) and has no `InvalidInput`
  path for add or update.
- The ISBN uniqueness checks test for a non-null, non-blank ISBN. So ten
  spaces pass validation and count as "no ISBN" (`BookDto.BlankIsbnPassesValidation`).
- Both title patches check `existsByTitle(newTitle)` without excluding the
  book being renamed. So renaming a book to its own title fails with
  `DuplicateTitle`. The full update exempts an unchanged title. The model
  keeps this difference (`CatalogProperties.RetitleToOwnTitleRejected`,
  `CatalogProperties.UpdateKeepingOwnTitleAccepted`).

## Model

| member | source | states |
|---|---|---|
| `BookDto.FromPayload` | src/main/java/com/library/dto/BookDTO.java:30 | A decoded payload keeps title, author and ISBN as sent. `available` is true unless the client sent false. |
| `BookDto.ValidDtoFields` | src/main/java/com/library/dto/BookDTO.java:20-28 | A payload is valid exactly when: the title is present, non-blank and at most 255 long; the author is absent or at most 255 long; the ISBN is absent or 10 to 20 long. |
| `BookDto.NotBlankIsNonEmpty` | src/main/java/com/library/dto/BookDTO.java:20-21 | A non-blank title has length at least 1, so `@NotBlank` already implies the title's minimum size. |
| `BookDto.EmptyIsbnRejected` | src/main/java/com/library/dto/BookDTO.java:27-28 | A payload whose ISBN is the empty string is invalid. |
| `BookDto.BlankIsbnPassesValidation` | src/main/java/com/library/dto/BookDTO.java:27-28 | An ISBN of ten spaces is valid, yet the service treats it as "no ISBN". |
| `BookResponse.AvailabilityStatus` | src/main/java/com/library/dto/BookResponseDTO.java:32-36 | The sentence is the "is available." form exactly when `available` is true. It is the "is checked out." form exactly when it is false. It is never a "not in the library's collection" sentence, for any title. |
| `BookResponse.StatusSentenceInjective` | src/main/java/com/library/service/BookServiceImpl.java:47-50 | Two status sentences are equal only when they have the same title and the same form, so the three forms never coincide. |
| `BookResponse.NeverNotInCollection` | src/main/java/com/library/dto/BookResponseDTO.java:32-36 | No "available" or "checked out" sentence equals a "not in collection" sentence, whatever the two titles are. |
| `Catalog.TitleExists` | src/main/java/com/library/repository/BookRepository.java:30 | Some stored book has exactly the title, which is the same as the title being among the stored titles. |
| `Catalog.IsbnExists` | src/main/java/com/library/repository/BookRepository.java:46 | Some stored book has exactly the ISBN, which is the same as the ISBN being among the stored ISBNs. |
| `Catalog.FindByTitle` | src/main/java/com/library/repository/BookRepository.java:22 | When titles are unique, the lookup finds a book exactly when some stored book has the title, and then it finds that book. |
| `Catalog.ToResponseLossless` | src/main/java/com/library/service/BookServiceImpl.java:193-203 | Mapping a stored book to its record loses nothing: two books give the same record only if they are equal. |
| `Catalog.ToEntity` | src/main/java/com/library/service/BookServiceImpl.java:208-215 | The entity built from a payload carries its title, author, ISBN and availability, whatever id and timestamps the store adds. |
| `Catalog.SortedIds` | src/main/java/com/library/service/BookServiceImpl.java:30 | The stored ids listed once each, in strictly ascending order, none missing. |
| `Catalog.ResponsesOf` | src/main/java/com/library/service/BookServiceImpl.java:30-32 | Mapping over a list of ids gives one record per id, in the same order, each the mapped stored book. |
| `Catalog.GetAllBooks` | src/main/java/com/library/service/BookServiceImpl.java:28-33 | The listing has one record per stored book. Each record is its book mapped verbatim, every stored id appears, and no id appears twice. |
| `Catalog.GetBookById` | src/main/java/com/library/service/BookServiceImpl.java:36-41 | Succeeds exactly when the id is stored, with that book's record. Otherwise it fails with NotFound for that id. |
| `Catalog.CheckBookAvailability` | src/main/java/com/library/service/BookServiceImpl.java:44-51 | Total, never an error. Gives the "not in the library's collection" sentence exactly when no book has the title, "available" exactly when the book with that title is available, and "checked out" exactly when it is not. |
| `Catalog.AddBook` | src/main/java/com/library/service/BookServiceImpl.java:55-74 | DuplicateTitle exactly when the title is stored. DuplicateIsbn exactly when the title is new and the ISBN has text and is stored, so the title check comes first. A DuplicateIsbn error carries the payload's ISBN. Any error leaves the state unchanged. Success happens exactly when neither check fails. On success: one new book under the next id, which then advances by one, so no id is ever reused; the book carries the payload, with equal creation and update stamps; all other books unchanged; invariant kept. |
| `Catalog.UpdateBook` | src/main/java/com/library/service/BookServiceImpl.java:78-107 | NotFound exactly when the id is absent. DuplicateTitle exactly when another book has the new title. DuplicateIsbn exactly when the title is free and another book has the new ISBN, which has text; that error carries the ISBN. Any error leaves the state unchanged. Success happens exactly when the id is stored and neither duplicate applies. On success only that book's title, author, ISBN, availability and update stamp change, its id and creation stamp stay, other books are untouched, and the invariant is kept. |
| `Catalog.UpdateTitleById` | src/main/java/com/library/service/BookServiceImpl.java:111-131 | InvalidInput exactly when the new title is null or blank. Then NotFound exactly when the id is absent. Then DuplicateTitle, carrying the new title, exactly when any book has it, this one included. Errors write nothing. Success happens exactly when the title has text, the id is stored and no book has the title. On success only the title and update stamp of that book change, and the invariant is kept. |
| `Catalog.UpdateTitleByOldTitle` | src/main/java/com/library/service/BookServiceImpl.java:135-158 | InvalidInput exactly when either title is null or blank. Then NotFound for the old title exactly when no book has it. Then DuplicateTitle, carrying the new title, exactly when any book has it. Errors write nothing. Success happens exactly when both titles have text, the old title is stored and the new one is not. On success the book that had the old title is renamed, and nothing else changes except its update stamp. |
| `Catalog.DeleteBook` | src/main/java/com/library/service/BookServiceImpl.java:162-171 | NotFound exactly when the id is absent, and then nothing is removed. Success happens exactly when the id is stored, and then exactly that key is removed. Remaining books are unchanged and the invariant is kept. |
| `Catalog.ToggleAvailability` | src/main/java/com/library/service/BookServiceImpl.java:175-188 | NotFound exactly when the id is absent, and the state is then unchanged. Success happens exactly when the id is stored, and then `available` of that book is negated and its update stamp refreshed. Nothing else changes. |
| `Service.BookServiceImpl.constructor` | src/main/java/com/library/service/BookServiceImpl.java:25 | A service over an empty repository satisfies the invariant. |
| `Service.BookServiceImpl.Insert` | src/main/java/com/library/service/BookServiceImpl.java:70 | Saving a new entity stores it under the next id, with both stamps set, and advances the next id. |
| `Service.BookServiceImpl.Save` | src/main/java/com/library/service/BookServiceImpl.java:103 | Saving a stored entity overwrites it under its id with a fresh update stamp. |
| `Service.BookServiceImpl.AddBook` | src/main/java/com/library/service/BookServiceImpl.java:55-74 | The in-place add leaves exactly the result and state of `Catalog.AddBook`, and keeps `Valid()`. |
| `Service.BookServiceImpl.UpdateBook` | src/main/java/com/library/service/BookServiceImpl.java:78-107 | The setter sequence and save leave exactly the result and state of `Catalog.UpdateBook`, and keep `Valid()`. |
| `Service.BookServiceImpl.UpdateTitleById` | src/main/java/com/library/service/BookServiceImpl.java:111-131 | The in-place rename by id matches `Catalog.UpdateTitleById` and keeps `Valid()`. |
| `Service.BookServiceImpl.UpdateTitleByOldTitle` | src/main/java/com/library/service/BookServiceImpl.java:135-158 | The in-place rename by old title matches `Catalog.UpdateTitleByOldTitle` and keeps `Valid()`. |
| `Service.BookServiceImpl.DeleteBook` | src/main/java/com/library/service/BookServiceImpl.java:162-171 | The existence check and `deleteById` match `Catalog.DeleteBook` and keep `Valid()`. |
| `Service.BookServiceImpl.ToggleAvailability` | src/main/java/com/library/service/BookServiceImpl.java:175-188 | The in-place toggle matches `Catalog.ToggleAvailability` and keeps `Valid()`. |
| `CatalogProperties.AddThenGet` | src/main/java/com/library/service/BookServiceImpl.java:69-73 | After a successful add, a get by the returned id gives the same record. That record carries the payload's four fields and equal creation and update stamps. |
| `CatalogProperties.DeleteThenGet` | src/test/java/com/library/controller/BookControllerTest.java:247-256 | After a delete, a get by that id and a second delete of it both report NotFound. |
| `CatalogProperties.DeletedIdNotReused` | src/main/java/com/library/service/BookServiceImpl.java:165-169 | A book added straight after a delete never receives the deleted id. For any sequence of calls this follows from `Catalog.AddBook` handing out the next id and advancing it. |
| `CatalogProperties.ToggleTwice` | src/main/java/com/library/service/BookServiceImpl.java:178-182 | Two toggles restore the store exactly, except for the book's update stamp. An absent id leaves the store as it was. |
| `CatalogProperties.StatusMatchesRecord` | src/main/java/com/library/service/BookServiceImpl.java:46-49 | For a stored book, the availability check on its title gives the same sentence as its record's `getAvailabilityStatus`. |
| `CatalogProperties.ToggleSwitchesStatus` | src/test/java/com/library/controller/BookControllerTest.java:258-283 | Toggling a stored book turns its "available" sentence into "checked out", and the other way round. |
| `CatalogProperties.RenameMovesLookup` | src/test/java/com/library/controller/BookControllerTest.java:181-206 | Renaming a stored title to one no book has succeeds. After a successful rename by old title, a lookup by the new title finds the same book. No book has the old title any more, and checking the old title reports "not in the library's collection". |
| `CatalogProperties.RetitleToOwnTitleRejected` | src/main/java/com/library/service/BookServiceImpl.java:122 | Renaming a stored book to its own current title fails with DuplicateTitle, both by id and by old title. |
| `CatalogProperties.UpdateKeepingOwnTitleAccepted` | src/main/java/com/library/service/BookServiceImpl.java:85-93 | A full update that keeps the book's own title and ISBN succeeds. |
| `CatalogProperties.GatsbyScenario` | src/test/java/com/library/controller/BookControllerTest.java:104-116 | "The Great Gatsby" added to an empty catalog is available and reported "is available."; after a toggle it is checked out and reported "is checked out.". |
| `CatalogProperties.UnknownBookScenario` | src/test/java/com/library/controller/BookControllerTest.java:138-150 | With no books, "Unknown Book" is reported as not in the library's collection, without an error. |
| `CatalogProperties.Retitle1984Scenario` | src/test/java/com/library/controller/BookControllerTest.java:220-231 | Renaming any stored book to "1984" while "1984" is stored fails with DuplicateTitle, whether the book is named by its old title or by its id. |

## Left out

- HTTP routing, status codes and the exception-to-response mapping: these are thin delegation. The controller and the global exception handler are not part of this model.
- The Spring Boot bootstrap, OpenAPI metadata and dependency injection are not part of this model.
- Logging is left out. It has no effect on results.
- `@Transactional` boundaries and the race between concurrent callers that both pass a uniqueness check are left out. Each operation is modelled as one atomic step.
- Failures of the storage layer are left out: connectivity errors, and constraint violations raised by the database. The model's repository never fails.
- The exceptions' message texts are left out. Errors keep only the kind and the looked-up or duplicate value. `InvalidInput` carries no message.
- Timestamps are set by the persistence layer from its clock. The clock is a `now` parameter of every write. Its values are unconstrained, so the model does not state that `updatedAt` never precedes `createdAt`, or that it grows with each save.
- Ids are unbounded integers: Java's `Long` overflow is not modelled. The store numbers ids from 1 upward and never reuses one.
- Lengths are counted in Unicode scalar values. Java's `length()` counts UTF-16 code units, so titles outside the Basic Multilingual Plane measure differently.
- `@NotBlank` is taken to use the same notion of whitespace as `String.isBlank`.
- The Lombok builder of the payload ignores the `available = true` initialiser. Only the no-argument-constructor path, which keeps the default, is modelled.
- `findByIsbn` is not modelled. The service never calls it.
- `Catalog.GetAllBooks`: the model lists books by ascending id. The repository's `findAll` order is not specified by the source.
- `CatalogProperties.ToggleTwice`: two toggles restore every field except the book's `updatedAt`, which carries the second save's stamp. It is not a restoration of the whole stored record.
- `CatalogProperties.GatsbyScenario` and `CatalogProperties.UnknownBookScenario` state the expected sentence as `StatusSentence(title, form)`. That is the same concatenation the source performs, not a single pre-joined literal.
