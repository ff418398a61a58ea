/**
 * The catalog service as it runs: an object holding the repository's
 * contents, whose write operations check first and then change the stored
 * map in place. Each method is proved to do exactly what the function of
 * the same name in module Catalog says, and to keep the invariant.
 */
module Service {
  import opened Wrappers
  import opened JavaText
  import opened BookDto
  import opened BookResponse
  import opened Catalog

  class BookServiceImpl {
    /** The repository: stored books by id. */
    var books: map<int, Book>
    /** The id the repository hands out on the next insert. */
    var nextId: int

    /** The repository's contents as a value. */
    function Model(): State
      reads this
    {
      State(books, nextId)
    }

    ghost predicate Valid()
      reads this
    {
      Catalog.Consistent(Model())
    }

    /** An empty catalog; the store numbers books from 1. */
    constructor ()
      ensures Valid()
      ensures books == map[] && nextId == 1
    {
      books := map[];
      nextId := 1;
    }

    /** `save` of a new entity: assigns the next id and both timestamps. */
    method Insert(draft: Draft, now: Timestamp) returns (saved: Book)
      modifies this
      ensures saved == Catalog.Stored(draft, old(nextId), now)
      ensures books == old(books)[saved.id := saved] && nextId == old(nextId) + 1
    {
      saved := Catalog.Stored(draft, nextId, now);
      books := books[nextId := saved];
      nextId := nextId + 1;
    }

    /** `save` of an entity already stored under its id: refreshes `updatedAt`. */
    method Save(book: Book, now: Timestamp) returns (saved: Book)
      modifies this
      ensures saved == book.(updatedAt := now)
      ensures books == old(books)[book.id := saved] && nextId == old(nextId)
    {
      saved := book.(updatedAt := now);
      books := books[book.id := saved];
    }

    method AddBook(dto: BookDTO, now: Timestamp) returns (r: Result<BookResponseDTO>)
      requires Valid() && ValidDto(dto)
      modifies this
      ensures Valid()
      ensures Outcome(r, Model()) == Catalog.AddBook(old(Model()), dto, now)
    {
      var title := dto.title.value;
      if Catalog.TitleExists(books, title) {
        return Err(DuplicateTitle(title));
      }
      if dto.isbn.Some? && !IsBlank(dto.isbn.value) && Catalog.IsbnExists(books, dto.isbn.value) {
        return Err(DuplicateIsbn(dto.isbn.value));
      }
      var book := Catalog.ToEntity(dto);
      var saved := Insert(book, now);
      r := Ok(Catalog.ToResponse(saved));
    }

    method UpdateBook(id: int, dto: BookDTO, now: Timestamp) returns (r: Result<BookResponseDTO>)
      requires Valid() && ValidDto(dto)
      modifies this
      ensures Valid()
      ensures Outcome(r, Model()) == Catalog.UpdateBook(old(Model()), id, dto, now)
    {
      if id !in books {
        return Err(NotFound(ById(id)));
      }
      var existing := books[id];
      var title := dto.title.value;
      if existing.title != title && Catalog.TitleExists(books, title) {
        return Err(DuplicateTitle(title));
      }
      if dto.isbn.Some? && !IsBlank(dto.isbn.value) && dto.isbn != existing.isbn
         && Catalog.IsbnExists(books, dto.isbn.value) {
        return Err(DuplicateIsbn(dto.isbn.value));
      }
      existing := existing.(title := title);
      existing := existing.(author := dto.author);
      existing := existing.(isbn := dto.isbn);
      existing := existing.(available := dto.available);
      var saved := Save(existing, now);
      r := Ok(Catalog.ToResponse(saved));
    }

    method UpdateTitleById(id: int, newTitle: Option<string>, now: Timestamp) returns (r: Result<BookResponseDTO>)
      requires Valid()
      modifies this
      ensures Valid()
      ensures Outcome(r, Model()) == Catalog.UpdateTitleById(old(Model()), id, newTitle, now)
    {
      if newTitle.None? || IsBlank(newTitle.value) {
        return Err(InvalidInput);
      }
      if id !in books {
        return Err(NotFound(ById(id)));
      }
      var existing := books[id];
      if Catalog.TitleExists(books, newTitle.value) {
        return Err(DuplicateTitle(newTitle.value));
      }
      existing := existing.(title := newTitle.value);
      var saved := Save(existing, now);
      r := Ok(Catalog.ToResponse(saved));
    }

    method UpdateTitleByOldTitle(oldTitle: Option<string>, newTitle: Option<string>, now: Timestamp)
      returns (r: Result<BookResponseDTO>)
      requires Valid()
      modifies this
      ensures Valid()
      ensures Outcome(r, Model()) == Catalog.UpdateTitleByOldTitle(old(Model()), oldTitle, newTitle, now)
    {
      if oldTitle.None? || IsBlank(oldTitle.value) || newTitle.None? || IsBlank(newTitle.value) {
        return Err(InvalidInput);
      }
      var found := Catalog.FindByTitle(books, oldTitle.value);
      if found.None? {
        return Err(NotFound(ByTitle(oldTitle.value)));
      }
      var existing := books[found.value];
      if Catalog.TitleExists(books, newTitle.value) {
        return Err(DuplicateTitle(newTitle.value));
      }
      existing := existing.(title := newTitle.value);
      var saved := Save(existing, now);
      r := Ok(Catalog.ToResponse(saved));
    }

    method DeleteBook(id: int) returns (r: Result<()>)
      requires Valid()
      modifies this
      ensures Valid()
      ensures Outcome(r, Model()) == Catalog.DeleteBook(old(Model()), id)
    {
      if id !in books {
        return Err(NotFound(ById(id)));
      }
      books := books - {id};
      r := Ok(());
    }

    method ToggleAvailability(id: int, now: Timestamp) returns (r: Result<BookResponseDTO>)
      requires Valid()
      modifies this
      ensures Valid()
      ensures Outcome(r, Model()) == Catalog.ToggleAvailability(old(Model()), id, now)
    {
      if id !in books {
        return Err(NotFound(ById(id)));
      }
      var existing := books[id];
      existing := existing.(available := !existing.available);
      var saved := Save(existing, now);
      r := Ok(Catalog.ToResponse(saved));
    }
  }
}
