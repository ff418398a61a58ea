/**
 * Properties of the catalog that relate several operations, and the
 * concrete scenarios the service's tests walk through.
 */
module CatalogProperties {
  import opened Wrappers
  import opened JavaText
  import opened BookDto
  import opened BookResponse
  import opened Catalog

  /** A book just added is found under its new id, with both timestamps equal. */
  lemma AddThenGet(s: State, dto: BookDTO, now: Timestamp)
    requires Consistent(s) && ValidDto(dto)
    ensures var o := AddBook(s, dto, now);
      o.result.Ok? ==>
        && GetBookById(o.next, o.result.value.id) == o.result
        && Some(o.result.value.title) == dto.title
        && o.result.value.author == dto.author
        && o.result.value.isbn == dto.isbn
        && o.result.value.available == dto.available
        && o.result.value.createdAt == o.result.value.updatedAt
  {
  }

  /** After a delete, the id is gone: a lookup and a second delete both report NotFound. */
  lemma DeleteThenGet(s: State, id: int)
    requires Consistent(s)
    ensures var next := DeleteBook(s, id).next;
      && GetBookById(next, id) == Err(NotFound(ById(id)))
      && DeleteBook(next, id).result == Err(NotFound(ById(id)))
  {
  }

  /** A deleted id is never handed out again. */
  lemma DeletedIdNotReused(s: State, id: int, dto: BookDTO, now: Timestamp)
    requires Consistent(s) && ValidDto(dto) && id in s.books
    ensures var o := AddBook(DeleteBook(s, id).next, dto, now);
      o.result.Ok? ==> o.result.value.id != id
  {
    var next := DeleteBook(s, id).next;
    assert next.nextId == s.nextId;
    assert id < s.nextId;
  }

  /**
   * Toggling twice restores the store, except that the book carries the
   * second save's `updatedAt`.
   */
  lemma ToggleTwice(s: State, id: int, t1: Timestamp, t2: Timestamp)
    requires Consistent(s)
    ensures var s2 := ToggleAvailability(ToggleAvailability(s, id, t1).next, id, t2).next;
      s2 == if id in s.books then State(s.books[id := s.books[id].(updatedAt := t2)], s.nextId) else s
  {
    if id in s.books {
      var s1 := ToggleAvailability(s, id, t1).next;
      var s2 := ToggleAvailability(s1, id, t2).next;
      assert s2.books[id] == s.books[id].(updatedAt := t2);
      assert s2.books == s.books[id := s.books[id].(updatedAt := t2)];
    }
  }

  /** For a stored book, the service's sentence is the one its record reports. */
  lemma StatusMatchesRecord(s: State, id: int)
    requires Consistent(s) && id in s.books
    ensures CheckBookAvailability(s, s.books[id].title) == AvailabilityStatus(ToResponse(s.books[id]))
  {
    var b := s.books[id];
    var r := CheckBookAvailability(s, b.title);
    if b.available {
      assert r == StatusSentence(b.title, Available);
    } else {
      assert r == StatusSentence(b.title, CheckedOut);
    }
  }

  /** Toggling a stored book switches its sentence between "available" and "checked out". */
  lemma ToggleSwitchesStatus(s: State, id: int, now: Timestamp)
    requires Consistent(s) && id in s.books
    ensures var t := s.books[id].title;
      var next := ToggleAvailability(s, id, now).next;
      && (CheckBookAvailability(s, t) == StatusSentence(t, Available)
          <==> CheckBookAvailability(next, t) == StatusSentence(t, CheckedOut))
      && (CheckBookAvailability(s, t) == StatusSentence(t, CheckedOut)
          <==> CheckBookAvailability(next, t) == StatusSentence(t, Available))
  {
    var next := ToggleAvailability(s, id, now).next;
    StatusMatchesRecord(s, id);
    StatusMatchesRecord(next, id);
  }

  /**
   * Renaming a stored title to an unused one succeeds; afterwards a lookup
   * by the new title finds the same book and no book has the old title.
   */
  lemma RenameMovesLookup(s: State, oldTitle: Option<string>, newTitle: Option<string>, now: Timestamp)
    requires Consistent(s)
    ensures (HasText(oldTitle) && HasText(newTitle) && TitleExists(s.books, oldTitle.value)
             && !TitleExists(s.books, newTitle.value))
      ==> UpdateTitleByOldTitle(s, oldTitle, newTitle, now).result.Ok?
    ensures var o := UpdateTitleByOldTitle(s, oldTitle, newTitle, now);
      o.result.Ok? ==>
        && FindByTitle(o.next.books, newTitle.value) == Some(o.result.value.id)
        && !TitleExists(o.next.books, oldTitle.value)
        && CheckBookAvailability(o.next, oldTitle.value) == StatusSentence(oldTitle.value, NotInCollection)
  {
    var o := UpdateTitleByOldTitle(s, oldTitle, newTitle, now);
    if o.result.Ok? {
      var id := o.result.value.id;
      assert o.next.books[id].title == newTitle.value;
    }
  }

  /**
   * Both title patches reject a book's own current title as a duplicate,
   * because their check does not exclude the book being renamed.
   */
  lemma RetitleToOwnTitleRejected(s: State, id: int, now: Timestamp)
    requires Consistent(s) && id in s.books
    ensures var t := s.books[id].title;
      && UpdateTitleById(s, id, Some(t), now).result == Err(DuplicateTitle(t))
      && UpdateTitleByOldTitle(s, Some(t), Some(t), now).result == Err(DuplicateTitle(t))
  {
    assert TitleExists(s.books, s.books[id].title);
  }

  /** The full update, by contrast, accepts a payload that keeps the book's title and ISBN. */
  lemma UpdateKeepingOwnTitleAccepted(s: State, id: int, dto: BookDTO, now: Timestamp)
    requires Consistent(s) && ValidDto(dto) && id in s.books
    requires dto.title == Some(s.books[id].title) && dto.isbn == s.books[id].isbn
    ensures UpdateBook(s, id, dto, now).result.Ok?
  {
  }

  // -----------------------------------------------------------------------
  // Scenarios

  const Gatsby := BookDTO(Some("The Great Gatsby"), Some("F. Scott Fitzgerald"), Some("9780743273565"), true)

  /** The Gatsby payload passes validation. */
  lemma GatsbyIsValid()
    ensures ValidDto(Gatsby)
  {
    assert !IsWhitespace(Gatsby.title.value[0]);
  }

  /**
   * Add "The Great Gatsby" to an empty catalog: it is reported available;
   * after a toggle it is reported checked out.
   */
  lemma GatsbyScenario(t0: Timestamp, t1: Timestamp)
    ensures ValidDto(Gatsby)
    ensures var added := AddBook(State(map[], 1), Gatsby, t0);
      && added.result.Ok? && added.result.value.available
      && CheckBookAvailability(added.next, "The Great Gatsby") == StatusSentence("The Great Gatsby", Available)
      && var toggled := ToggleAvailability(added.next, added.result.value.id, t1);
      && toggled.result.Ok? && !toggled.result.value.available
      && CheckBookAvailability(toggled.next, "The Great Gatsby") == StatusSentence("The Great Gatsby", CheckedOut)
  {
    GatsbyIsValid();
    var s0 := State(map[], 1);
    assert !TitleExists(s0.books, "The Great Gatsby");
    var added := AddBook(s0, Gatsby, t0);
    assert added.result.Ok?;
    var id := added.result.value.id;
    assert added.next.books.Keys == {id};
    assert added.next.books[id].title == "The Great Gatsby" && added.next.books[id].available;
    StatusMatchesRecord(added.next, id);
    var toggled := ToggleAvailability(added.next, id, t1);
    assert toggled.next.books[id].title == "The Great Gatsby" && !toggled.next.books[id].available;
    StatusMatchesRecord(toggled.next, id);
  }

  /** An empty catalog reports any title as not in the collection. */
  lemma UnknownBookScenario()
    ensures CheckBookAvailability(State(map[], 1), "Unknown Book")
      == StatusSentence("Unknown Book", NotInCollection)
  {
    assert !TitleExists(map[], "Unknown Book");
  }

  /**
   * Renaming a stored book to "1984" while "1984" is already stored is a
   * duplicate, whether the book is named by its old title or by its id.
   */
  lemma Retitle1984Scenario(s: State, idOf1984: int, other: int, now: Timestamp)
    requires Consistent(s) && idOf1984 in s.books && other in s.books
    requires s.books[idOf1984].title == "1984"
    ensures UpdateTitleByOldTitle(s, Some(s.books[other].title), Some("1984"), now).result
      == Err(DuplicateTitle("1984"))
    ensures UpdateTitleById(s, other, Some("1984"), now).result == Err(DuplicateTitle("1984"))
  {
    assert TitleExists(s.books, "1984");
  }
}
