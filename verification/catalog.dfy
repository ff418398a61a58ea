/**
 * The catalog service as functions of the stored state. The repository is
 * modelled as the state it abstracts: a map from surrogate id to the stored
 * book, and the next id the store will hand out. Each write operation of
 * the service is a function from the state before to its result and the
 * state after; the class in module Service runs the same steps in place.
 */
module Catalog {
  import opened Wrappers
  import opened JavaText
  import opened BookDto
  import opened BookResponse

  /** The persisted entity. */
  datatype Book = Book(
    id: int,
    title: string,
    author: Option<string>,
    isbn: Option<string>,
    available: bool,
    createdAt: Timestamp,
    updatedAt: Timestamp)

  /** An entity built from a payload, before the store gives it an id and timestamps. */
  datatype Draft = Draft(title: string, author: Option<string>, isbn: Option<string>, available: bool)

  /** The repository's contents. */
  datatype State = State(books: map<int, Book>, nextId: int)

  /** How a missing book was looked up. */
  datatype Lookup = ById(id: int) | ByTitle(title: string)

  datatype Error =
    | NotFound(key: Lookup)
    | DuplicateTitle(title: string)
    | DuplicateIsbn(isbn: string)
    | InvalidInput

  datatype Result<T> = Ok(value: T) | Err(error: Error)

  /** What an operation returns, with the state it leaves behind. */
  datatype Outcome<T> = Outcome(result: Result<T>, next: State)

  // ---------------------------------------------------------------------
  // Repository queries

  /** The titles of the stored books. */
  function Titles(books: map<int, Book>): set<string> {
    set id | id in books :: books[id].title
  }

  /** The ISBNs of the stored books, absent ones included. */
  function Isbns(books: map<int, Book>): set<Option<string>> {
    set id | id in books :: books[id].isbn
  }

  /** `existsByTitle`: some stored book has exactly this title. */
  predicate TitleExists(books: map<int, Book>, title: string)
    ensures TitleExists(books, title) <==> title in Titles(books)
  {
    exists id :: id in books && books[id].title == title
  }

  /** `existsByIsbn`: some stored book has exactly this ISBN. */
  predicate IsbnExists(books: map<int, Book>, isbn: string)
    ensures IsbnExists(books, isbn) <==> Some(isbn) in Isbns(books)
  {
    exists id :: id in books && books[id].isbn == Some(isbn)
  }

  /** The ISBN is non-null, non-blank and already stored. */
  predicate IsbnTaken(books: map<int, Book>, isbn: Option<string>) {
    HasText(isbn) && IsbnExists(books, isbn.value)
  }

  /** A book other than `id` has this title. */
  ghost predicate TitleHeldByOther(books: map<int, Book>, id: int, title: string) {
    exists j :: j in books && j != id && books[j].title == title
  }

  /** A book other than `id` has this ISBN. */
  ghost predicate IsbnHeldByOther(books: map<int, Book>, id: int, isbn: string) {
    exists j :: j in books && j != id && books[j].isbn == Some(isbn)
  }

  // ---------------------------------------------------------------------
  // The invariant

  ghost predicate UniqueTitles(books: map<int, Book>) {
    forall i, j :: i in books && j in books && books[i].title == books[j].title ==> i == j
  }

  /** Blank and absent ISBNs never collide; ISBNs with text do. */
  ghost predicate UniqueIsbns(books: map<int, Book>) {
    forall i, j :: i in books && j in books && HasText(books[i].isbn) && books[i].isbn == books[j].isbn ==> i == j
  }

  /**
   * Every key is the id of the book under it and lies below the next id
   * (so a deleted id is never handed out again), every stored title has
   * text, titles are unique, and ISBNs with text are unique.
   */
  ghost predicate Consistent(s: State) {
    && (forall id :: id in s.books ==> s.books[id].id == id && id < s.nextId && !IsBlank(s.books[id].title))
    && UniqueTitles(s.books)
    && UniqueIsbns(s.books)
  }

  /** `findByTitle`: the id of the book with this title, unique under the invariant. */
  function FindByTitle(books: map<int, Book>, title: string): (r: Option<int>)
    requires UniqueTitles(books)
    ensures r.Some? <==> TitleExists(books, title)
    ensures forall id :: id in books && books[id].title == title ==> r == Some(id)
  {
    if TitleExists(books, title) then
      var id :| id in books && books[id].title == title;
      Some(id)
    else
      None
  }

  // ---------------------------------------------------------------------
  // Mapping

  /** `mapToResponseDTO`: every field, verbatim. */
  function ToResponse(b: Book): BookResponseDTO {
    BookResponseDTO(b.id, b.title, b.author, b.isbn, b.available, b.createdAt, b.updatedAt)
  }

  /** The mapping loses nothing: two books map to the same record only if they are equal. */
  lemma ToResponseLossless(a: Book, b: Book)
    ensures ToResponse(a) == ToResponse(b) <==> a == b
  {
  }

  /** `mapToEntity`: the payload's four fields; id and timestamps are left to the store. */
  function ToEntity(dto: BookDTO): (d: Draft)
    requires dto.title.Some?
    ensures forall id, now :: Carries(Stored(d, id, now), dto)
  {
    Draft(dto.title.value, dto.author, dto.isbn, dto.available)
  }

  /** `save` of a new entity: the store assigns the next id and stamps both timestamps. */
  function Stored(d: Draft, id: int, now: Timestamp): Book {
    Book(id, d.title, d.author, d.isbn, d.available, now, now)
  }

  /** The stored book holds exactly the payload's title, author, ISBN and availability. */
  predicate Carries(b: Book, dto: BookDTO) {
    Some(b.title) == dto.title && b.author == dto.author && b.isbn == dto.isbn && b.available == dto.available
  }

  /** `after` agrees with `before` on every key except `id`, and has the same keys. */
  ghost predicate OthersUnchanged(before: map<int, Book>, after: map<int, Book>, id: int) {
    && after.Keys == before.Keys
    && forall k :: k in before && k != id ==> after[k] == before[k]
  }

  // ---------------------------------------------------------------------
  // Read operations

  /** Ids of `keys` in ascending order. */
  function SortedIds(keys: set<int>): (r: seq<int>)
    ensures |r| == |keys|
    ensures forall k :: k in keys <==> k in r
    ensures forall i, j :: 0 <= i < j < |r| ==> r[i] < r[j]
    decreases keys
  {
    if keys == {} then []
    else
      var m := Least(keys);
      var rest := SortedIds(keys - {m});
      assert forall i :: 0 <= i < |rest| ==> m < rest[i] by {
        forall i | 0 <= i < |rest| ensures m < rest[i] {
          assert rest[i] in rest;
        }
      }
      [m] + rest
  }

  /** The least element of a non-empty set of ids. */
  function Least(keys: set<int>): (m: int)
    requires keys != {}
    ensures m in keys && forall k :: k in keys ==> m <= k
  {
    LeastExists(keys);
    var m :| m in keys && forall k :: k in keys ==> m <= k;
    m
  }

  /** A finite non-empty set of integers has a least element. */
  lemma {:induction false} LeastExists(keys: set<int>)
    requires keys != {}
    ensures exists m :: m in keys && forall k :: k in keys ==> m <= k
    decreases |keys|
  {
    if forall y :: y !in keys {
      assert false;
    }
    var x :| x in keys;
    var others := keys - {x};
    if others == {} {
      forall k | k in keys ensures k == x {
        assert k in others <==> k != x;
      }
    } else {
      assert |others| < |keys|;
      LeastExists(others);
      var m :| m in others && forall k :: k in others ==> m <= k;
      var least := if x < m then x else m;
      assert forall k :: k in keys ==> least <= k by {
        forall k | k in keys ensures least <= k {
          if k != x { assert k in others; }
        }
      }
    }
  }

  /** The stream's `map(this::mapToResponseDTO)` over the given ids, in order. */
  function ResponsesOf(books: map<int, Book>, ids: seq<int>): (r: seq<BookResponseDTO>)
    requires forall i :: 0 <= i < |ids| ==> ids[i] in books
    ensures |r| == |ids|
    ensures forall i :: 0 <= i < |ids| ==> r[i] == ToResponse(books[ids[i]])
  {
    if ids == [] then [] else [ToResponse(books[ids[0]])] + ResponsesOf(books, ids[1..])
  }

  /**
   * `getAllBooks`: every stored book once, mapped to its record. The model
   * lists them by ascending id.
   */
  function GetAllBooks(s: State): (r: seq<BookResponseDTO>)
    requires Consistent(s)
    ensures |r| == |s.books|
    ensures forall i :: 0 <= i < |r| ==> r[i].id in s.books && r[i] == ToResponse(s.books[r[i].id])
    ensures forall id :: id in s.books ==> exists i :: 0 <= i < |r| && r[i].id == id
    ensures forall i, j :: 0 <= i < j < |r| ==> r[i].id < r[j].id
  {
    var ids := SortedIds(s.books.Keys);
    ListingCoversStore(s.books, ids);
    ResponsesOf(s.books, ids)
  }

  /** The listing holds each stored book once, in ascending id order. */
  lemma ListingCoversStore(books: map<int, Book>, ids: seq<int>)
    requires forall id :: id in books ==> books[id].id == id
    requires forall k :: k in books.Keys <==> k in ids
    requires forall i, j :: 0 <= i < j < |ids| ==> ids[i] < ids[j]
    ensures forall i :: 0 <= i < |ids| ==> ids[i] in books
    ensures var r := ResponsesOf(books, ids);
      forall i :: 0 <= i < |r| ==> r[i].id == ids[i]
    ensures var r := ResponsesOf(books, ids);
      forall i :: 0 <= i < |r| ==> r[i].id in books && r[i] == ToResponse(books[r[i].id])
    ensures var r := ResponsesOf(books, ids);
      forall id :: id in books ==> exists i :: 0 <= i < |r| && r[i].id == id
    ensures var r := ResponsesOf(books, ids);
      forall i, j :: 0 <= i < j < |r| ==> r[i].id < r[j].id
  {
    assert forall i :: 0 <= i < |ids| ==> ids[i] in books by {
      forall i | 0 <= i < |ids| ensures ids[i] in books {
        assert ids[i] in ids;
      }
    }
    var r := ResponsesOf(books, ids);
    forall i | 0 <= i < |r| ensures r[i].id == ids[i] {
      assert r[i] == ToResponse(books[ids[i]]);
    }
    forall id | id in books ensures exists i :: 0 <= i < |r| && r[i].id == id {
      assert id in ids;
      var i :| 0 <= i < |ids| && ids[i] == id;
      assert r[i] == ToResponse(books[ids[i]]);
      assert r[i].id == id;
    }
  }

  /** `getBookById`: the mapped book, or NotFound for an absent id. */
  function GetBookById(s: State, id: int): (r: Result<BookResponseDTO>)
    ensures r.Ok? <==> id in s.books
    ensures r.Ok? ==> r.value == ToResponse(s.books[id])
    ensures r.Err? ==> r.error == NotFound(ById(id))
  {
    if id in s.books then Ok(ToResponse(s.books[id])) else Err(NotFound(ById(id)))
  }

  /**
   * `checkBookAvailability`: total, never an error; exactly one of three
   * sentences, chosen by whether a book has the title and whether it is on
   * the shelf.
   */
  function CheckBookAvailability(s: State, title: string): (r: string)
    requires UniqueTitles(s.books)
    ensures r == StatusSentence(title, NotInCollection) <==> !TitleExists(s.books, title)
    ensures r == StatusSentence(title, Available) <==>
      exists id :: id in s.books && s.books[id].title == title && s.books[id].available
    ensures r == StatusSentence(title, CheckedOut) <==>
      exists id :: id in s.books && s.books[id].title == title && !s.books[id].available
  {
    var found := FindByTitle(s.books, title);
    var st := if found.None? then NotInCollection
              else if s.books[found.value].available then Available
              else CheckedOut;
    DistinctStandings(title, st);
    match found
    case Some(id) =>
      if s.books[id].available then "The book '" + title + "' is available."
      else "The book '" + title + "' is checked out."
    case None => "The book '" + title + "' is not in the library's collection."
  }

  /** For one title, the sentence of one form differs from those of the other two. */
  lemma DistinctStandings(title: string, st: Standing)
    ensures forall other :: other != st ==> StatusSentence(title, st) != StatusSentence(title, other)
  {
    forall other | other != st
      ensures StatusSentence(title, st) != StatusSentence(title, other)
    {
      if StatusSentence(title, st) == StatusSentence(title, other) {
        StatusSentenceInjective(title, st, title, other);
      }
    }
  }

  // ---------------------------------------------------------------------
  // Write operations

  /**
   * `addBook`: DuplicateTitle if the title is stored; otherwise DuplicateIsbn
   * if the ISBN has text and is stored; otherwise one new book under a fresh
   * id, carrying the payload.
   */
  function AddBook(s: State, dto: BookDTO, now: Timestamp): (o: Outcome<BookResponseDTO>)
    requires Consistent(s) && ValidDto(dto)
    ensures o.result.Err? ==> o.next == s
    ensures o.result == Err(DuplicateTitle(dto.title.value)) <==> TitleExists(s.books, dto.title.value)
    ensures (o.result.Err? && o.result.error.DuplicateIsbn?) <==>
      !TitleExists(s.books, dto.title.value) && IsbnTaken(s.books, dto.isbn)
    ensures (o.result.Err? && o.result.error.DuplicateIsbn?) ==> dto.isbn == Some(o.result.error.isbn)
    ensures o.result.Ok? <==> !TitleExists(s.books, dto.title.value) && !IsbnTaken(s.books, dto.isbn)
    ensures o.result.Ok? ==>
      var id := o.result.value.id;
      && id == s.nextId && o.next.nextId == s.nextId + 1
      && id !in s.books && id in o.next.books
      && o.next.books.Keys == s.books.Keys + {id}
      && (forall k :: k in s.books ==> o.next.books[k] == s.books[k])
      && Carries(o.next.books[id], dto)
      && o.next.books[id].createdAt == o.next.books[id].updatedAt == now
      && o.result.value == ToResponse(o.next.books[id])
    ensures Consistent(o.next)
  {
    var title := dto.title.value;
    if TitleExists(s.books, title) then
      Outcome(Err(DuplicateTitle(title)), s)
    else if IsbnTaken(s.books, dto.isbn) then
      Outcome(Err(DuplicateIsbn(dto.isbn.value)), s)
    else
      var book := Stored(ToEntity(dto), s.nextId, now);
      Outcome(Ok(ToResponse(book)), State(s.books[s.nextId := book], s.nextId + 1))
  }

  /** The book at `id` with the payload's four fields written over it. */
  function Overwritten(b: Book, dto: BookDTO, now: Timestamp): Book
    requires dto.title.Some?
  {
    b.(title := dto.title.value, author := dto.author, isbn := dto.isbn,
       available := dto.available, updatedAt := now)
  }

  /**
   * `updateBook`: NotFound for an absent id; DuplicateTitle only when another
   * book has the new title; DuplicateIsbn only when the new ISBN has text and
   * another book has it; otherwise title, author, ISBN and availability of
   * that one book are replaced.
   */
  function UpdateBook(s: State, id: int, dto: BookDTO, now: Timestamp): (o: Outcome<BookResponseDTO>)
    requires Consistent(s) && ValidDto(dto)
    ensures o.result.Err? ==> o.next == s
    ensures o.result == Err(NotFound(ById(id))) <==> id !in s.books
    ensures o.result == Err(DuplicateTitle(dto.title.value)) <==>
      id in s.books && TitleHeldByOther(s.books, id, dto.title.value)
    ensures (o.result.Err? && o.result.error.DuplicateIsbn?) <==>
      && id in s.books && !TitleHeldByOther(s.books, id, dto.title.value)
      && HasText(dto.isbn) && IsbnHeldByOther(s.books, id, dto.isbn.value)
    ensures (o.result.Err? && o.result.error.DuplicateIsbn?) ==> dto.isbn == Some(o.result.error.isbn)
    ensures o.result.Ok? <==>
      && id in s.books && !TitleHeldByOther(s.books, id, dto.title.value)
      && !(HasText(dto.isbn) && IsbnHeldByOther(s.books, id, dto.isbn.value))
    ensures o.result.Ok? ==>
      && id in s.books && id in o.next.books
      && OthersUnchanged(s.books, o.next.books, id)
      && o.next.nextId == s.nextId
      && Carries(o.next.books[id], dto)
      && o.next.books[id].id == id
      && o.next.books[id].createdAt == s.books[id].createdAt
      && o.next.books[id].updatedAt == now
      && o.result.value == ToResponse(o.next.books[id])
    ensures Consistent(o.next)
  {
    if id !in s.books then
      Outcome(Err(NotFound(ById(id))), s)
    else
      var existing := s.books[id];
      var title := dto.title.value;
      if existing.title != title && TitleExists(s.books, title) then
        Outcome(Err(DuplicateTitle(title)), s)
      else if HasText(dto.isbn) && dto.isbn != existing.isbn && IsbnExists(s.books, dto.isbn.value) then
        Outcome(Err(DuplicateIsbn(dto.isbn.value)), s)
      else
        var updated := Overwritten(existing, dto, now);
        Outcome(Ok(ToResponse(updated)), State(s.books[id := updated], s.nextId))
  }

  /** The book with only its title changed, as saved at `now`. */
  function Retitled(b: Book, title: string, now: Timestamp): Book {
    b.(title := title, updatedAt := now)
  }

  /**
   * `updateBookTitle(id, newTitle)`: InvalidInput for a null or blank title,
   * then NotFound for an absent id, then DuplicateTitle when any book,
   * this one included, has the new title; otherwise only the title changes.
   */
  function UpdateTitleById(s: State, id: int, newTitle: Option<string>, now: Timestamp): (o: Outcome<BookResponseDTO>)
    requires Consistent(s)
    ensures o.result.Err? ==> o.next == s
    ensures o.result == Err(InvalidInput) <==> !HasText(newTitle)
    ensures o.result == Err(NotFound(ById(id))) <==> HasText(newTitle) && id !in s.books
    ensures (o.result.Err? && o.result.error.DuplicateTitle?) <==>
      HasText(newTitle) && id in s.books && TitleExists(s.books, newTitle.value)
    ensures (o.result.Err? && o.result.error.DuplicateTitle?) ==> newTitle == Some(o.result.error.title)
    ensures o.result.Ok? <==> HasText(newTitle) && id in s.books && !TitleExists(s.books, newTitle.value)
    ensures o.result.Ok? ==>
      && id in s.books && o.next.nextId == s.nextId
      && o.next.books == s.books[id := Retitled(s.books[id], newTitle.value, now)]
      && o.result.value == ToResponse(o.next.books[id])
    ensures Consistent(o.next)
  {
    if !HasText(newTitle) then
      Outcome(Err(InvalidInput), s)
    else if id !in s.books then
      Outcome(Err(NotFound(ById(id))), s)
    else if TitleExists(s.books, newTitle.value) then
      Outcome(Err(DuplicateTitle(newTitle.value)), s)
    else
      var updated := Retitled(s.books[id], newTitle.value, now);
      Outcome(Ok(ToResponse(updated)), State(s.books[id := updated], s.nextId))
  }

  /**
   * `updateBookTitle(oldTitle, newTitle)`: InvalidInput if either title is
   * null or blank, then NotFound if no book has the old title, then
   * DuplicateTitle when any book has the new title; otherwise the book found
   * by its old title is renamed.
   */
  function UpdateTitleByOldTitle(s: State, oldTitle: Option<string>, newTitle: Option<string>,
                                 now: Timestamp): (o: Outcome<BookResponseDTO>)
    requires Consistent(s)
    ensures o.result.Err? ==> o.next == s
    ensures o.result == Err(InvalidInput) <==> !HasText(oldTitle) || !HasText(newTitle)
    ensures (o.result.Err? && o.result.error.NotFound?) <==>
      HasText(oldTitle) && HasText(newTitle) && !TitleExists(s.books, oldTitle.value)
    ensures (o.result.Err? && o.result.error.NotFound?) ==> o.result.error == NotFound(ByTitle(oldTitle.value))
    ensures (o.result.Err? && o.result.error.DuplicateTitle?) <==>
      && HasText(oldTitle) && HasText(newTitle)
      && TitleExists(s.books, oldTitle.value) && TitleExists(s.books, newTitle.value)
    ensures (o.result.Err? && o.result.error.DuplicateTitle?) ==> newTitle == Some(o.result.error.title)
    ensures o.result.Ok? <==>
      && HasText(oldTitle) && HasText(newTitle)
      && TitleExists(s.books, oldTitle.value) && !TitleExists(s.books, newTitle.value)
    ensures o.result.Ok? ==>
      var id := o.result.value.id;
      && id in s.books && s.books[id].title == oldTitle.value
      && o.next.nextId == s.nextId
      && o.next.books == s.books[id := Retitled(s.books[id], newTitle.value, now)]
      && o.result.value == ToResponse(o.next.books[id])
    ensures Consistent(o.next)
  {
    if !HasText(oldTitle) || !HasText(newTitle) then
      Outcome(Err(InvalidInput), s)
    else
      match FindByTitle(s.books, oldTitle.value)
      case None => Outcome(Err(NotFound(ByTitle(oldTitle.value))), s)
      case Some(id) =>
        if TitleExists(s.books, newTitle.value) then
          Outcome(Err(DuplicateTitle(newTitle.value)), s)
        else
          var updated := Retitled(s.books[id], newTitle.value, now);
          Outcome(Ok(ToResponse(updated)), State(s.books[id := updated], s.nextId))
  }

  /** `deleteBook`: NotFound for an absent id; otherwise exactly that key is removed. */
  function DeleteBook(s: State, id: int): (o: Outcome<()>)
    requires Consistent(s)
    ensures o.result == Err(NotFound(ById(id))) <==> id !in s.books
    ensures o.result.Ok? <==> id in s.books
    ensures o.result.Err? ==> o.next == s
    ensures o.result.Ok? ==> o.next.books.Keys == s.books.Keys - {id} && o.next.nextId == s.nextId
    ensures forall k :: k in o.next.books ==> k in s.books && o.next.books[k] == s.books[k]
    ensures Consistent(o.next)
  {
    if id !in s.books then
      Outcome(Err(NotFound(ById(id))), s)
    else
      Outcome(Ok(()), State(s.books - {id}, s.nextId))
  }

  /** The book with its availability negated, as saved at `now`. */
  function Toggled(b: Book, now: Timestamp): Book {
    b.(available := !b.available, updatedAt := now)
  }

  /** `toggleAvailability`: NotFound for an absent id; otherwise only `available` flips. */
  function ToggleAvailability(s: State, id: int, now: Timestamp): (o: Outcome<BookResponseDTO>)
    requires Consistent(s)
    ensures o.result == Err(NotFound(ById(id))) <==> id !in s.books
    ensures o.result.Ok? <==> id in s.books
    ensures o.result.Err? ==> o.next == s
    ensures o.result.Ok? ==>
      && id in s.books && id in o.next.books
      && OthersUnchanged(s.books, o.next.books, id)
      && o.next.nextId == s.nextId
      && o.next.books[id].available == !s.books[id].available
      && o.next.books[id] == s.books[id].(available := o.next.books[id].available, updatedAt := now)
      && o.result.value == ToResponse(o.next.books[id])
    ensures Consistent(o.next)
  {
    if id !in s.books then
      Outcome(Err(NotFound(ById(id))), s)
    else
      var updated := Toggled(s.books[id], now);
      Outcome(Ok(ToResponse(updated)), State(s.books[id := updated], s.nextId))
  }
}
