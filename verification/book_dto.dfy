/**
 * The inbound payload of the add and update operations, with the Bean
 * Validation rules its fields carry. The transport layer enforces these
 * rules before the service runs; the service itself does not re-check them.
 */
module BookDto {
  import opened Wrappers
  import opened JavaText

  const TitleMinLength: nat := 1
  const TitleMaxLength: nat := 255
  const AuthorMaxLength: nat := 255
  const IsbnMinLength: nat := 10
  const IsbnMaxLength: nat := 20

  /** The initialiser of the `available` field. */
  const DefaultAvailable := true

  /** A `None` field is a Java `null`. */
  datatype BookDTO = BookDTO(
    title: Option<string>,
    author: Option<string>,
    isbn: Option<string>,
    available: bool)

  /** `@NotBlank`: present and not whitespace only. */
  predicate NotBlank(s: Option<string>) {
    HasText(s)
  }

  /** `@Size(min, max)`: a null field passes; otherwise its length lies in [min, max]. */
  predicate SizeWithin(s: Option<string>, min: nat, max: nat) {
    s.None? || min <= |s.value| <= max
  }

  /** Every field constraint of the payload holds. */
  predicate ValidDto(d: BookDTO) {
    && NotBlank(d.title)
    && SizeWithin(d.title, TitleMinLength, TitleMaxLength)
    && SizeWithin(d.author, 0, AuthorMaxLength)
    && SizeWithin(d.isbn, IsbnMinLength, IsbnMaxLength)
  }

  /**
   * A payload decoded through the no-argument constructor and setters: a
   * field the client leaves out stays at its initial value, so an omitted
   * `available` is true.
   */
  function FromPayload(title: Option<string>, author: Option<string>, isbn: Option<string>,
                       available: Option<bool>): (d: BookDTO)
    ensures d.title == title && d.author == author && d.isbn == isbn
    ensures d.available <==> available != Some(false)
  {
    BookDTO(title, author, isbn, available.GetOr(DefaultAvailable))
  }

  /**
   * The rules field by field. The title's minimum length of one is implied by
   * `@NotBlank`; author and ISBN may be absent.
   */
  lemma ValidDtoFields(d: BookDTO)
    ensures ValidDto(d) <==>
      && d.title.Some? && !IsBlank(d.title.value) && |d.title.value| <= TitleMaxLength
      && (d.author.Some? ==> |d.author.value| <= AuthorMaxLength)
      && (d.isbn.Some? ==> IsbnMinLength <= |d.isbn.value| <= IsbnMaxLength)
  {
    if d.title.Some? && !IsBlank(d.title.value) {
      NotBlankIsNonEmpty(d.title.value);
    }
  }

  /** A non-blank string is not empty. */
  lemma NotBlankIsNonEmpty(s: string)
    requires !IsBlank(s)
    ensures TitleMinLength <= |s|
  {
    if |s| == 0 {
      assert IsBlank(s);
    }
  }

  /** An empty-string ISBN fails validation, although the service reads it as "no ISBN". */
  lemma EmptyIsbnRejected(d: BookDTO)
    requires d.isbn == Some("")
    ensures !ValidDto(d)
  {
  }

  /**
   * Ten spaces form a valid ISBN field, and the service reads it as "no ISBN":
   * validation and the uniqueness rule disagree on what a blank ISBN is.
   */
  lemma BlankIsbnPassesValidation()
    ensures var isbn := Some("          ");
      && ValidDto(BookDTO(Some("Dune"), None, isbn, true))
      && !HasText(isbn)
  {
    var s := "          ";
    assert forall i :: 0 <= i < |s| ==> s[i] == ' ';
    assert !IsBlank("Dune") by { assert !IsWhitespace("Dune"[0]); }
  }
}
