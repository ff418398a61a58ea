/**
 * The outbound record of a book, and the availability sentences the
 * library reports about a title.
 */
module BookResponse {
  import opened Wrappers

  /** A persistence-layer timestamp; the model only carries it. */
  type Timestamp = int

  datatype BookResponseDTO = BookResponseDTO(
    id: int,
    title: string,
    author: Option<string>,
    isbn: Option<string>,
    available: bool,
    createdAt: Timestamp,
    updatedAt: Timestamp)

  /** The three things the library can say about a title. */
  datatype Standing = Available | CheckedOut | NotInCollection

  const Opening := "The book '"

  function Closing(st: Standing): string {
    match st
    case Available => "' is available."
    case CheckedOut => "' is checked out."
    case NotInCollection => "' is not in the library's collection."
  }

  /** "The book '<title>' is ...", in the form for `st`. */
  function StatusSentence(title: string, st: Standing): string {
    Opening + title + Closing(st)
  }

  /** The letter before the final full stop, which differs for the three forms. */
  function Mark(st: Standing): char {
    match st
    case Available => 'e'
    case CheckedOut => 't'
    case NotInCollection => 'n'
  }

  lemma SentenceShape(title: string, st: Standing)
    ensures var s := StatusSentence(title, st);
      && |s| == |Opening| + |title| + |Closing(st)|
      && |s| >= 2 && s[|s| - 2] == Mark(st)
      && s[|Opening|..|Opening| + |title|] == title
  {
    var s := StatusSentence(title, st);
    var c := Closing(st);
    assert s[|s| - 2] == c[|c| - 2];
    assert s[|Opening|..|Opening| + |title|] == (Opening + title)[|Opening|..];
  }

  /** A sentence determines both its title and its form. */
  lemma StatusSentenceInjective(t1: string, st1: Standing, t2: string, st2: Standing)
    requires StatusSentence(t1, st1) == StatusSentence(t2, st2)
    ensures t1 == t2 && st1 == st2
  {
    SentenceShape(t1, st1);
    SentenceShape(t2, st2);
    assert Mark(st1) == Mark(st2);
  }

  /** `getAvailabilityStatus`: one of exactly two sentences, chosen by `available`. */
  function AvailabilityStatus(r: BookResponseDTO): (s: string)
    ensures s == StatusSentence(r.title, Available) <==> r.available
    ensures s == StatusSentence(r.title, CheckedOut) <==> !r.available
    ensures forall t :: s != StatusSentence(t, NotInCollection)
  {
    var st := if r.available then Available else CheckedOut;
    NeverNotInCollection(r.title, st);
    assert StatusSentence(r.title, Available) != StatusSentence(r.title, CheckedOut) by {
      SentenceShape(r.title, Available);
      SentenceShape(r.title, CheckedOut);
    }
    if r.available then
      "The book '" + r.title + "' is available."
    else
      "The book '" + r.title + "' is checked out."
  }

  /** No sentence in a found form reads as "not in the collection", whatever the titles. */
  lemma NeverNotInCollection(title: string, st: Standing)
    requires st != NotInCollection
    ensures forall t :: StatusSentence(title, st) != StatusSentence(t, NotInCollection)
  {
    forall t ensures StatusSentence(title, st) != StatusSentence(t, NotInCollection) {
      if StatusSentence(title, st) == StatusSentence(t, NotInCollection) {
        StatusSentenceInjective(title, st, t, NotInCollection);
      }
    }
  }
}
