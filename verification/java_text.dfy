/**
 * The two pieces of java.lang text handling the service relies on:
 * `Character.isWhitespace` and `String.isBlank`.
 */
module JavaText {
  import opened Wrappers

  /**
   * `Character.isWhitespace`: the controls U+0009..U+000D and U+001C..U+001F,
   * and the Unicode space, line and paragraph separators except the
   * non-breaking ones (U+00A0, U+2007, U+202F).
   */
  predicate IsWhitespace(c: char) {
    var n := c as int;
    || (0x09 <= n <= 0x0D)
    || (0x1C <= n <= 0x20)
    || n == 0x1680
    || (0x2000 <= n <= 0x2006)
    || (0x2008 <= n <= 0x200A)
    || n == 0x2028 || n == 0x2029
    || n == 0x205F || n == 0x3000
  }

  /** `String.isBlank`: empty, or whitespace only. */
  predicate IsBlank(s: string) {
    forall i :: 0 <= i < |s| ==> IsWhitespace(s[i])
  }

  /** `s != null && !s.isBlank()`, the guard the service writes before using a string. */
  predicate HasText(s: Option<string>) {
    s.Some? && !IsBlank(s.value)
  }

}
