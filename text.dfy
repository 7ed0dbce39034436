/**
 * The one string test the application performs on free text: whether
 * `value.trim() !== ''`, i.e. whether the string holds a character that
 * JavaScript's `String.prototype.trim` does not strip.
 */
module Text {

  /** The characters `trim` removes: ECMAScript's WhiteSpace (tab, vertical tab, form feed,
      space, no-break space, byte-order mark and the Unicode space separators) and its
      LineTerminator characters (line feed, carriage return, U+2028, U+2029). */
  predicate IsTrimmable(ch: char)
  {
    ch == ' ' || ch == '\t' || ch == '\n' || ch == '\r' || ch == '\U{000B}' || ch == '\U{000C}'
    || ch == '\U{00A0}' || ch == '\U{1680}' || ('\U{2000}' <= ch <= '\U{200A}')
    || ch == '\U{2028}' || ch == '\U{2029}' || ch == '\U{202F}' || ch == '\U{205F}'
    || ch == '\U{3000}' || ch == '\U{FEFF}'
  }

  /** `s.trim() === ''`: every character of `s` is stripped (the empty string included). */
  predicate IsBlank(s: string)
  {
    forall i :: 0 <= i < |s| ==> IsTrimmable(s[i])
  }

  /** `s && s.trim() !== ''` for a string `s`: the truthiness test the source writes before trimming
      adds nothing, because the empty string is blank. */
  predicate HasContent(s: string)
    ensures HasContent(s) ==> s != ""
  {
    !IsBlank(s)
  }
}
