/**
  Shared vocabulary for the extraction script and the storage mock:
  an optional value standing in for JavaScript's `null`, and the
  character classes the script's regular expression relies on.
 */
module Text {

  /** `None` plays the role of JavaScript `null`. */
  datatype Option<T> = None | Some(value: T)

  /** Membership in ECMAScript's `\s` class: the WhiteSpace and
      LineTerminator code points (TAB, LF, VT, FF, CR, SPACE, NBSP,
      OGHAM SPACE MARK, the U+2000..U+200A spaces, LS, PS, NNBSP,
      MMSP, IDEOGRAPHIC SPACE and the BOM). */
  predicate IsSpace(c: char) {
    var n := c as int;
    || 9 <= n <= 13
    || n == 0x20
    || n == 0xA0
    || n == 0x1680
    || 0x2000 <= n <= 0x200A
    || n == 0x2028
    || n == 0x2029
    || n == 0x202F
    || n == 0x205F
    || n == 0x3000
    || n == 0xFEFF
  }

  /** An ASCII letter, digit or underscore: a character that stands for
      itself when pasted into a regular expression. */
  predicate IsWordChar(c: char) {
    || 'a' <= c <= 'z'
    || 'A' <= c <= 'Z'
    || '0' <= c <= '9'
    || c == '_'
  }

  /** A non-empty run of word characters, such as every entry of the
      script's list of function names. */
  predicate IsFunctionName(s: string) {
    |s| > 0 && forall i :: 0 <= i < |s| ==> IsWordChar(s[i])
  }

  /** Every character of `code[i..j]` is white space. */
  predicate SpacesIn(code: string, i: nat, j: nat)
    requires i <= j <= |code|
  {
    forall k :: i <= k < j ==> IsSpace(code[k])
  }

  /** No character of `code[i..j]` is a closing parenthesis. */
  predicate NoCloseParenIn(code: string, i: nat, j: nat)
    requires i <= j <= |code|
  {
    forall k :: i <= k < j ==> code[k] != ')'
  }

  lemma WordCharIsNotSpace(c: char)
    requires IsWordChar(c)
    ensures !IsSpace(c)
  {
  }
}
