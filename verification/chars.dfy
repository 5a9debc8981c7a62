/** Character classes that the summariser's regular expressions and string
    methods test. Letters are mapped by ASCII case only. */
module Chars {

  /** JavaScript's `\s`, which is also the set `String.prototype.trim` removes:
      the ECMAScript WhiteSpace characters (tab, vertical tab, form feed,
      no-break space, byte order mark and every space separator) and the
      LineTerminator characters. */
  predicate IsSpace(c: char) {
    || c == ' ' || c == '\t' || c == '\n' || c == '\r' || c == '\U{0B}' || c == '\U{0C}'
    || c == '\U{A0}' || c == '\U{1680}' || ('\U{2000}' <= c <= '\U{200A}')
    || c == '\U{2028}' || c == '\U{2029}' || c == '\U{202F}' || c == '\U{205F}'
    || c == '\U{3000}' || c == '\U{FEFF}'
  }

  /** The characters a regular-expression `.` refuses to match. */
  predicate IsLineTerminator(c: char) {
    c == '\n' || c == '\r' || c == '\U{2028}' || c == '\U{2029}'
  }

  /** `[.!?]`: the marks after which the splitter may cut a sentence. */
  predicate IsTerminal(c: char) {
    c == '.' || c == '!' || c == '?'
  }

  /** `[,.!?]`: the marks that `clean` pulls back onto the preceding word. */
  predicate IsClosingPunct(c: char) {
    c == ',' || IsTerminal(c)
  }

  predicate IsUpperLetter(c: char) { 'A' <= c <= 'Z' }

  predicate IsLowerLetter(c: char) { 'a' <= c <= 'z' }

  predicate IsDigit(c: char) { '0' <= c <= '9' }

  /** `\w`, the word characters of a `\b` boundary: `[A-Za-z0-9_]`. */
  predicate IsWordChar(c: char) {
    IsUpperLetter(c) || IsLowerLetter(c) || IsDigit(c) || c == '_'
  }

  /** `[a-z0-9']`: the characters a token may keep. */
  predicate IsTokenChar(c: char) {
    IsLowerLetter(c) || IsDigit(c) || c == '\''
  }

  function LowerChar(c: char): (r: char)
    ensures !IsUpperLetter(r)
    ensures IsSpace(r) <==> IsSpace(c)
  {
    if IsUpperLetter(c) then (c as int + 32) as char else c
  }

  function UpperChar(c: char): (r: char)
    ensures !IsLowerLetter(r)
    ensures IsSpace(r) <==> IsSpace(c)
    ensures IsLineTerminator(r) <==> IsLineTerminator(c)
  {
    if IsLowerLetter(c) then (c as int - 32) as char else c
  }
}
