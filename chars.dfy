/** Character classes used by the scraper's regular expressions and string methods. */
module Chars {

  /** Python's `str.isspace()`, which is also what `\s` matches in a `str` regex
      and what `strip()` / `rstrip()` remove. */
  predicate IsSpace(c: char)
  {
    ('\t' <= c <= '\r') || ('\U{1C}' <= c <= '\U{1F}') || c == ' '
    || c == '\U{85}' || c == '\U{A0}' || c == '\U{1680}'
    || ('\U{2000}' <= c <= '\U{200A}') || c == '\U{2028}' || c == '\U{2029}'
    || c == '\U{202F}' || c == '\U{205F}' || c == '\U{3000}'
  }

  /** `\d`, restricted to the ASCII digits. */
  predicate IsDigit(c: char)
  {
    '0' <= c <= '9'
  }

  /** ASCII case folding, as `re.IGNORECASE` applies it to the letters of the patterns. */
  function ToLower(c: char): (r: char)
    ensures 'A' <= c <= 'Z' ==> 'a' <= r <= 'z' && r as int == c as int + 32
    ensures !('A' <= c <= 'Z') ==> r == c
  {
    if 'A' <= c <= 'Z' then (c as int + 32) as char else c
  }

  predicate SameIgnoringCase(a: char, b: char)
  {
    ToLower(a) == ToLower(b)
  }

  /** What Python's `\w` is known to satisfy: it excludes the hyphen, the line
      break, the carriage return and every whitespace character.  The class
      itself is a parameter of every operation that uses it. */
  ghost predicate WordClassFacts(isWord: char -> bool)
  {
    && !isWord('-') && !isWord('\n') && !isWord('\r')
    && forall c :: isWord(c) ==> !IsSpace(c)
  }
}
