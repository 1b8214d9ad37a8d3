/**
 * Python's character predicates and case mappings (`str.isalpha`, `isupper`, `lower`,
 * `upper`, `isprintable`, `isspace`) depend on the Unicode database. The ciphers take them
 * as a parameter; each property that needs a fact about them states it as a precondition.
 */
module CharClasses {

  datatype CharClass = CharClass(
    isAlpha: char -> bool,
    isUpper: char -> bool,
    lower: char -> char,
    upper: char -> char,
    isPrintable: char -> bool,
    isSpace: char -> bool)

  predicate IsAsciiUpper(c: char) {
    'A' <= c <= 'Z'
  }

  predicate IsAsciiLower(c: char) {
    'a' <= c <= 'z'
  }

  predicate IsAsciiLetter(c: char) {
    IsAsciiUpper(c) || IsAsciiLower(c)
  }

  /** The class agrees with Python on the 52 ASCII letters. */
  ghost predicate AsciiLettersFaithful(cc: CharClass) {
    forall c: char :: IsAsciiLetter(c) ==> cc.isAlpha(c) && (cc.isUpper(c) <==> IsAsciiUpper(c))
  }

  /** Python's predicates restricted to ASCII text; characters above U+007F are treated as symbols. */
  function Ascii(): CharClass {
    CharClass(
      c => IsAsciiLetter(c),
      c => IsAsciiUpper(c),
      c => if IsAsciiUpper(c) then (c as int + 32) as char else c,
      c => if IsAsciiLower(c) then (c as int - 32) as char else c,
      c => ' ' <= c <= '~',
      c => c == ' ' || '\t' <= c <= '\r' || '\U{1c}' <= c <= '\U{1f}')
  }

  lemma AsciiIsFaithful()
    ensures AsciiLettersFaithful(Ascii())
  {
  }
}
