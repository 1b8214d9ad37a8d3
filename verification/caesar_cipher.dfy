/**
 * The Caesar shift: every character the class calls a letter is rotated by `shift`
 * places within the 26 ASCII letters of its case; everything else is copied.
 */
module CaesarCipher {
  import opened NumberTheory
  import opened CharClasses

  /** `len(string.ascii_lowercase)`. */
  const AlphabetSize: int := 26

  /** `'A'` for a character the class calls upper case, `'a'` otherwise. */
  function Base(cc: CharClass, c: char): char {
    if cc.isUpper(c) then 'A' else 'a'
  }

  /** `ord(char) - ord(base_char)`: in `[0, 26)` for ASCII letters, anything for other letters. */
  function Position(cc: CharClass, c: char): int {
    c as int - Base(cc, c) as int
  }

  /** The place of an ASCII letter within its case, `0` for `A`/`a` up to `25` for `Z`/`z`. */
  function LetterIndex(c: char): int {
    if IsAsciiUpper(c) then c as int - 'A' as int else c as int - 'a' as int
  }

  /** `chr(pos + ord(base))`. */
  function Letter(base: char, pos: int): (c: char)
    requires base == 'A' || base == 'a'
    requires 0 <= pos < AlphabetSize
    ensures IsAsciiLetter(c) && (IsAsciiUpper(c) <==> base == 'A') && LetterIndex(c) == pos
  {
    (base as int + pos) as char
  }

  function EncryptChar(cc: CharClass, c: char, shift: int): char {
    if cc.isAlpha(c) then Letter(Base(cc, c), (Position(cc, c) + shift) % AlphabetSize) else c
  }

  function DecryptChar(cc: CharClass, c: char, shift: int): char {
    if cc.isAlpha(c) then Letter(Base(cc, c), (Position(cc, c) - shift) % 26) else c
  }

  /**
   * `encrypt(text, shift)`: same length; non-letters copied; each letter becomes the ASCII
   * letter of the same case whose index is its position plus `shift`, modulo 26.
   */
  function Encrypt(text: string, shift: int, cc: CharClass): (r: string)
    ensures |r| == |text|
    ensures forall i :: 0 <= i < |text| && !cc.isAlpha(text[i]) ==> r[i] == text[i]
    ensures forall i :: 0 <= i < |text| && cc.isAlpha(text[i]) ==>
              && IsAsciiLetter(r[i])
              && (IsAsciiUpper(r[i]) <==> cc.isUpper(text[i]))
              && 0 <= LetterIndex(r[i]) < AlphabetSize
              && ModEq(LetterIndex(r[i]), Position(cc, text[i]) + shift, AlphabetSize)
  {
    seq(|text|, i requires 0 <= i < |text| => EncryptChar(cc, text[i], shift))
  }

  /** `decrypt(ciphertext, shift)`: as `Encrypt`, with the position moved back by `shift`. */
  function Decrypt(text: string, shift: int, cc: CharClass): (r: string)
    ensures |r| == |text|
    ensures forall i :: 0 <= i < |text| && !cc.isAlpha(text[i]) ==> r[i] == text[i]
    ensures forall i :: 0 <= i < |text| && cc.isAlpha(text[i]) ==>
              && IsAsciiLetter(r[i])
              && (IsAsciiUpper(r[i]) <==> cc.isUpper(text[i]))
              && 0 <= LetterIndex(r[i]) < AlphabetSize
              && ModEq(LetterIndex(r[i]), Position(cc, text[i]) - shift, AlphabetSize)
  {
    seq(|text|, i requires 0 <= i < |text| => DecryptChar(cc, text[i], shift))
  }

  /** Every character the class calls a letter is an ASCII letter. */
  ghost predicate AsciiLettersOnly(cc: CharClass, text: string) {
    forall i :: 0 <= i < |text| && cc.isAlpha(text[i]) ==> IsAsciiLetter(text[i])
  }

  lemma CharRoundTrip(cc: CharClass, c: char, shift: int)
    requires AsciiLettersFaithful(cc)
    requires cc.isAlpha(c) ==> IsAsciiLetter(c)
    ensures DecryptChar(cc, EncryptChar(cc, c, shift), shift) == c
  {
    if cc.isAlpha(c) {
      var pos := Position(cc, c);
      var e := EncryptChar(cc, c, shift);
      assert Base(cc, e) == Base(cc, c);
      assert Position(cc, e) == (pos + shift) % 26;
      ModEqOfMod(pos + shift, 26);
      ModEqSub((pos + shift) % 26, pos + shift, shift, shift, 26);
      ModEqOfMod(Position(cc, e) - shift, 26);
      ModEqResidues((Position(cc, e) - shift) % 26, pos, 26);
    }
  }

  /** For text whose letters are all ASCII, decryption with the same shift undoes encryption. */
  lemma RoundTrip(text: string, shift: int, cc: CharClass)
    requires AsciiLettersFaithful(cc) && AsciiLettersOnly(cc, text)
    ensures Decrypt(Encrypt(text, shift, cc), shift, cc) == text
  {
    var e := Encrypt(text, shift, cc);
    forall i | 0 <= i < |text|
      ensures Decrypt(e, shift, cc)[i] == text[i]
    {
      CharRoundTrip(cc, text[i], shift);
    }
  }

  /** Shifts that differ by a multiple of 26 give the same ciphertext. */
  lemma ShiftPeriodic(text: string, shift: int, k: int, cc: CharClass)
    ensures Encrypt(text, shift + AlphabetSize * k, cc) == Encrypt(text, shift, cc)
  {
    forall i | 0 <= i < |text|
      ensures EncryptChar(cc, text[i], shift + AlphabetSize * k) == EncryptChar(cc, text[i], shift)
    {
      var pos := Position(cc, text[i]);
      assert pos + (shift + AlphabetSize * k) == (pos + shift) + AlphabetSize * k;
      ModShift(pos + shift, k, AlphabetSize);
    }
  }

  /** Decrypting with `shift` is encrypting with `-shift`. */
  lemma DecryptIsEncryptNegated(text: string, shift: int, cc: CharClass)
    ensures Decrypt(text, shift, cc) == Encrypt(text, -shift, cc)
  {
  }

  /**
   * A letter outside ASCII is pulled into the ASCII range and cannot come back: `é` is a
   * lower-case letter for Python, sits 136 places after `a`, and encrypts to `g` even with
   * shift 0, which decrypts to `g`.
   */
  lemma NonAsciiLetterBreaksRoundTrip(cc: CharClass)
    requires AsciiLettersFaithful(cc)
    requires cc.isAlpha('\U{e9}') && !cc.isUpper('\U{e9}')
    ensures Encrypt("\U{e9}", 0, cc) == "g"
    ensures Decrypt(Encrypt("\U{e9}", 0, cc), 0, cc) == "g"
  {
    assert IsAsciiLetter('g') && !IsAsciiUpper('g');
    assert EncryptChar(cc, '\U{e9}', 0) == 'g';
    assert DecryptChar(cc, 'g', 0) == 'g';
  }

  /** The example commented out in the Python program: "Hello World!" shifted by 3 reads "Khoor Zruog!" and comes back. */
  lemma HelloWorld()
    ensures Encrypt("Hello World!", 3, Ascii()) == "Khoor Zruog!"
    ensures Decrypt("Khoor Zruog!", 3, Ascii()) == "Hello World!"
  {
    AsciiIsFaithful();
    RoundTrip("Hello World!", 3, Ascii());
    var e := Encrypt("Hello World!", 3, Ascii());
    assert e == "Khoor Zruog!";
  }
}
