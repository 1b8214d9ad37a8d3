/**
 * The affine cipher over a chosen alphabet: the letter at index `x` becomes the letter at
 * index `(a*x + b) % n`, case is carried over, and anything that is not a letter is copied.
 */
module AffineCipher {
  import opened Outcomes
  import opened NumberTheory
  import opened CharClasses

  /** `string.ascii_lowercase`. */
  const Latin: string := "abcdefghijklmnopqrstuvwxyz"

  /** The Russian lower-case alphabet, with `ё` after `е`. */
  const Russian: string := "абвгдеёжзийклмнопрстуфхцчшщъыьэюя"

  // ---------------------------------------------------------------------------
  // Alphabets and letters
  // ---------------------------------------------------------------------------

  /** `s.index(c)`: the first position of `c` in `s`, or nothing when `c` does not occur. */
  function IndexOf(s: string, c: char): (r: Option<nat>)
    ensures r.Some? ==> r.value < |s| && s[r.value] == c && c !in s[..r.value]
    ensures r.None? ==> c !in s
  {
    if |s| == 0 then None
    else if s[0] == c then Some(0)
    else match IndexOf(s[1..], c)
      case None => None
      case Some(k) =>
        assert s[..k + 1] == [s[0]] + s[1..][..k];
        Some(k + 1)
  }

  predicate Distinct(s: string) {
    forall i, j :: 0 <= i < j < |s| ==> s[i] != s[j]
  }

  lemma IndexOfDistinct(s: string, k: int)
    requires Distinct(s) && 0 <= k < |s|
    ensures IndexOf(s, s[k]) == Some(k)
  {
    var j := IndexOf(s, s[k]).value;
    assert s[j] == s[k];
  }

  /** Python's facts about a lower-case alphabet letter `x` and its capital. */
  ghost predicate LetterFacts(cc: CharClass, x: char) {
    && cc.isAlpha(x) && !cc.isUpper(x) && cc.lower(x) == x
    && cc.isAlpha(cc.upper(x)) && cc.isUpper(cc.upper(x)) && cc.lower(cc.upper(x)) == x
  }

  /** Every letter of the alphabet behaves as a lower-case letter with a capital. */
  ghost predicate CaseFaithful(cc: CharClass, alphabet: string) {
    forall i :: 0 <= i < |alphabet| ==> LetterFacts(cc, alphabet[i])
  }

  /** A letter of the text lower-cases into the alphabet, and its case mapping brings it back. */
  ghost predicate Restorable(cc: CharClass, alphabet: string, c: char) {
    cc.isAlpha(c) ==>
      && cc.lower(c) in alphabet
      && (if cc.isUpper(c) then cc.upper(cc.lower(c)) == c else cc.lower(c) == c)
  }

  /** A letter of the text whose lower-case form is in the alphabet. */
  predicate LetterOf(cc: CharClass, c: char, alphabet: string) {
    cc.isAlpha(c) && cc.lower(c) in alphabet
  }

  // ---------------------------------------------------------------------------
  // The letter loops
  // ---------------------------------------------------------------------------

  /** Carry the case of `c` over to the alphabet letter `x`. */
  function WithCaseOf(cc: CharClass, c: char, x: char): char {
    if cc.isUpper(c) then cc.upper(x) else x
  }

  /** One step of the encryption loop. */
  function EncryptLetter(cc: CharClass, c: char, a: int, b: int, alphabet: string): Result<char> {
    if !cc.isAlpha(c) then Ok(c)
    else match IndexOf(alphabet, cc.lower(c))
      case None => Err(NotInAlphabet)
      case Some(i) => Ok(WithCaseOf(cc, c, alphabet[(a * i + b) % |alphabet|]))
  }

  /** One step of the decryption loop, given the inverse of `a`. */
  function DecryptLetter(cc: CharClass, c: char, inv: int, b: int, alphabet: string): Result<char> {
    if !cc.isAlpha(c) then Ok(c)
    else match IndexOf(alphabet, cc.lower(c))
      case None => Err(NotInAlphabet)
      case Some(i) => Ok(WithCaseOf(cc, c, alphabet[(inv * (i - b)) % |alphabet|]))
  }

  /** Apply a letter step to each character in order; the first failing step fails the whole. */
  function MapLetters(text: string, f: char -> Result<char>): (r: Result<string>)
    ensures r.Ok? <==> forall i :: 0 <= i < |text| ==> f(text[i]).Ok?
    ensures r.Ok? ==> |r.value| == |text| && forall i :: 0 <= i < |text| ==> f(text[i]) == Ok(r.value[i])
    ensures r.Err? ==> exists i :: 0 <= i < |text| && f(text[i]) == Err(r.error)
  {
    if |text| == 0 then Ok([])
    else
      var c :- f(text[0]);
      var rest :- MapLetters(text[1..], f);
      assert forall i :: 1 <= i < |text| ==> text[i] == text[1..][i - 1];
      Ok([c] + rest)
  }

  /**
   * `encrypt_affine(text, a, b, alphabet)`: fails exactly when some letter's lower-case form
   * is not in the alphabet; otherwise has the text's length and copies every non-letter.
   */
  function EncryptAffine(text: string, a: int, b: int, alphabet: string, cc: CharClass): (r: Result<string>)
    ensures r.Err? <==> exists i :: 0 <= i < |text| && cc.isAlpha(text[i]) && cc.lower(text[i]) !in alphabet
    ensures r.Err? ==> r.error == NotInAlphabet
    ensures r.Ok? ==> |r.value| == |text|
    ensures r.Ok? ==> forall i :: 0 <= i < |text| && !cc.isAlpha(text[i]) ==> r.value[i] == text[i]
    ensures r.Ok? ==> forall i :: 0 <= i < |text| ==> EncryptLetter(cc, text[i], a, b, alphabet) == Ok(r.value[i])
  {
    MapLetters(text, c => EncryptLetter(cc, c, a, b, alphabet))
  }

  /** The decryption loop for a given inverse `inv` of `a`. */
  function DecryptLetters(text: string, inv: int, b: int, alphabet: string, cc: CharClass): (r: Result<string>)
    ensures r.Err? <==> exists i :: 0 <= i < |text| && cc.isAlpha(text[i]) && cc.lower(text[i]) !in alphabet
    ensures r.Err? ==> r.error == NotInAlphabet
    ensures r.Ok? ==> |r.value| == |text|
    ensures r.Ok? ==> forall i :: 0 <= i < |text| && !cc.isAlpha(text[i]) ==> r.value[i] == text[i]
    ensures r.Ok? ==> forall i :: 0 <= i < |text| ==> DecryptLetter(cc, text[i], inv, b, alphabet) == Ok(r.value[i])
  {
    MapLetters(text, c => DecryptLetter(cc, c, inv, b, alphabet))
  }

  /**
   * `decrypt_affine(cipher_text, a, b, alphabet)`: fails with `NoInverse` when
   * `gcd(a, len(alphabet)) != 1`, and otherwise as the letter loop does.
   */
  function DecryptAffine(text: string, a: int, b: int, alphabet: string, cc: CharClass): (r: Result<string>)
    requires |alphabet| > 1
    ensures !Invertible(a, |alphabet|) ==> r == Err(NoInverse)
    ensures Invertible(a, |alphabet|) ==>
              (r.Err? <==> exists i :: 0 <= i < |text| && cc.isAlpha(text[i]) && cc.lower(text[i]) !in alphabet)
    ensures Invertible(a, |alphabet|) && r.Err? ==> r.error == NotInAlphabet
    ensures r.Ok? ==> |r.value| == |text|
    ensures r.Ok? ==> forall i :: 0 <= i < |text| && !cc.isAlpha(text[i]) ==> r.value[i] == text[i]
  {
    var inv :- ModInverse(a, |alphabet|);
    DecryptLetters(text, inv, b, alphabet, cc)
  }

  // ---------------------------------------------------------------------------
  // Round trip and case
  // ---------------------------------------------------------------------------

  lemma LetterRoundTrip(cc: CharClass, c: char, a: int, inv: int, b: int, alphabet: string)
    requires |alphabet| > 1 && ModEq(a * inv, 1, |alphabet|)
    requires Distinct(alphabet) && CaseFaithful(cc, alphabet) && Restorable(cc, alphabet, c)
    ensures EncryptLetter(cc, c, a, b, alphabet).Ok?
    ensures DecryptLetter(cc, EncryptLetter(cc, c, a, b, alphabet).value, inv, b, alphabet) == Ok(c)
  {
    if cc.isAlpha(c) {
      var n := |alphabet|;
      var i := IndexOf(alphabet, cc.lower(c)).value;
      var e := (a * i + b) % n;
      var x := alphabet[e];
      assert LetterFacts(cc, x);
      var out := WithCaseOf(cc, c, x);
      assert cc.isAlpha(out) && cc.lower(out) == x && (cc.isUpper(out) <==> cc.isUpper(c));
      IndexOfDistinct(alphabet, e);
      AffineUndo(a, inv, b, n, i);
      assert (inv * (e - b)) % n == i;
      assert LetterFacts(cc, alphabet[i]);
    }
  }

  /**
   * With `gcd(a, len(alphabet)) == 1`, an alphabet of distinct lower-case letters, and a text
   * whose letters all lower-case into it, decryption gives back the text.
   */
  lemma RoundTrip(text: string, a: int, b: int, alphabet: string, cc: CharClass)
    requires |alphabet| > 1 && Invertible(a, |alphabet|)
    requires Distinct(alphabet) && CaseFaithful(cc, alphabet)
    requires forall i :: 0 <= i < |text| ==> Restorable(cc, alphabet, text[i])
    ensures EncryptAffine(text, a, b, alphabet, cc).Ok?
    ensures DecryptAffine(EncryptAffine(text, a, b, alphabet, cc).value, a, b, alphabet, cc) == Ok(text)
    ensures a >= 0 ==> DecryptAffineAsWritten(EncryptAffine(text, a, b, alphabet, cc).value, a, b, alphabet, cc) == Ok(text)
  {
    var n := |alphabet|;
    var inv := ModInverseOf(a, n);
    forall i | 0 <= i < |text|
      ensures EncryptLetter(cc, text[i], a, b, alphabet).Ok?
    {
      LetterRoundTrip(cc, text[i], a, inv, b, alphabet);
    }
    var e := EncryptAffine(text, a, b, alphabet, cc).value;
    forall i | 0 <= i < |e|
      ensures DecryptLetter(cc, e[i], inv, b, alphabet) == Ok(text[i])
    {
      LetterRoundTrip(cc, text[i], a, inv, b, alphabet);
    }
    var d := DecryptLetters(e, inv, b, alphabet, cc);
    assert d.Ok?;
    assert d.value == text;
  }

  /**
   * Both directions keep the case of every letter and produce letters; decryption does so
   * with either inverse, since the case is carried over whatever the key.
   */
  lemma CasePreserved(text: string, a: int, b: int, alphabet: string, cc: CharClass)
    requires |alphabet| > 1 && CaseFaithful(cc, alphabet)
    ensures var r := EncryptAffine(text, a, b, alphabet, cc);
            r.Ok? ==> forall i :: 0 <= i < |text| && cc.isAlpha(text[i]) ==>
                        cc.isAlpha(r.value[i]) && (cc.isUpper(r.value[i]) <==> cc.isUpper(text[i]))
    ensures var r := DecryptAffine(text, a, b, alphabet, cc);
            r.Ok? ==> forall i :: 0 <= i < |text| && cc.isAlpha(text[i]) ==>
                        cc.isAlpha(r.value[i]) && (cc.isUpper(r.value[i]) <==> cc.isUpper(text[i]))
    ensures var r := DecryptAffineAsWritten(text, a, b, alphabet, cc);
            r.Ok? ==> forall i :: 0 <= i < |text| && cc.isAlpha(text[i]) ==>
                        cc.isAlpha(r.value[i]) && (cc.isUpper(r.value[i]) <==> cc.isUpper(text[i]))
  {
    var n := |alphabet|;
    forall i, k | 0 <= i < |text| && 0 <= k < n
      ensures cc.isAlpha(WithCaseOf(cc, text[i], alphabet[k]))
      ensures cc.isUpper(WithCaseOf(cc, text[i], alphabet[k])) <==> cc.isUpper(text[i])
    {
      assert LetterFacts(cc, alphabet[k]);
    }
  }

  // ---------------------------------------------------------------------------
  // Alphabet selection
  // ---------------------------------------------------------------------------

  /** `any(c.isalpha() and c.lower() in alphabet for c in text)`. */
  function HasLetterOf(text: string, alphabet: string, cc: CharClass): (r: bool)
    ensures r <==> exists i :: 0 <= i < |text| && LetterOf(cc, text[i], alphabet)
  {
    if |text| == 0 then false
    else
      assert forall i :: 1 <= i < |text| ==> text[i] == text[1..][i - 1];
      LetterOf(cc, text[0], alphabet) || HasLetterOf(text[1..], alphabet, cc)
  }

  /**
   * `determine_alphabet(text)`: Latin as soon as one letter lower-cases into the Latin
   * alphabet; otherwise Russian when one lower-cases into the Russian one; otherwise an error.
   */
  function DetermineAlphabet(text: string, cc: CharClass): (r: Result<string>)
    ensures (exists i :: 0 <= i < |text| && LetterOf(cc, text[i], Latin)) ==> r == Ok(Latin)
    ensures ((forall i :: 0 <= i < |text| ==> !LetterOf(cc, text[i], Latin)) &&
             (exists i :: 0 <= i < |text| && LetterOf(cc, text[i], Russian))) ==> r == Ok(Russian)
    ensures (forall i :: 0 <= i < |text| ==> !LetterOf(cc, text[i], Latin) && !LetterOf(cc, text[i], Russian)) ==>
            r == Err(UnsupportedText)
  {
    if HasLetterOf(text, Latin, cc) then Ok(Latin)
    else if HasLetterOf(text, Russian, cc) then Ok(Russian)
    else Err(UnsupportedText)
  }

  // ---------------------------------------------------------------------------
  // The inverse as `mod_inverse` computes it
  // ---------------------------------------------------------------------------

  /**
   * `mod_inverse(a, m)` exactly as written: the extended Euclidean loop on `a` itself, a
   * raise when the final remainder exceeds 1, and one addition of `m` to a negative result.
   * For `a >= 0` it is the true inverse.
   */
  function ModInverseAsWritten(a: int, m: int): (res: Result<int>)
    requires m > 1
    ensures a >= 0 ==> res == ModInverse(a, m)
  {
    var (t, r) := EuclidSteps(0, 1, m, a);
    AsWrittenAgrees(a, m);
    if r > 1 then Err(NoInverse)
    else Ok(if t < 0 then t + m else t)
  }

  /** For `a >= m` the first two loop steps bring the state to the one for `a % m`. */
  lemma AsWrittenAgrees(a: int, m: int)
    requires m > 1
    ensures a >= 0 && a != m ==> EuclidSteps(0, 1, m, a) == EuclidSteps(0, 1, m, a % m)
    ensures a == m ==> EuclidSteps(0, 1, m, a).1 == EuclidSteps(0, 1, m, a % m).1 == m
  {
    if 0 <= a < m {
      ModOfResidue(a, m);
    } else if a == m {
      assert FloorDiv(m, a) == 1;
      assert a % m == 0;
    } else if a > m {
      FirstStepSwaps(a, m);
      SecondStepReduces(a, m);
    }
  }

  /** With `new_r = a > m = r`, the first quotient is 0 and the loop swaps the pair. */
  lemma FirstStepSwaps(a: int, m: int)
    requires 0 < m < a
    ensures EuclidSteps(0, 1, m, a) == EuclidSteps(1, 0, a, m)
  {
    DivModUnique(m, a, 0, m);
    assert FloorDiv(m, a) == 0;
  }

  /** The second step divides `a` by `m` and leaves `(0, 1, m, a % m)`. */
  lemma SecondStepReduces(a: int, m: int)
    requires 0 < m < a
    ensures EuclidSteps(1, 0, a, m) == EuclidSteps(0, 1, m, a % m)
  {
    var q := FloorDiv(a, m);
    DivModUnique(a, m, q, a - m * q);
    assert 1 - q * 0 == 1;
    assert a - q * m == a % m;
  }

  /**
   * With a negative key `mod_inverse` is wrong: for `a = -1` it returns 1, which is
   * not an inverse of -1 modulo 26 (25 is), and for `a = -2` it returns a value although
   * `gcd(-2, 26) = 2`, where it was meant to raise.
   */
  lemma ModInverseAsWrittenNegativeKey()
    ensures ModInverseAsWritten(-1, 26) == Ok(1) && !ModEq(-1 * 1, 1, 26)
    ensures ModInverse(-1, 26) == Ok(25)
    ensures ModInverseAsWritten(-2, 26).Ok? && Gcd(-2, 26) == 2
  {
    assert FloorDiv(26, -1) == -26;
    assert EuclidSteps(0, 1, 26, -1) == EuclidSteps(1, 26, -1, 0);
    assert FloorDiv(26, -2) == -13;
    assert EuclidSteps(0, 1, 26, -2) == EuclidSteps(1, 13, -2, 0);
    var t := ModInverse(-1, 26).value;
    ModOfResidue(1, 26);
    assert ModEq(-1 * 25, 1, 26);
    QuotientUnique(1, -1, t, 25, 26);
  }

  /**
   * `decrypt_affine` exactly as written: the letter loop run with `mod_inverse` of the
   * unreduced key. For `a >= 0` it is `DecryptAffine`.
   */
  function DecryptAffineAsWritten(text: string, a: int, b: int, alphabet: string, cc: CharClass): (r: Result<string>)
    requires |alphabet| > 1
    ensures a >= 0 ==> r == DecryptAffine(text, a, b, alphabet, cc)
    ensures ModInverseAsWritten(a, |alphabet|).Err? ==> r == Err(NoInverse)
    ensures r.Ok? ==> |r.value| == |text|
    ensures r.Ok? ==> forall i :: 0 <= i < |text| && !cc.isAlpha(text[i]) ==> r.value[i] == text[i]
  {
    var inv :- ModInverseAsWritten(a, |alphabet|);
    DecryptLetters(text, inv, b, alphabet, cc)
  }

  /**
   * The effect on decryption: with `a = -1`, `b = 2`, `b` encrypts to itself;
   * `decrypt_affine` as written turns it into `z`, the corrected decryption back into `b`.
   */
  lemma NegativeKeyBreaksDecryption()
    ensures EncryptAffine("b", -1, 2, Latin, Ascii()) == Ok("b")
    ensures DecryptAffineAsWritten("b", -1, 2, Latin, Ascii()) == Ok("z")
    ensures DecryptAffine("b", -1, 2, Latin, Ascii()) == Ok("b")
  {
    ModInverseAsWrittenNegativeKey();
    LatinIndexOfB();
    NegativeKeyEncryptsB();
    DecryptB(1, 'z');
    DecryptB(25, 'b');
  }

  /** Example helper: `b` sits at index 1 of the Latin alphabet. */
  lemma LatinIndexOfB()
    ensures |Latin| == 26 && IndexOf(Latin, 'b') == Some(1)
  {
    assert Latin[1] == 'b' && Latin[..1] == "a";
    IndexOfFirst(Latin, 'b', 1);
  }

  /** Example helper: with `a = -1`, `b = 2`, the letter `b` encrypts to itself. */
  lemma NegativeKeyEncryptsB()
    ensures EncryptAffine("b", -1, 2, Latin, Ascii()) == Ok("b")
  {
    LatinIndexOfB();
    assert -1 * 1 + 2 == 1;
    ModOfResidue(1, 26);
    assert EncryptLetter(Ascii(), 'b', -1, 2, Latin) == Ok('b');
    EncryptOneLetter(Ascii(), 'b', -1, 2, Latin, 'b');
  }

  /** Example helper: with shift 2, an inverse of 1 sends `b` to `z` and an inverse of 25 sends it back to `b`. */
  lemma DecryptB(inv: int, x: char)
    requires (inv, x) == (1, 'z') || (inv, x) == (25, 'b')
    ensures DecryptLetters("b", inv, 2, Latin, Ascii()) == Ok([x])
  {
    LatinIndexOfB();
    var y := if inv == 1 then 25 else 1;
    assert inv * (1 - 2) == y + 26 * -1;
    ModShift(y, -1, 26);
    ModOfResidue(y, 26);
    assert Latin[y] == x;
    assert DecryptLetter(Ascii(), 'b', inv, 2, Latin) == Ok(x);
    DecryptOneLetter(Ascii(), 'b', inv, 2, Latin, x);
  }

  /**
   * The case condition of `RoundTrip` is needed: the Kelvin sign U+212A is an upper-case
   * letter whose lower-case form is `k`, so it encrypts (with `a = 1`, `b = 0`) to the ASCII
   * `K`, and decrypting gives `K`, not the Kelvin sign.
   */
  lemma KelvinSignBreaksRoundTrip(cc: CharClass)
    requires cc.isAlpha('\U{212A}') && cc.isUpper('\U{212A}') && cc.lower('\U{212A}') == 'k'
    requires cc.upper('k') == 'K' && cc.isAlpha('K') && cc.isUpper('K') && cc.lower('K') == 'k'
    ensures EncryptAffine("\U{212A}", 1, 0, Latin, cc) == Ok("K")
    ensures DecryptAffine("K", 1, 0, Latin, cc) == Ok("K")
  {
    assert Latin[10] == 'k' && Latin[..10] == "abcdefghij";
    IndexOfFirst(Latin, 'k', 10);
    assert |Latin| == 26;
    ModOfResidue(10, 26);
    assert EncryptLetter(cc, '\U{212A}', 1, 0, Latin) == Ok('K');
    EncryptOneLetter(cc, '\U{212A}', 1, 0, Latin, 'K');
    InverseOfOne(26);
    assert 1 * (10 - 0) == 10;
    assert DecryptLetter(cc, 'K', 1, 0, Latin) == Ok('K');
    DecryptOneLetter(cc, 'K', 1, 0, Latin, 'K');
  }

  /** The first occurrence of `c` is the one `IndexOf` finds. */
  lemma IndexOfFirst(s: string, c: char, k: int)
    requires 0 <= k < |s| && s[k] == c && c !in s[..k]
    ensures IndexOf(s, c) == Some(k)
  {
  }

  /** Example helper: a one-character text whose encryption step gives `x` encrypts to `[x]`. */
  lemma EncryptOneLetter(cc: CharClass, c: char, a: int, b: int, alphabet: string, x: char)
    requires EncryptLetter(cc, c, a, b, alphabet) == Ok(x)
    ensures EncryptAffine([c], a, b, alphabet, cc) == Ok([x])
  {
    var r := EncryptAffine([c], a, b, alphabet, cc);
    assert |r.value| == 1 && r.value[0] == x;
    assert r.value == [x];
  }

  /** Example helper: a one-character text whose decryption step gives `x` decrypts to `[x]`. */
  lemma DecryptOneLetter(cc: CharClass, c: char, inv: int, b: int, alphabet: string, x: char)
    requires DecryptLetter(cc, c, inv, b, alphabet) == Ok(x)
    ensures DecryptLetters([c], inv, b, alphabet, cc) == Ok([x])
  {
    var r := DecryptLetters([c], inv, b, alphabet, cc);
    assert |r.value| == 1 && r.value[0] == x;
    assert r.value == [x];
  }
}
