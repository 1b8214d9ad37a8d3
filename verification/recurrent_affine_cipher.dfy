/**
 * The "recurrent" affine cipher over character codes: every printable, non-space character
 * `c` becomes `chr((a*ord(c) + b) % m)`, and decryption applies `(a⁻¹*(ord(c) - b)) % m`
 * with `a⁻¹` found by brute-force search. The position of a character is never used.
 */
module RecurrentAffineCipher {
  import opened Outcomes
  import opened NumberTheory
  import opened CharClasses

  /** Code points below this bound are all characters (the surrogate block starts here). */
  const CodeBound: int := 0xD800

  /**
   * `mod_inverse(a, m)`: the least `x` in `[1, m)` with `(a*x) % m == 1`. For `m > 1` it
   * succeeds exactly when `gcd(a, m) == 1` and then agrees with the extended-Euclid inverse.
   */
  function ModInverseBySearch(a: int, m: int): (res: Result<int>)
    ensures m <= 1 ==> res.Err?
    ensures m > 1 ==> (res.Ok? <==> Invertible(a, m))
    ensures m > 1 && res.Ok? ==> res == NumberTheory.ModInverse(a, m)
    ensures res.Ok? ==> forall y :: 1 <= y < res.value ==> !IsInverse(a, y, m)
  {
    var res := SearchInverse(a, m, 1);
    if m > 1 then
      SearchAgreesWithEuclid(a, m);
      res
    else res
  }

  lemma SearchAgreesWithEuclid(a: int, m: int)
    requires m > 1
    ensures SearchInverse(a, m, 1).Ok? <==> Invertible(a, m)
    ensures SearchInverse(a, m, 1).Ok? ==> SearchInverse(a, m, 1) == NumberTheory.ModInverse(a, m)
  {
    var res := SearchInverse(a, m, 1);
    if Invertible(a, m) {
      SearchFindsEuclidInverse(a, m);
    }
    if res.Ok? {
      IsInverseModEq(a, res.value, m);
      InverseWitnessInvertible(a, res.value, m);
    }
  }

  lemma SearchFindsEuclidInverse(a: int, m: int)
    requires m > 1 && Invertible(a, m)
    ensures SearchInverse(a, m, 1).Ok?
    ensures SearchInverse(a, m, 1).value == NumberTheory.ModInverse(a, m).value
  {
    var t := ModInverseOf(a, m);
    IsInverseModEq(a, t, m);
    IsInverseModEq(a, 0, m);
    var res := SearchInverse(a, m, 1);
    assert 1 <= t < m && IsInverse(a, t, m);
    var x := res.value;
    IsInverseModEq(a, x, m);
    InverseUnique(a, x, t, m);
    ModEqResidues(x, t, m);
  }

  /** Whether the cipher touches a character: `char.isprintable() and not char.isspace()`. */
  predicate Transformed(cc: CharClass, c: char) {
    cc.isPrintable(c) && !cc.isSpace(c)
  }

  /** The encryption transform `(a*ord(c) + b) % m` on a code. */
  function EncryptCode(a: int, b: int, m: int, x: int): int
    requires m > 0
  {
    (a * x + b) % m
  }

  /** The decryption transform `(a_inv*(ord(c) - b)) % m` on a code. */
  function DecryptCode(aInv: int, b: int, m: int, x: int): int
    requires m > 0
  {
    (aInv * (x - b)) % m
  }

  /**
   * Replace each transformed character by `code(ord(c))`, copying the others. The result
   * keeps the length, every replaced character has a code below `m`, and the map depends
   * only on the character, not on where it stands.
   */
  function MapCodes(text: string, cc: CharClass, m: int, code: int -> int): (r: string)
    requires 0 < m <= CodeBound
    requires forall x :: 0 <= code(x) < m
    ensures |r| == |text|
    ensures forall i :: 0 <= i < |text| && !Transformed(cc, text[i]) ==> r[i] == text[i]
    ensures forall i :: 0 <= i < |text| && Transformed(cc, text[i]) ==> r[i] as int < m
    ensures forall i, j :: 0 <= i < |text| && 0 <= j < |text| && text[i] == text[j] ==> r[i] == r[j]
  {
    seq(|text|, i requires 0 <= i < |text| =>
      if Transformed(cc, text[i]) then code(text[i] as int) as char else text[i])
  }

  /**
   * `affine_recurrent_cipher(text, a, b, m, encrypt)`. Encryption always succeeds;
   * decryption fails exactly when `a` has no inverse modulo `m`. The output has the input's
   * length, copies whitespace and non-printable characters, gives every transformed
   * character a code below `m`, and maps equal characters to equal characters wherever
   * they stand.
   */
  function Cipher(text: string, a: int, b: int, m: int, encrypt: bool, cc: CharClass): (res: Result<string>)
    requires 0 < m <= CodeBound
    ensures encrypt ==> res.Ok?
    ensures !encrypt ==> (res.Ok? <==> ModInverseBySearch(a, m).Ok?)
    ensures res.Ok? ==> |res.value| == |text|
    ensures res.Ok? ==> forall i :: 0 <= i < |text| && !Transformed(cc, text[i]) ==> res.value[i] == text[i]
    ensures res.Ok? ==> forall i :: 0 <= i < |text| && Transformed(cc, text[i]) ==> res.value[i] as int < m
    ensures res.Ok? ==> forall i, j :: 0 <= i < |text| && 0 <= j < |text| && text[i] == text[j] ==>
                          res.value[i] == res.value[j]
    ensures encrypt ==> forall i :: 0 <= i < |text| && Transformed(cc, text[i]) ==>
                          res.value[i] as int == EncryptCode(a, b, m, text[i] as int)
    ensures !encrypt && res.Ok? ==> forall i :: 0 <= i < |text| && Transformed(cc, text[i]) ==>
                          res.value[i] as int == DecryptCode(ModInverseBySearch(a, m).value, b, m, text[i] as int)
  {
    if encrypt then
      Ok(MapCodes(text, cc, m, x => EncryptCode(a, b, m, x)))
    else
      var aInv :- ModInverseBySearch(a, m);
      Ok(MapCodes(text, cc, m, x => DecryptCode(aInv, b, m, x)))
  }

  /** Per character, decryption undoes encryption when `gcd(a, m) == 1` and the code is below `m`. */
  lemma CharRoundTrip(a: int, b: int, m: int, x: int)
    requires 1 < m && Gcd(a, m) == 1 && 0 <= x < m
    ensures ModInverseBySearch(a, m).Ok?
    ensures DecryptCode(ModInverseBySearch(a, m).value, b, m, EncryptCode(a, b, m, x)) == x
  {
    var aInv := ModInverseBySearch(a, m).value;
    IsInverseModEq(a, aInv, m);
    AffineUndo(a, aInv, b, m, x);
  }

  /**
   * The whole string comes back when every transformed character has a code below `m` and
   * its image is again printable and not a space, so that decryption transforms it too.
   */
  lemma RoundTripWhenImagesStayTransformed(text: string, a: int, b: int, m: int, cc: CharClass)
    requires 1 < m <= CodeBound && Gcd(a, m) == 1
    requires forall i :: 0 <= i < |text| && Transformed(cc, text[i]) ==>
               text[i] as int < m && Transformed(cc, EncryptCode(a, b, m, text[i] as int) as char)
    ensures Cipher(text, a, b, m, true, cc).Ok?
    ensures Cipher(Cipher(text, a, b, m, true, cc).value, a, b, m, false, cc) == Ok(text)
  {
    var e := Cipher(text, a, b, m, true, cc).value;
    CharRoundTrip(a, b, m, 0);
    var d := Cipher(e, a, b, m, false, cc).value;
    forall i | 0 <= i < |text|
      ensures d[i] == text[i]
    {
      if Transformed(cc, text[i]) {
        CharRoundTrip(a, b, m, text[i] as int);
        assert d[i] as int == text[i] as int;
      }
    }
    assert d == text;
  }

  /**
   * The whole string need not come back: with `a = 1`, `b = 255`, `m = 256`, the printable
   * `!` encrypts to a space, and decryption copies spaces unchanged.
   */
  lemma RoundTripFailsOnSpaceImage(cc: CharClass)
    requires cc.isPrintable('!') && !cc.isSpace('!') && cc.isSpace(' ')
    ensures Cipher("!", 1, 255, 256, true, cc) == Ok(" ")
    ensures Cipher(" ", 1, 255, 256, false, cc) == Ok(" ")
  {
    assert EncryptCode(1, 255, 256, '!' as int) == ' ' as int;
    assert Cipher("!", 1, 255, 256, true, cc).value == " ";
    assert SearchInverse(1, 256, 1) == Ok(1);
    assert Cipher(" ", 1, 255, 256, false, cc).value == " ";
  }
}
