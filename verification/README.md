# hse_crypto in Dafny

A Dafny model of the cryptographic core of the `hse_crypto` course repository. It has
four parts:

- **GOST R 34.10-2012 style signatures** (`gost.dfy`, module `Gost`):
  - affine point addition on `y² = x³ + a·x + b (mod p)`, with the tuple `(0, 0)` standing
    for the point at infinity;
  - double-and-add scalar multiplication;
  - the digest reduction shared by signing and verification;
  - one signing attempt for a supplied nonce, and signing over a supplied sequence of nonces;
  - verification.

  Python's exceptions become `Result` values. The `ValueError` raised by `pow(x, -1, p)` is
  `Err(NoInverse)`.
- **Affine cipher over an alphabet** (`affine_cipher.dfy`, module `AffineCipher`):
  - encryption and decryption with case carried over;
  - the choice between the Latin and the Russian alphabet;
  - the extended-Euclid `mod_inverse`, both as written and corrected.
- **Caesar shift** (`caesar_cipher.dfy`, module `CaesarCipher`): the `encrypt`/`decrypt` pair
  of the simple substitution cipher.
- **Recurrent affine cipher on character codes** (`recurrent_affine_cipher.dfy`, module
  `RecurrentAffineCipher`): the per-code transform, with the brute-force inverse.

The shared pieces are:

- `number_theory.dfy` (module `NumberTheory`):
  - the greatest common divisor;
  - Python's floor division;
  - congruences;
  - the extended Euclidean loop, and the modular inverse it yields;
  - the brute-force inverse search.
- `outcomes.dfy` (module `Outcomes`): the `Result` and `Option` types and the error kinds.
- `char_classes.dfy` (module `CharClasses`): Python's Unicode character predicates as a
  record of functions (`CharClass`), plus an ASCII instance.

The curve, the hash integer, the private key and the nonces are parameters. The program
fixes them to 256-bit constants, SHA-256 and `random.randint`.

## Model

| member | source | states |
|---|---|---|
| NumberTheory.FloorDiv | affine_cipher/main.py:32 | Python's `r // new_r` rounds toward minus infinity: the remainder lies between 0 and the divisor, on the divisor's side |
| NumberTheory.Gcd | affine_cipher/main.py:21-24 | for `b > 0`, the result is positive, divides both arguments, and is divisible by every common divisor, so it is the greatest common divisor; the loop terminates. The `gcd` at recurrent_affine_cipher/main.py:1-4 is the same loop |
| NumberTheory.EuclidSteps | affine_cipher/main.py:31-34 | the `while new_r != 0` loop with floor division: it terminates because `|new_r|` decreases, and on non-negative operands it ends with a non-negative remainder, positive when `r > 0` (`NumberTheory.EuclidStepsGcd` shows that remainder is the gcd) |
| NumberTheory.EuclidStepsSound | affine_cipher/main.py:28-34 | the extended Euclidean loop keeps `t·a ≡ r (mod m)` and the magnitude bounds on `t`, and ends with `r > 0` and `abs(t)·r < m`; `NumberTheory.EuclidStepsGcd` shows that `r` is the gcd |
| NumberTheory.EuclidStepsGcd | affine_cipher/main.py:31-34 | the final remainder of the loop is `gcd(r, new_r)` of the starting pair |
| NumberTheory.ModInverse | affine_cipher/main.py:27-40 | the corrected inverse: it succeeds exactly when `gcd(a, m) = 1`, and then yields the residue `t` in `[0, m)` with `a·t ≡ 1 (mod m)`; otherwise it fails with `NoInverse` |
| NumberTheory.ModInverseCorrect | affine_cipher/main.py:36-39 | after the loop run on `a mod m`, `r > 1` holds exactly when there is no inverse, and otherwise `t`, plus `m` when negative, is the inverse in `[0, m)` |
| NumberTheory.InverseWitnessInvertible | affine_cipher/main.py:36-37 | a value with any inverse modulo `m` has gcd 1 with `m`, so the raise happens only where no inverse exists |
| NumberTheory.InverseUnique | affine_cipher/main.py:58 | two inverses of `a` modulo `m` are congruent |
| NumberTheory.AffineUndo | affine_cipher/main.py:48-62 | decrypting the encrypted index, `inv·((a·x + b) mod m − b) mod m`, gives back `x` for every `x` in `[0, m)` |
| NumberTheory.PrimeInvertible | gost/gost_signature.py:73-76 | modulo a prime, exactly the values that are nonzero mod the prime are invertible |
| NumberTheory.MultipleNotInvertible | gost/gost_signature.py:110-113 | a multiple of the modulus has no inverse, so `pow(0, -1, p)` raises |
| NumberTheory.SearchInverse | recurrent_affine_cipher/main.py:7-10 | the scan from `from` returns the least `x` in `[from, m)` with `a·x mod m = 1`, or fails with `NoInverse` when no such `x` exists |
| CaesarCipher.Encrypt | simple_substitution_cipher/main.py:4-21 | the length is kept and non-letters are copied; each letter becomes an ASCII letter of the same case whose index is congruent to its position plus `shift` mod 26 |
| CaesarCipher.Decrypt | simple_substitution_cipher/main.py:24-46 | the same, with the position moved back by `shift` |
| CaesarCipher.CharRoundTrip | simple_substitution_cipher/main.py:11-15 | for an ASCII letter or a non-letter, decrypting the encrypted character gives it back |
| CaesarCipher.RoundTrip | simple_substitution_cipher/main.py:4-46 | for text whose letters are all ASCII, `decrypt(encrypt(t, s), s) == t` |
| CaesarCipher.ShiftPeriodic | simple_substitution_cipher/main.py:14 | shifts that differ by a multiple of 26 give the same ciphertext |
| CaesarCipher.DecryptIsEncryptNegated | simple_substitution_cipher/main.py:37 | decrypting with `shift` is encrypting with `-shift` |
| CaesarCipher.NonAsciiLetterBreaksRoundTrip | simple_substitution_cipher/main.py:9-15 | a non-ASCII letter (`é`) is pulled into the ASCII range (to `g` with shift 0), so the round trip fails for it |
| CaesarCipher.HelloWorld | simple_substitution_cipher/main.py:51-58 | "Hello World!" with shift 3 encrypts to "Khoor Zruog!" and decrypts back |
| RecurrentAffineCipher.ModInverseBySearch | recurrent_affine_cipher/main.py:6-10 | for `m > 1` it succeeds exactly when `gcd(a, m) = 1`, and then returns the least inverse, which equals the extended-Euclid inverse; for `m ≤ 1` it always fails |
| RecurrentAffineCipher.SearchAgreesWithEuclid | recurrent_affine_cipher/main.py:6-10 | the search succeeds exactly when an inverse exists, and its answer is the extended-Euclid inverse |
| RecurrentAffineCipher.MapCodes | recurrent_affine_cipher/main.py:23-31 | the length is kept; whitespace and non-printable characters are copied; every replaced character has a code below `m`; equal characters give equal output characters wherever they stand, so the map is a per-character substitution |
| RecurrentAffineCipher.Cipher | recurrent_affine_cipher/main.py:12-31 | encryption always succeeds; decryption fails exactly when there is no inverse. The length is kept, whitespace and non-printables are copied, transformed codes lie in `[0, m)`, and equal characters map to equal characters wherever they stand |
| RecurrentAffineCipher.CharRoundTrip | recurrent_affine_cipher/main.py:16-21 | for `gcd(a, m) = 1` and a code in `[0, m)`, the decryption transform undoes the encryption transform |
| RecurrentAffineCipher.RoundTripWhenImagesStayTransformed | recurrent_affine_cipher/main.py:12-31 | the text comes back when every transformed character has a code below `m` and an image that is again printable and not a space |
| RecurrentAffineCipher.RoundTripFailsOnSpaceImage | recurrent_affine_cipher/main.py:25-29 | with `a = 1`, `b = 255`, `m = 256`, `!` encrypts to a space, which decryption copies, so the round trip fails |
| AffineCipher.IndexOf | affine_cipher/main.py:47 | `alphabet.index(c)` is the first position holding `c`, or absent exactly when `c` does not occur |
| AffineCipher.IndexOfDistinct | affine_cipher/main.py:61 | in an alphabet without repeats, the index of the letter at `k` is `k` |
| AffineCipher.MapLetters | affine_cipher/main.py:44-53 | the loop succeeds exactly when every step does. The output then has the input's length, position by position; a failure comes from some step's failure |
| AffineCipher.EncryptAffine | affine_cipher/main.py:43-53 | fails with `NotInAlphabet` exactly when some letter's lower-case form is not in the alphabet; otherwise the length is kept and non-letters are copied |
| AffineCipher.DecryptLetters | affine_cipher/main.py:59-67 | the decryption loop for a given inverse, with the same failure and copying behaviour as encryption |
| AffineCipher.DecryptAffine | affine_cipher/main.py:56-67 | decryption with the corrected inverse of `a mod len(alphabet)`: it fails with `NoInverse` exactly when `gcd(a, len(alphabet)) ≠ 1`. Otherwise it fails, and then with `NotInAlphabet`, exactly when some letter is not in the alphabet; on success it keeps the length and non-letters |
| AffineCipher.LetterRoundTrip | affine_cipher/main.py:46-64 | decrypting the encryption restores a non-letter, and restores a letter that lower-cases into a repeat-free alphabet and whose case mapping brings it back: `upper(lower(c)) == c` for an upper-case letter, `lower(c) == c` otherwise. Every alphabet letter must be a lower-case letter whose capital is an upper-case letter that lower-cases back |
| AffineCipher.RoundTrip | affine_cipher/main.py:43-67 | if `gcd(a, len(alphabet)) = 1`, every alphabet letter is a lower-case letter whose capital lower-cases back, and every letter of `t` lower-cases into the repeat-free alphabet with `upper(lower(c)) == c` when upper-case and `lower(c) == c` otherwise, then encryption succeeds and the corrected decryption `AffineCipher.DecryptAffine` gives `t` back; `decrypt_affine` as written (`AffineCipher.DecryptAffineAsWritten`) does so for `a ≥ 0`, and for negative keys it need not (see Findings) |
| AffineCipher.KelvinSignBreaksRoundTrip | affine_cipher/main.py:46-64 | the case condition is needed: the Kelvin sign U+212A, an upper-case letter that lower-cases to `k`, encrypts with `a = 1, b = 0` to the ASCII `K`, which decrypts to `K` |
| AffineCipher.CasePreserved | affine_cipher/main.py:50-64 | encryption, the corrected decryption and `decrypt_affine` as written (for every key) turn an upper-case letter into an upper-case letter and a lower-case one into a lower-case one |
| AffineCipher.HasLetterOf | affine_cipher/main.py:12 | the `any(...)` test holds exactly when some character is a letter whose lower-case form is in the alphabet |
| AffineCipher.DetermineAlphabet | affine_cipher/main.py:11-17 | Latin whenever some letter is Latin; otherwise Russian whenever some letter is Russian; otherwise the `UnsupportedText` error |
| AffineCipher.ModInverseAsWritten | affine_cipher/main.py:27-40 | `mod_inverse` as written, with the loop run on `a` itself; for `a ≥ 0` it equals the corrected inverse |
| AffineCipher.AsWrittenAgrees | affine_cipher/main.py:28-34 | for `a ≥ 0` other than `m`, the loop on `a` ends in the same state as the loop on `a mod m`; for `a = m` the states differ, but both runs end with remainder `m` |
| AffineCipher.ModInverseAsWrittenNegativeKey | affine_cipher/main.py:27-40 | for `a = -1, m = 26`, `mod_inverse` returns 1, which is not an inverse (the inverse is 25); for `a = -2` it returns a value although `gcd(-2, 26) = 2` |
| AffineCipher.DecryptAffineAsWritten | affine_cipher/main.py:56-67 | `decrypt_affine` as written, with `mod_inverse` on the unreduced key: for `a ≥ 0` it is `AffineCipher.DecryptAffine`; when `mod_inverse` raises it fails with `NoInverse`; otherwise it keeps the length and copies non-letters |
| AffineCipher.NegativeKeyBreaksDecryption | affine_cipher/main.py:43-67 | with `a = -1, b = 2`, `b` encrypts to `b`; `decrypt_affine` as written turns that into `z`, the corrected decryption back into `b` |
| Gost.Slope | gost/gost_signature.py:110-115 | `num·pow(den, -1, p) mod p` fails exactly when `den` has no inverse mod `p`; otherwise it is the residue `λ` with `λ·den ≡ num` |
| Gost.PointAdd | gost/gost_signature.py:98-119 | `(0, 0)` is a two-sided identity. For two finite points the sum fails exactly when the slope denominator (`2·y1` or `x2 − x1`) is not invertible mod `p`; otherwise the result has coordinates in `[0, p)` satisfying the chord-and-tangent equations |
| Gost.ChordSlopeSymmetric | gost/gost_signature.py:113-115 | the chord slope of `(P, Q)` and of `(Q, P)` is the same residue, and one exists exactly when the other does |
| Gost.PointAddCommutes | gost/gost_signature.py:98-119 | `point_add(P, Q) == point_add(Q, P)`, including which of them fail |
| Gost.VerticalChordFails | gost/gost_signature.py:108-113 | two distinct finite points with congruent abscissas, `P` and `-P` among them, make the addition fail rather than return `(0, 0)` |
| Gost.DoublingFailsOnZeroTangent | gost/gost_signature.py:108-110 | doubling a point with `2·y ≡ 0 (mod p)` fails |
| Gost.OppositePointsFail | gost/gost_signature.py:108-113 | adding a reduced finite point to its negative always fails: to `(x, p − y)` when `y ≠ 0`, and to the point itself when `y = 0` (`Gost.VerticalChordFails` covers adding it to the unreduced `(x, p)`) |
| Gost.PrimeFieldFailures | gost/gost_signature.py:108-113 | for prime `p`, the sum of two finite points fails exactly when the slope denominator is `0 mod p` |
| Gost.ScalarLoop | gost/gost_signature.py:126-130 | the loop stops when `k ≤ 0` and returns `result`; any failure is `NoInverse`; reduced inputs give a reduced result |
| Gost.ScalarMultiply | gost/gost_signature.py:121-132 | `k ≤ 0` gives `(0, 0)`; a reduced point gives a reduced multiple; failures are `NoInverse` |
| Gost.ScalarMultiplyLoop | gost/gost_signature.py:121-132 | the Python program's `while` loop over the bits of `k` computes the same result as the recursive definition |
| Gost.ScalarMultiplyEven | gost/gost_signature.py:127-130 | an even step skips the addition: `(2k)·P` is `k·(2P)`, or fails when `2P` does |
| Gost.ScalarMultiplyOdd | gost/gost_signature.py:127-130 | an odd step adds `current`: `(2k+1)·P` continues from `result = P`, `current = 2P` |
| Gost.ScalarMultiplyOne | gost/gost_signature.py:126-132 | `1·P` is `P` only when `P` can be doubled, because the loop doubles `current` after the last addition |
| Gost.ScalarMultiplyTwo | gost/gost_signature.py:126-132 | `2·P` equals `point_add(P, P)` only when that sum can itself be doubled, and fails otherwise |
| Gost.ScalarLoopInfinity | gost/gost_signature.py:100-103 | running the loop from `result = current = (0, 0)` yields `(0, 0)` for every `k` |
| Gost.ScalarMultiplyInfinity | gost/gost_signature.py:121-132 | every multiple of `(0, 0)` is `(0, 0)` |
| Gost.Digest | gost/gost_signature.py:34-37 | the reduced digest lies in `[1, q)`: it is congruent to the hash integer, or 1 when that is a multiple of `q`. Verification (gost/gost_signature.py:67-70) uses the same reduction |
| Gost.DigestInvertible | gost/gost_signature.py:73-76 | for prime `q` the digest always has an inverse, so the `except ValueError` branch cannot be taken |
| Gost.SignAttempt | gost/gost_signature.py:41-56 | one attempt with nonce `k` fails exactly when computing `k·G` fails. It retries exactly when `r = x(k·G) mod q` is 0 or `s = (r·d + k·e) mod q` is 0; otherwise it returns `r, s` in `(0, q)` |
| Gost.SignWithNonces | gost/gost_signature.py:39-56 | the outcome is that of the first nonce which does not lead to a retry, and no outcome only when every nonce retries |
| Gost.VerifierScalarsUnique | gost/gost_signature.py:78-80 | with `v·e ≡ 1`, `z1 = s·v mod q` and `z2 = −r·v mod q` are the one reduced solution of `z1·e ≡ s` and `z2·e ≡ −r` |
| Gost.Combine | gost/gost_signature.py:83-85 | a scalar `≤ 0` contributes the point at infinity, so `z1 ≤ 0` gives exactly `z2·Q` and `z2 ≤ 0` exactly `z1·G`, failures included; any failure is `NoInverse`, and a failing multiple makes the sum fail |
| Gost.Accept | gost/gost_signature.py:88-89 | the comparison is true exactly when `x(C) ≡ r (mod q)` with `r` in `[0, q)`; a failure to compute `C` passes through |
| Gost.Verify | gost/gost_signature.py:58-89 | `(r, s)` outside `(0, q)`, or a digest with no inverse, gives false. Otherwise the answer is the comparison for `z1·G + z2·Q`, for the unique reduced scalars with `z1·e ≡ s`, `z2·e ≡ −r`; point-arithmetic failures surface as errors |
| Gost.SignedScalarsRecombine | gost/gost_signature.py:52-80 | for a signature made with nonce `k` and key `d`, the verifier's scalars satisfy `z1 + z2·d ≡ k (mod q)`, the identity the verification equation rests on |

Where the curve's group law and the code part ways, the model follows the code:

- On the curve, doubling a point with `y = 0` gives the point at infinity. `point_add`
  raises instead, because it calls `pow(2·y1, -1, p)` unguarded
  (`Gost.DoublingFailsOnZeroTangent`).
- On the curve, `P + (−P)` is the point at infinity. `point_add` raises instead, because it
  calls `pow(x2 − x1, -1, p)` unguarded (`Gost.VerticalChordFails`, `Gost.OppositePointsFail`).
- `verify` catches only the error from the digest's inverse. A point-arithmetic failure is
  an error of `Gost.Verify`, not `false`.
- On the curve, `2·P = P + P`. `scalar_multiply(2, P)` equals `point_add(P, P)` only when
  `2P` can be doubled again, because the loop doubles `current` after the last addition
  (`Gost.ScalarMultiplyTwo`).

## Left out

- Hashing: `hash_message` is SHA-256 through `hashlib`. The model takes the hash integer
  `int.from_bytes(h, 'big')` as the parameter `h`.
- Randomness: `random.randint` for the private key and the nonce. The key and the nonces are
  parameters.
- The `while True` of `sign`: it is modelled over a finite nonce sequence. When every nonce
  retries, `Gost.SignWithNonces` gives `Ok(None)`, where `sign` would keep drawing.
- `generate_key_pair`: it is one `randint` followed by `scalar_multiply(d, G)`, which is
  `Gost.ScalarMultiply` with the key supplied.
- The concrete 256-bit curve constants: the curve is a parameter with `p > 1` and `q > 1`.
- The end-to-end claim `verify(sign(m, d), d·G)` and the claims about tampered messages and
  wrong keys. They need the elliptic-curve group laws (associativity) and a real group
  order. `Gost.SignedScalarsRecombine` proves the modular identity they rest on.
- That a sum or multiple of points on the curve stays on the curve: this needs the group
  law; the curve coefficient `b` is kept only as data.
- Key and signature files, hex encoding, the argparse command line, `get_parameters`, and
  every `main` with its console input and output: all of this is I/O.
- Python's Unicode tables (`isalpha`, `isupper`, `lower`, `upper`, `isprintable`,
  `isspace`): the ciphers take them as a `CharClass` parameter. Each property states the
  facts it needs about them.
- A `lower()` that returns more than one character (for example for `İ`): the model maps a
  character to a single character.
- `chr` of codes from `0xD800` upward: `RecurrentAffineCipher.Cipher` requires
  `0 < m <= 0xD800`, so that every code below `m` is a Dafny `char`. The program uses
  `m = 256`.
- AffineCipher.DecryptAffine: uses the corrected inverse of `a mod len(alphabet)`, so for a
  negative key it differs from `decrypt_affine`, which calls `mod_inverse` on `a` itself.
  `AffineCipher.DecryptAffineAsWritten` models the program as written (see Findings).
- AffineCipher.DecryptAffine: requires an alphabet of at least two letters, for the inverse
  modulo its length. The program only passes the 26-letter Latin and the 33-letter Russian
  alphabets.
- NumberTheory.Gcd: the second argument is a natural number, so a negative second argument
  (where Python's `%` would keep it negative) is not modelled. The programs call it only as
  `gcd(a, 256)`.

## Findings

| source | as written | input that shows it | evidently intended | confidence | as-written member | corrected member |
|---|---|---|---|---|---|---|
| affine_cipher/main.py:27-40 | the extended Euclidean loop starts from `new_r = a`, so a negative key runs the loop on a negative remainder | `mod_inverse(-1, 26)` returns 1, although `-1·1 ≢ 1 (mod 26)` and the inverse is 25. `mod_inverse(-2, 26)` returns a value although `gcd(-2, 26) = 2`. With `a = -1, b = 2`, `decrypt_affine` turns the ciphertext of `b` into `z` | start from `a mod m`, so that every integer key gets its inverse in `[0, m)` and a non-invertible key raises | high; not executed | AffineCipher.ModInverseAsWritten and AffineCipher.DecryptAffineAsWritten (shown by AffineCipher.ModInverseAsWrittenNegativeKey and AffineCipher.NegativeKeyBreaksDecryption) | NumberTheory.ModInverse (used by AffineCipher.DecryptAffine) |
