/**
 * The elliptic-curve arithmetic of a GOST R 34.10-2012 style signature: affine point
 * addition with `(0, 0)` standing for the point at infinity, double-and-add scalar
 * multiplication, the signing step for one supplied nonce, and verification. The curve
 * constants, the message digest and the random draws are parameters.
 */
module Gost {
  import opened Outcomes
  import opened NumberTheory

  /** `y² = x³ + a·x + b` over the integers modulo `p`, with base point `(gx, gy)` of order `q`. */
  datatype Curve = Curve(p: int, a: int, b: int, q: int, gx: int, gy: int) {
    predicate Valid() {
      p > 1 && q > 1
    }

    function G(): Point {
      Point(gx, gy)
    }
  }

  /** An affine point; `(0, 0)` is used as the neutral element. */
  datatype Point = Point(x: int, y: int)

  const Infinity: Point := Point(0, 0)

  datatype Signature = Signature(r: int, s: int)

  /** Both coordinates are residues modulo `p`. */
  predicate Reduced(c: Curve, P: Point) {
    0 <= P.x < c.p && 0 <= P.y < c.p
  }

  // ---------------------------------------------------------------------------
  // Point addition
  // ---------------------------------------------------------------------------

  /**
   * `num * pow(den, -1, p) % p`: the residue `lam` with `lam*den ≡ num (mod p)`, or an error
   * exactly when `den` has no inverse modulo `p`.
   */
  function Slope(num: int, den: int, p: int): (res: Result<int>)
    requires p > 1
    ensures res.Ok? <==> Invertible(den, p)
    ensures res.Err? ==> res.error == NoInverse
    ensures res.Ok? ==> 0 <= res.value < p && ModEq(res.value * den, num, p)
  {
    var inv :- ModInverse(den, p);
    var lam := (num * inv) % p;
    ModEqOfMod(num * inv, p);
    SolvesScaled(lam, num, den, inv, p);
    Ok(lam)
  }

  /** The denominator of the slope: `2*y1` for doubling, `x2 - x1` for a chord. */
  function Denominator(P: Point, Q: Point): int {
    if P == Q then 2 * P.y else Q.x - P.x
  }

  /** The numerator of the slope: `3*x1² + a` for doubling, `y2 - y1` for a chord. */
  function Numerator(c: Curve, P: Point, Q: Point): int {
    if P == Q then 3 * P.x * P.x + c.a else Q.y - P.y
  }

  /** The chord-and-tangent equations for the sum `R` of `P` and `Q` along the slope `lam`. */
  predicate ChordTangent(c: Curve, P: Point, Q: Point, lam: int, R: Point)
    requires c.Valid()
  {
    && ModEq(R.x, lam * lam - P.x - Q.x, c.p)
    && ModEq(R.y, lam * (P.x - R.x) - P.y, c.p)
  }

  /**
   * `point_add(p1, p2)`. `(0, 0)` is a two-sided identity. Otherwise the sum fails exactly
   * when the slope's denominator has no inverse modulo `p` (where `pow(..., -1, p)` raises),
   * and succeeds with reduced coordinates satisfying the chord-and-tangent equations for
   * the unique reduced slope.
   */
  function PointAdd(c: Curve, P: Point, Q: Point): (res: Result<Point>)
    requires c.Valid()
    ensures P == Infinity ==> res == Ok(Q)
    ensures Q == Infinity ==> res == Ok(P)
    ensures P != Infinity && Q != Infinity ==> (res.Ok? <==> Invertible(Denominator(P, Q), c.p))
    ensures res.Err? ==> res.error == NoInverse
    ensures P != Infinity && Q != Infinity && res.Ok? ==>
              && Reduced(c, res.value)
              && exists lam :: 0 <= lam < c.p && ModEq(lam * Denominator(P, Q), Numerator(c, P, Q), c.p)
                               && ChordTangent(c, P, Q, lam, res.value)
  {
    if P == Infinity then Ok(Q)
    else if Q == Infinity then Ok(P)
    else
      var lam :- Slope(Numerator(c, P, Q), Denominator(P, Q), c.p);
      var x3 := (lam * lam - P.x - Q.x) % c.p;
      var y3 := (lam * (P.x - x3) - P.y) % c.p;
      ModEqOfMod(lam * lam - P.x - Q.x, c.p);
      ModEqOfMod(lam * (P.x - x3) - P.y, c.p);
      assert ChordTangent(c, P, Q, lam, Point(x3, y3));
      Ok(Point(x3, y3))
  }

  /** The slope of `point_add(P, Q)` and of `point_add(Q, P)` is the same residue. */
  lemma ChordSlopeSymmetric(c: Curve, P: Point, Q: Point)
    requires c.Valid() && P != Q
    requires Slope(Numerator(c, P, Q), Denominator(P, Q), c.p).Ok?
    ensures Slope(Numerator(c, Q, P), Denominator(Q, P), c.p).Ok?
    ensures Slope(Numerator(c, Q, P), Denominator(Q, P), c.p).value
         == Slope(Numerator(c, P, Q), Denominator(P, Q), c.p).value
  {
    var den := Q.x - P.x;
    var num := Q.y - P.y;
    assert Denominator(Q, P) == -den && Numerator(c, Q, P) == -num;
    InvertibleNeg(den, c.p);
    var l1 := Slope(num, den, c.p).value;
    var l2 := Slope(-num, -den, c.p).value;
    assert l2 * (-den) == -(l2 * den);
    ModEqNeg(l2 * (-den), -num, c.p);
    QuotientUnique(num, den, l1, l2, c.p);
  }

  /** Addition does not depend on the order of its arguments. */
  lemma PointAddCommutes(c: Curve, P: Point, Q: Point)
    requires c.Valid()
    ensures PointAdd(c, P, Q) == PointAdd(c, Q, P)
  {
    if P != Infinity && Q != Infinity && P != Q {
      var den := Q.x - P.x;
      InvertibleNeg(den, c.p);
      assert Denominator(Q, P) == -den;
      if PointAdd(c, P, Q).Ok? {
        ChordSlopeSymmetric(c, P, Q);
        var lam := Slope(Numerator(c, P, Q), den, c.p).value;
        assert ModEq(lam * den, Q.y - P.y, c.p);
        var x3 := (lam * lam - P.x - Q.x) % c.p;
        assert x3 == (lam * lam - Q.x - P.x) % c.p;
        // lam*(P.x - x3) - P.y and lam*(Q.x - x3) - Q.y differ by lam*(Q.x - P.x) - (Q.y - P.y).
        assert lam * (Q.x - x3) - Q.y == (lam * (P.x - x3) - P.y) + (lam * den - (Q.y - P.y));
        ModEqSub(lam * den, Q.y - P.y, Q.y - P.y, Q.y - P.y, c.p);
        assert ModEq(lam * den - (Q.y - P.y), 0, c.p);
        ModEqAdd(lam * (P.x - x3) - P.y, lam * (P.x - x3) - P.y, lam * den - (Q.y - P.y), 0, c.p);
      }
    }
  }

  /**
   * Two distinct points with the same abscissa modulo `p`, in particular `P` and `-P`, make
   * the chord denominator a multiple of `p`: the sum fails instead of giving `(0, 0)`.
   */
  lemma VerticalChordFails(c: Curve, P: Point, Q: Point)
    requires c.Valid() && P != Infinity && Q != Infinity && P != Q
    requires ModEq(P.x, Q.x, c.p)
    ensures PointAdd(c, P, Q).Err?
  {
    ModEqSub(Q.x, P.x, P.x, P.x, c.p);
    MultipleNotInvertible(Q.x - P.x, c.p);
  }

  /** Doubling a point whose ordinate satisfies `2*y ≡ 0 (mod p)` fails. */
  lemma DoublingFailsOnZeroTangent(c: Curve, P: Point)
    requires c.Valid() && P != Infinity && ModEq(2 * P.y, 0, c.p)
    ensures PointAdd(c, P, P).Err?
  {
    MultipleNotInvertible(2 * P.y, c.p);
  }

  /**
   * Adding a reduced point to its negative always fails. The negative is `(x, p - y)`, or
   * `P` itself when `y = 0`; `VerticalChordFails` covers the unreduced `(x, p)`.
   */
  lemma OppositePointsFail(c: Curve, P: Point)
    requires c.Valid() && Reduced(c, P) && P != Infinity
    ensures PointAdd(c, P, Point(P.x, if P.y == 0 then 0 else c.p - P.y)).Err?
  {
    var N := Point(P.x, if P.y == 0 then 0 else c.p - P.y);
    if N == P {
      assert 2 * P.y == 0 || 2 * P.y == c.p;
      MultipleNotInvertible(2 * P.y, c.p);
      assert Denominator(P, N) == 2 * P.y;
    } else {
      assert Denominator(P, N) == 0;
      MultipleNotInvertible(0, c.p);
    }
  }

  /** Over a prime field, the sum of two finite points fails exactly when the denominator is `0 (mod p)`. */
  lemma PrimeFieldFailures(c: Curve, P: Point, Q: Point)
    requires c.Valid() && IsPrime(c.p) && P != Infinity && Q != Infinity
    ensures PointAdd(c, P, Q).Err? <==> Denominator(P, Q) % c.p == 0
  {
    PrimeInvertible(Denominator(P, Q), c.p);
  }

  // ---------------------------------------------------------------------------
  // Scalar multiplication
  // ---------------------------------------------------------------------------

  /**
   * The rest of the `while k > 0` loop of `scalar_multiply` from the state `(k, result,
   * current)`: add `current` into `result` when the low bit of `k` is set, double
   * `current`, halve `k`. A failing addition ends the whole computation.
   */
  function ScalarLoop(c: Curve, k: int, acc: Point, cur: Point): (res: Result<Point>)
    requires c.Valid()
    ensures k <= 0 ==> res == Ok(acc)
    ensures res.Err? ==> res.error == NoInverse
    ensures Reduced(c, acc) && Reduced(c, cur) && res.Ok? ==> Reduced(c, res.value)
    decreases k
  {
    if k <= 0 then Ok(acc)
    else
      var acc' :- if k % 2 == 1 then PointAdd(c, acc, cur) else Ok(acc);
      var cur' :- PointAdd(c, cur, cur);
      ScalarLoop(c, k / 2, acc', cur')
  }

  /** `scalar_multiply(k, P)`: `(0, 0)` for `k <= 0`; reduced whenever `P` is. */
  function ScalarMultiply(c: Curve, k: int, P: Point): (res: Result<Point>)
    requires c.Valid()
    ensures k <= 0 ==> res == Ok(Infinity)
    ensures res.Err? ==> res.error == NoInverse
    ensures Reduced(c, P) && res.Ok? ==> Reduced(c, res.value)
  {
    ScalarLoop(c, k, Infinity, P)
  }

  /** `scalar_multiply` as the Python program writes it, a loop over the bits of `k`. */
  method ScalarMultiplyLoop(c: Curve, k: int, P: Point) returns (res: Result<Point>)
    requires c.Valid()
    ensures res == ScalarMultiply(c, k, P)
  {
    var n := k;
    var acc := Infinity;
    var cur := P;
    while n > 0
      invariant ScalarLoop(c, n, acc, cur) == ScalarMultiply(c, k, P)
      decreases n
    {
      if n % 2 == 1 {
        var sum := PointAdd(c, acc, cur);
        if sum.Err? {
          return Err(sum.error);
        }
        acc := sum.value;
      }
      var twice := PointAdd(c, cur, cur);
      if twice.Err? {
        return Err(twice.error);
      }
      cur := twice.value;
      n := n / 2;
    }
    return Ok(acc);
  }

  // The curve's group law is not part of this model, so the lemmas below state what one
  // iteration of the loop does (an even bit, an odd bit, the last doubling) and that the
  // sentinel `(0, 0)` is fixed by every multiple.

  /** An even multiple is the half multiple of the doubled point. */
  lemma ScalarMultiplyEven(c: Curve, k: int, P: Point)
    requires c.Valid() && k >= 1
    ensures PointAdd(c, P, P).Err? ==> ScalarMultiply(c, 2 * k, P).Err?
    ensures PointAdd(c, P, P).Ok? ==>
              ScalarMultiply(c, 2 * k, P) == ScalarMultiply(c, k, PointAdd(c, P, P).value)
  {
    assert (2 * k) % 2 == 0 && (2 * k) / 2 == k;
  }

  /** An odd multiple starts with `result = P` and continues on the doubled point. */
  lemma ScalarMultiplyOdd(c: Curve, k: int, P: Point)
    requires c.Valid() && k >= 0
    ensures PointAdd(c, P, P).Err? ==> ScalarMultiply(c, 2 * k + 1, P).Err?
    ensures PointAdd(c, P, P).Ok? ==>
              ScalarMultiply(c, 2 * k + 1, P) == ScalarLoop(c, k, P, PointAdd(c, P, P).value)
  {
    assert (2 * k + 1) % 2 == 1 && (2 * k + 1) / 2 == k;
  }

  /**
   * Even `1·P` doubles `P` once more after taking it: a point whose doubling fails has no
   * multiple at all, although the result would not use the doubled point.
   */
  lemma ScalarMultiplyOne(c: Curve, P: Point)
    requires c.Valid()
    ensures ScalarMultiply(c, 1, P) == if PointAdd(c, P, P).Ok? then Ok(P) else Err(NoInverse)
  {
    ScalarMultiplyOdd(c, 0, P);
  }

  /**
   * `2·P` is `point_add(P, P)` only when that sum can itself be doubled: the loop doubles
   * `current` once more after its last addition.
   */
  lemma ScalarMultiplyTwo(c: Curve, P: Point)
    requires c.Valid()
    ensures ScalarMultiply(c, 2, P) ==
              if PointAdd(c, P, P).Ok? && PointAdd(c, PointAdd(c, P, P).value, PointAdd(c, P, P).value).Ok?
              then PointAdd(c, P, P)
              else Err(NoInverse)
  {
    ScalarMultiplyEven(c, 1, P);
    if PointAdd(c, P, P).Ok? {
      ScalarMultiplyOne(c, PointAdd(c, P, P).value);
    }
  }

  /**
   * Every multiple of the neutral element is the neutral element: an example of the
   * identity law, since the loop never leaves `(0, 0)` once it starts there.
   */
  lemma {:induction false} ScalarLoopInfinity(c: Curve, k: int)
    requires c.Valid()
    ensures ScalarLoop(c, k, Infinity, Infinity) == Ok(Infinity)
    decreases k
  {
    if k > 0 {
      ScalarLoopInfinity(c, k / 2);
    }
  }

  lemma ScalarMultiplyInfinity(c: Curve, k: int)
    requires c.Valid()
    ensures ScalarMultiply(c, k, Infinity) == Ok(Infinity)
  {
    ScalarLoopInfinity(c, k);
  }

  // ---------------------------------------------------------------------------
  // Digest, signing and verification
  // ---------------------------------------------------------------------------

  /**
   * The digest reduction shared by `sign` and `verify`: the hash integer modulo `q`, with
   * `0` replaced by `1`. It lies in `[1, q)` and is congruent to the hash unless the hash is
   * a multiple of `q`.
   */
  function Digest(c: Curve, h: nat): (e: int)
    requires c.Valid()
    ensures 1 <= e < c.q
    ensures h % c.q != 0 ==> ModEq(e, h, c.q)
    ensures h % c.q == 0 ==> e == 1
  {
    var e := h % c.q;
    ModEqOfMod(h, c.q);
    if e == 0 then 1 else e
  }

  /** With a prime group order the reduced digest always has an inverse, so `verify`'s `except` never fires. */
  lemma DigestInvertible(c: Curve, h: nat)
    requires c.Valid() && IsPrime(c.q)
    ensures Invertible(Digest(c, h), c.q)
  {
    var e := Digest(c, h);
    ModOfResidue(e, c.q);
    PrimeInvertible(e, c.q);
  }

  /**
   * One pass of the `while True` loop of `sign` with the nonce `k` supplied: an error when
   * computing `k·G` fails, `None` when `r` or `s` is zero and the loop would draw again,
   * otherwise the signature `r = x(k·G) mod q`, `s = (r·d + k·e) mod q`, both in `(0, q)`.
   */
  function SignAttempt(c: Curve, h: nat, d: int, k: int): (res: Result<Option<Signature>>)
    requires c.Valid()
    ensures res.Err? <==> ScalarMultiply(c, k, c.G()).Err?
    ensures res.Err? ==> res.error == NoInverse
    ensures res == Ok(None) <==>
              && ScalarMultiply(c, k, c.G()).Ok?
              && var r := ScalarMultiply(c, k, c.G()).value.x % c.q;
                 r == 0 || (r * d + k * Digest(c, h)) % c.q == 0
    ensures res.Ok? && res.value.Some? ==>
              && var sig := res.value.value;
                 && 0 < sig.r < c.q && 0 < sig.s < c.q
                 && ModEq(sig.r, ScalarMultiply(c, k, c.G()).value.x, c.q)
                 && ModEq(sig.s, sig.r * d + k * Digest(c, h), c.q)
  {
    var e := Digest(c, h);
    var C :- ScalarMultiply(c, k, c.G());
    var r := C.x % c.q;
    ModEqOfMod(C.x, c.q);
    if r == 0 then Ok(None)
    else
      var s := (r * d + k * e) % c.q;
      ModEqOfMod(r * d + k * e, c.q);
      if s == 0 then Ok(None) else Ok(Some(Signature(r, s)))
  }

  /** Every nonce in `nonces` leads to a retry. */
  ghost predicate AllRetry(c: Curve, h: nat, d: int, nonces: seq<int>)
    requires c.Valid()
  {
    forall i :: 0 <= i < |nonces| ==> SignAttempt(c, h, d, nonces[i]) == Ok(None)
  }

  /**
   * `sign` with its random draws replaced by the sequence `nonces`: the outcome of the first
   * nonce that does not lead to a retry, or `None` when all of them do.
   */
  function SignWithNonces(c: Curve, h: nat, d: int, nonces: seq<int>): (res: Result<Option<Signature>>)
    requires c.Valid()
    ensures res == Ok(None) <==> AllRetry(c, h, d, nonces)
    ensures res != Ok(None) ==>
              exists i :: 0 <= i < |nonces| && AllRetry(c, h, d, nonces[..i]) && SignAttempt(c, h, d, nonces[i]) == res
  {
    if |nonces| == 0 then Ok(None)
    else
      var first := SignAttempt(c, h, d, nonces[0]);
      if first != Ok(None) then
        assert AllRetry(c, h, d, nonces[..0]);
        first
      else
        var rest := SignWithNonces(c, h, d, nonces[1..]);
        assert nonces == [nonces[0]] + nonces[1..];
        if rest != Ok(None) then
          ghost var i :| 0 <= i < |nonces[1..]| && AllRetry(c, h, d, nonces[1..][..i])
                        && SignAttempt(c, h, d, nonces[1..][i]) == rest;
          assert nonces[..i + 1] == [nonces[0]] + nonces[1..][..i];
          assert AllRetry(c, h, d, nonces[..i + 1]);
          rest
        else
          rest
  }

  /** `0 < r < q and 0 < s < q`. */
  predicate InRange(c: Curve, sig: Signature) {
    0 < sig.r < c.q && 0 < sig.s < c.q
  }

  /** `z1` and `z2` are the reduced solutions of `z1·e ≡ s` and `z2·e ≡ -r (mod q)`. */
  ghost predicate VerifierScalars(c: Curve, e: int, sig: Signature, z1: int, z2: int)
    requires c.Valid()
  {
    && 0 <= z1 < c.q && 0 <= z2 < c.q
    && ModEq(z1 * e, sig.s, c.q)
    && ModEq(z2 * e, -sig.r, c.q)
  }

  /** With `v` an inverse of `e`, `z1 = s·v mod q` and `z2 = -r·v mod q` are the only verifier scalars. */
  lemma VerifierScalarsUnique(c: Curve, e: int, sig: Signature, v: int)
    requires c.Valid() && ModEq(e * v, 1, c.q)
    ensures VerifierScalars(c, e, sig, (sig.s * v) % c.q, (-sig.r * v) % c.q)
    ensures forall z1, z2 :: VerifierScalars(c, e, sig, z1, z2) ==>
              z1 == (sig.s * v) % c.q && z2 == (-sig.r * v) % c.q
  {
    InverseWitnessInvertible(e, v, c.q);
    var z1 := (sig.s * v) % c.q;
    var z2 := (-sig.r * v) % c.q;
    ModEqOfMod(sig.s * v, c.q);
    ModEqOfMod(-sig.r * v, c.q);
    SolvesScaled(z1, sig.s, e, v, c.q);
    SolvesScaled(z2, -sig.r, e, v, c.q);
    assert VerifierScalars(c, e, sig, z1, z2);
    forall y1, y2 | VerifierScalars(c, e, sig, y1, y2)
      ensures y1 == z1 && y2 == z2
    {
      assert z1 * e == e * z1 && y1 * e == e * y1;
      ModEqTrans(y1 * e, sig.s, z1 * e, c.q);
      ModEqTrans(y2 * e, -sig.r, z2 * e, c.q);
      assert e * y1 == y1 * e && e * z1 == z1 * e;
      QuotientUnique(z1 * e, e, y1, z1, c.q);
      QuotientUnique(z2 * e, e, y2, z2, c.q);
    }
  }

  /** `z ≡ n·v` with `e·v ≡ 1` solves `z·e ≡ n`. */
  lemma SolvesScaled(z: int, n: int, e: int, v: int, m: int)
    requires m > 1 && ModEq(e * v, 1, m) && ModEq(z, n * v, m)
    ensures ModEq(z * e, n, m)
  {
    ModEqMul(z, n * v, e, e, m);
    assert (n * v) * e == n * (e * v);
    ModEqMul(n, n, e * v, 1, m);
    ModEqTrans(z * e, n * (e * v), n, m);
  }

  /**
   * `z1·G + z2·Q`, failing when any of the three point computations fails. A scalar that is
   * not positive contributes the point at infinity, so the sum is then the other multiple.
   */
  function Combine(c: Curve, z1: int, z2: int, pub: Point): (res: Result<Point>)
    requires c.Valid()
    ensures z1 <= 0 ==> res == ScalarMultiply(c, z2, pub)
    ensures z2 <= 0 ==> res == ScalarMultiply(c, z1, c.G())
    ensures res.Err? ==> res.error == NoInverse
    ensures ScalarMultiply(c, z1, c.G()).Ok? && ScalarMultiply(c, z2, pub).Ok? ==>
              res == PointAdd(c, ScalarMultiply(c, z1, c.G()).value, ScalarMultiply(c, z2, pub).value)
    ensures ScalarMultiply(c, z1, c.G()).Err? || ScalarMultiply(c, z2, pub).Err? ==> res.Err?
  {
    var A :- ScalarMultiply(c, z1, c.G());
    var B :- ScalarMultiply(c, z2, pub);
    PointAdd(c, A, B)
  }

  /** The final comparison `x(C) mod q == r`, passing on a failure to compute `C`. */
  function Accept(c: Curve, C: Result<Point>, r: int): (res: Result<bool>)
    requires c.Valid()
    ensures res.Ok? <==> C.Ok?
    ensures res.Err? ==> res.error == C.error
    ensures C.Ok? ==> (res.value <==> ModEq(C.value.x, r, c.q) && 0 <= r < c.q)
  {
    match C
    case Err(e) => Err(e)
    case Ok(P) =>
      ModOfResidue(P.x % c.q, c.q);
      if 0 <= r < c.q then ModOfResidue(r, c.q); Ok(P.x % c.q == r)
      else Ok(P.x % c.q == r)
  }

  /**
   * `verify(message, (r, s), Q)` for a message whose hash integer is `h`. A signature out of
   * range, or a digest with no inverse modulo `q`, is rejected before any point arithmetic.
   * Otherwise the answer is whether `x(z1·G + z2·Q) ≡ r (mod q)` for the unique reduced
   * solutions of `z1·e ≡ s` and `z2·e ≡ -r`; a failing point addition is not caught and
   * surfaces as an error.
   */
  function Verify(c: Curve, h: nat, sig: Signature, pub: Point): (res: Result<bool>)
    requires c.Valid()
    ensures !InRange(c, sig) ==> res == Ok(false)
    ensures !Invertible(Digest(c, h), c.q) ==> res == Ok(false)
    ensures InRange(c, sig) && Invertible(Digest(c, h), c.q) ==>
              exists z1, z2 :: VerifierScalars(c, Digest(c, h), sig, z1, z2)
    ensures forall z1, z2 :: InRange(c, sig) && Invertible(Digest(c, h), c.q)
                               && VerifierScalars(c, Digest(c, h), sig, z1, z2) ==>
              res == Accept(c, Combine(c, z1, z2, pub), sig.r)
    ensures res.Err? ==> res.error == NoInverse
  {
    if !InRange(c, sig) then Ok(false)
    else
      var e := Digest(c, h);
      match ModInverse(e, c.q)
      case Err(_) =>
        Ok(false)
      case Ok(v) =>
        var z1 := (sig.s * v) % c.q;
        var z2 := (-sig.r * v) % c.q;
        assert e * v == v * e;
        VerifierScalarsUnique(c, e, sig, v);
        Accept(c, Combine(c, z1, z2, pub), sig.r)
  }

  /**
   * The algebra behind verification: for a signature produced with nonce `k` and private key
   * `d`, the verifier scalars satisfy `z1 + z2·d ≡ k (mod q)`, so `z1·G + z2·(d·G)` is `k·G`
   * wherever the group laws hold.
   */
  lemma SignedScalarsRecombine(c: Curve, h: nat, d: int, k: int, z1: int, z2: int)
    requires c.Valid() && SignAttempt(c, h, d, k).Ok? && SignAttempt(c, h, d, k).value.Some?
    requires Invertible(Digest(c, h), c.q)
    requires VerifierScalars(c, Digest(c, h), SignAttempt(c, h, d, k).value.value, z1, z2)
    ensures ModEq(z1 + z2 * d, k, c.q)
  {
    var sig := SignAttempt(c, h, d, k).value.value;
    Recombine(z1, z2, Digest(c, h), d, k, sig.r, sig.s, c.q);
  }

  /** From `z1·e ≡ s ≡ r·d + k·e` and `z2·e ≡ -r`, cancelling `e` gives `z1 + z2·d ≡ k`. */
  lemma Recombine(z1: int, z2: int, e: int, d: int, k: int, r: int, s: int, q: int)
    requires q > 1 && Invertible(e, q)
    requires ModEq(z1 * e, s, q) && ModEq(s, r * d + k * e, q) && ModEq(z2 * e, -r, q)
    ensures ModEq(z1 + z2 * d, k, q)
  {
    ModEqTrans(z1 * e, s, r * d + k * e, q);
    ModEqMul(z2 * e, -r, d, d, q);
    ModEqAdd(z1 * e, r * d + k * e, (z2 * e) * d, (-r) * d, q);
    assert (z1 + z2 * d) * e == z1 * e + (z2 * e) * d;
    assert (r * d + k * e) + (-r) * d == k * e;
    CancelInvertible(z1 + z2 * d, k, e, q);
  }
}
