/**
 * Integer arithmetic shared by the ciphers and the signature scheme: Python's floor
 * division, Euclid's gcd, congruences, the extended Euclidean loop, the modular inverse
 * it yields, and the brute-force inverse search.
 */
module NumberTheory {
  import opened Outcomes

  function Abs(x: int): nat {
    if x < 0 then -x else x
  }

  /** Python's `x // y`: the quotient rounded towards minus infinity. */
  function FloorDiv(x: int, y: int): (q: int)
    requires y != 0
    ensures y > 0 ==> 0 <= x - y * q < y
    ensures y < 0 ==> y < x - y * q <= 0
  {
    if y > 0 || x % y == 0 then x / y else x / y - 1
  }

  /** `d` divides `n` (for a positive `d`). */
  predicate Divides(d: int, n: int)
    requires d > 0
  {
    n % d == 0
  }

  /** `x` and `y` are congruent modulo `m`. */
  predicate ModEq(x: int, y: int, m: int)
    requires m > 0
  {
    x % m == y % m
  }

  predicate IsPrime(n: int) {
    n > 1 && forall d :: 1 < d < n ==> !Divides(d, n)
  }

  // ---------------------------------------------------------------------------
  // Division and congruence facts
  // ---------------------------------------------------------------------------

  lemma MulAtLeast(d: int, k: int)
    requires d > 0 && k >= 1
    ensures d * k >= d
  {
    assert d * k == d + d * (k - 1);
  }

  /** Euclidean division is unique: any `n == d*q + r` with `0 <= r < d` is the one. */
  lemma DivModUnique(n: int, d: int, q: int, r: int)
    requires d > 0 && 0 <= r < d && n == d * q + r
    ensures n / d == q && n % d == r
  {
    var q0, r0 := n / d, n % d;
    assert d * q + r == d * q0 + r0;
    assert d * (q - q0) == r0 - r;
    if q > q0 {
      MulAtLeast(d, q - q0);
    } else if q < q0 {
      assert d * (q0 - q) == r - r0;
      MulAtLeast(d, q0 - q);
    }
  }

  /** Adding a multiple of the modulus does not change the remainder. */
  lemma ModShift(x: int, k: int, m: int)
    requires m > 0
    ensures (x + m * k) % m == x % m
  {
    assert x + m * k == m * (x / m + k) + x % m;
    DivModUnique(x + m * k, m, x / m + k, x % m);
  }

  /** Congruent numbers differ by a multiple of the modulus. */
  lemma ModEqWitness(x: int, y: int, m: int) returns (k: int)
    requires m > 0 && ModEq(x, y, m)
    ensures y == x + m * k
  {
    k := y / m - x / m;
    assert y == m * (y / m) + y % m;
    assert x == m * (x / m) + x % m;
  }

  lemma ModEqOfMod(x: int, m: int)
    requires m > 0
    ensures ModEq(x % m, x, m)
  {
    DivModUnique(x % m, m, 0, x % m);
  }

  lemma ModEqAdd(x: int, x': int, y: int, y': int, m: int)
    requires m > 0 && ModEq(x, x', m) && ModEq(y, y', m)
    ensures ModEq(x + y, x' + y', m)
  {
    var kx := ModEqWitness(x, x', m);
    var ky := ModEqWitness(y, y', m);
    assert x' + y' == x + y + m * (kx + ky);
    ModShift(x + y, kx + ky, m);
  }

  lemma ModEqNeg(x: int, x': int, m: int)
    requires m > 0 && ModEq(x, x', m)
    ensures ModEq(-x, -x', m)
  {
    var k := ModEqWitness(x, x', m);
    assert -x' == -x + m * (-k);
    ModShift(-x, -k, m);
  }

  lemma ModEqSub(x: int, x': int, y: int, y': int, m: int)
    requires m > 0 && ModEq(x, x', m) && ModEq(y, y', m)
    ensures ModEq(x - y, x' - y', m)
  {
    ModEqNeg(y, y', m);
    ModEqAdd(x, x', -y, -y', m);
  }

  lemma ModEqMul(x: int, x': int, y: int, y': int, m: int)
    requires m > 0 && ModEq(x, x', m) && ModEq(y, y', m)
    ensures ModEq(x * y, x' * y', m)
  {
    var kx := ModEqWitness(x, x', m);
    var ky := ModEqWitness(y, y', m);
    calc {
      x' * y';
      (x + m * kx) * (y + m * ky);
      x * y + m * (kx * y + x * ky + m * kx * ky);
    }
    ModShift(x * y, kx * y + x * ky + m * kx * ky, m);
  }

  lemma ModEqTrans(x: int, y: int, z: int, m: int)
    requires m > 0 && ModEq(x, y, m) && ModEq(y, z, m)
    ensures ModEq(x, z, m)
  {
  }

  /** Two residues in `[0, m)` that are congruent are equal. */
  lemma ModEqResidues(x: int, y: int, m: int)
    requires m > 0 && 0 <= x < m && 0 <= y < m && ModEq(x, y, m)
    ensures x == y
  {
    DivModUnique(x, m, 0, x);
    DivModUnique(y, m, 0, y);
  }

  /** A residue is its own remainder. */
  lemma ModOfResidue(x: int, m: int)
    requires 0 <= x < m
    ensures x % m == x
  {
    DivModUnique(x, m, 0, x);
  }

  /** A positive divisor of a positive number is no larger than it. */
  lemma DivisorBound(d: int, n: int)
    requires d > 0 && n > 0 && Divides(d, n)
    ensures d <= n
  {
    if d > n {
      DivModUnique(n, d, 0, n);
    }
  }

  /** Common divisors of `b` and `a` are exactly the common divisors of `b` and `a % b`. */
  lemma DividesRemainder(a: int, b: int)
    requires b > 0
    ensures forall d :: d > 0 && Divides(d, b) ==> (Divides(d, a) <==> Divides(d, a % b))
  {
    forall d | d > 0 && Divides(d, b)
      ensures Divides(d, a) <==> Divides(d, a % b)
    {
      assert a == b * (a / b) + a % b;
      var k := b / d;
      assert b == d * k;
      assert a == a % b + d * (k * (a / b));
      ModShift(a % b, k * (a / b), d);
    }
  }

  // ---------------------------------------------------------------------------
  // Euclid's algorithm
  // ---------------------------------------------------------------------------

  /**
   * Euclid's loop `while b != 0: a, b = b, a % b`. With a positive second argument the
   * result is the greatest common divisor: it divides both arguments, and every common
   * divisor divides it.
   */
  function Gcd(a: int, b: nat): (g: int)
    ensures b > 0 ==> g > 0 && Divides(g, a) && Divides(g, b)
    ensures b > 0 ==> forall d :: d > 0 && Divides(d, a) && Divides(d, b) ==> Divides(d, g)
    decreases b
  {
    if b == 0 then a
    else
      DividesRemainder(a, b);
      Gcd(b, a % b)
  }

  /** Python's `gcd(v, m) == 1`: `v` has an inverse modulo `m`. */
  predicate Invertible(v: int, m: nat) {
    Gcd(v, m) == 1
  }

  /** A value that has an inverse modulo `m` passes Python's `gcd(v, m) == 1` test. */
  lemma InverseWitnessInvertible(v: int, t: int, m: int)
    requires m > 1 && ModEq(v * t, 1, m)
    ensures Invertible(v, m)
  {
    var g := Gcd(v, m);
    var k := ModEqWitness(v * t, 1, m);
    assert Divides(g, v);
    assert v == g * (v / g);
    assert m == g * (m / g);
    assert 1 == g * ((v / g) * t + (m / g) * k);
    if g > 1 {
      MulAtLeast(g, 1);
      var c := (v / g) * t + (m / g) * k;
      if c >= 1 {
        MulAtLeast(g, c);
      } else if c <= -1 {
        assert g * c == -(g * -c);
        MulAtLeast(g, -c);
      }
    }
  }

  /** Invertibility does not depend on the sign of the value. */
  lemma InvertibleNeg(v: int, m: nat)
    requires m > 1
    ensures Invertible(v, m) <==> Invertible(-v, m)
  {
    if Invertible(v, m) {
      var t := ModInverseOf(v, m);
      assert (-v) * (-t) == v * t;
      InverseWitnessInvertible(-v, -t, m);
    }
    if Invertible(-v, m) {
      var t := ModInverseOf(-v, m);
      assert v * (-t) == (-v) * t;
      InverseWitnessInvertible(v, -t, m);
    }
  }

  /** Modulo a prime, exactly the nonzero residues are invertible. */
  lemma PrimeInvertible(v: int, p: nat)
    requires IsPrime(p)
    ensures Invertible(v, p) <==> v % p != 0
  {
    var g := Gcd(v, p);
    if v % p == 0 {
      assert Divides(p, v) && Divides(p, p);
      DivisorBound(g, p);
      assert Divides(p, g);
      DivisorBound(p, g);
    } else {
      DivisorBound(g, p);
    }
  }

  /** A multiple of the modulus has no inverse. */
  lemma MultipleNotInvertible(v: int, m: nat)
    requires m > 1 && v % m == 0
    ensures !Invertible(v, m)
  {
    assert Divides(m, v) && Divides(m, m);
    assert Divides(m, Gcd(v, m));
  }

  // ---------------------------------------------------------------------------
  // The extended Euclidean loop and the modular inverse
  // ---------------------------------------------------------------------------

  /**
   * The loop of the extended Euclidean algorithm:
   * `while new_r != 0: q = r // new_r; t, new_t = new_t, t - q*new_t; r, new_r = new_r, r - q*new_r`.
   * Returns the final pair `(t, r)`. Division is Python's floor division, so the loop also
   * runs (and terminates) on negative operands.
   */
  function EuclidSteps(t: int, newT: int, r: int, newR: int): (res: (int, int))
    ensures r >= 0 && newR >= 0 ==> res.1 >= 0 && (r > 0 ==> res.1 > 0)
    decreases Abs(newR)
  {
    if newR == 0 then (t, r)
    else
      var q := FloorDiv(r, newR);
      assert r >= 0 && newR > 0 ==> r - q * newR == r % newR by {
        if r >= 0 && newR > 0 {
          DivModUnique(r, newR, q, r - newR * q);
        }
      }
      EuclidSteps(newT, t - q * newT, newR, r - q * newR)
  }

  /** What holds of the loop state when it starts from `(0, 1, m, a)` with `0 <= a < m`. */
  ghost predicate EuclidInvariant(t: int, newT: int, r: int, newR: int, a: int, m: int)
    requires m > 0
  {
    && 0 <= newR < r
    && r * Abs(newT) + newR * Abs(t) == m
    && t * newT <= 0
    && Abs(t) * r < m
    && ModEq(t * a, r, m)
    && ModEq(newT * a, newR, m)
  }

  /** The Bézout coefficients alternate in sign, so a step adds their magnitudes. */
  lemma StepMagnitude(t: int, newT: int, q: int)
    requires t * newT <= 0 && q >= 0
    ensures Abs(t - q * newT) == Abs(t) + q * Abs(newT)
    ensures newT * (t - q * newT) <= 0
  {
    if newT > 0 {
      assert t <= 0 by {
        if t > 0 {
          MulAtLeast(t, newT);
        }
      }
      assert q * newT >= 0;
    } else if newT < 0 {
      assert t >= 0 by {
        if t < 0 {
          assert (-t) * (-newT) == t * newT;
          MulAtLeast(-t, -newT);
        }
      }
      assert q * (-newT) >= 0;
    }
    assert newT * (t - q * newT) == newT * t - q * (newT * newT);
    assert newT * newT >= 0;
    assert q * (newT * newT) >= 0;
  }

  lemma StepBalance(A: int, B: int, q: int, r: int, newR: int, m: int)
    requires r * B + newR * A == m
    ensures newR * (A + q * B) + (r - q * newR) * B == m
  {
    assert newR * (A + q * B) == newR * A + q * (newR * B);
    assert (r - q * newR) * B == r * B - q * (newR * B);
  }

  lemma StepCongruence(t: int, newT: int, r: int, newR: int, q: int, a: int, m: int)
    requires m > 0 && ModEq(t * a, r, m) && ModEq(newT * a, newR, m)
    ensures ModEq((t - q * newT) * a, r - q * newR, m)
  {
    assert (t - q * newT) * a == t * a - q * (newT * a);
    ModEqMul(q, q, newT * a, newR, m);
    ModEqSub(t * a, r, q * (newT * a), q * newR, m);
  }

  lemma ProductBelow(x: nat, lo: int, hi: int, m: int)
    requires 0 <= lo < hi && m > 0 && x * hi <= m
    ensures x * lo < m
  {
    if x > 0 {
      assert x * lo < x * hi;
    }
  }

  lemma EuclidInvariantStep(t: int, newT: int, r: int, newR: int, a: int, m: int)
    requires m > 0 && newR != 0 && EuclidInvariant(t, newT, r, newR, a, m)
    ensures var q := FloorDiv(r, newR);
            EuclidInvariant(newT, t - q * newT, newR, r - q * newR, a, m)
  {
    var q := FloorDiv(r, newR);
    DivModUnique(r, newR, q, r - newR * q);
    StepMagnitude(t, newT, q);
    StepBalance(Abs(t), Abs(newT), q, r, newR, m);
    ProductBelow(Abs(newT), newR, r, m);
    StepCongruence(t, newT, r, newR, q, a, m);
  }

  /** Run to the end from a state satisfying the invariant, the loop leaves `t*a ≡ r` with `|t|*r < m`. */
  lemma {:induction false} EuclidStepsSound(t: int, newT: int, r: int, newR: int, a: int, m: int)
    requires m > 0 && EuclidInvariant(t, newT, r, newR, a, m)
    ensures var (t', r') := EuclidSteps(t, newT, r, newR);
            r' > 0 && ModEq(t' * a, r', m) && Abs(t') * r' < m
    decreases newR
  {
    if newR != 0 {
      var q := FloorDiv(r, newR);
      EuclidInvariantStep(t, newT, r, newR, a, m);
      EuclidStepsSound(newT, t - q * newT, newR, r - q * newR, a, m);
    }
  }

  /** On non-negative operands the remainder the loop ends with is Euclid's gcd. */
  lemma {:induction false} EuclidStepsGcd(t: int, newT: int, r: int, newR: int)
    requires r >= 0 && newR >= 0
    ensures EuclidSteps(t, newT, r, newR).1 == Gcd(r, newR)
    decreases newR
  {
    if newR != 0 {
      var q := FloorDiv(r, newR);
      DivModUnique(r, newR, q, r - newR * q);
      EuclidStepsGcd(newT, t - q * newT, newR, r - q * newR);
    }
  }

  /**
   * The inverse of `a` modulo `m > 1`, as Python's `pow(a, -1, m)` and as the extended
   * Euclidean algorithm computes it after first reducing `a` into `[0, m)`: the unique
   * `t` in `[0, m)` with `a*t ≡ 1`, and `NoInverse` exactly when `gcd(a, m) != 1`.
   */
  function ModInverse(a: int, m: int): (res: Result<int>)
    requires m > 1
    ensures res.Ok? <==> Invertible(a, m)
    ensures res.Ok? ==> 0 <= res.value < m && ModEq(a * res.value, 1, m)
    ensures res.Err? ==> res.error == NoInverse
  {
    var (t, r) := EuclidSteps(0, 1, m, a % m);
    ModInverseCorrect(a, m);
    if r > 1 then Err(NoInverse)
    else
      var t' := if t < 0 then t + m else t;
      Ok(t')
  }

  /** What the loop started from `(0, 1, m, a % m)` ends with. */
  lemma ModInverseLoop(a: int, m: int)
    requires m > 1
    ensures var (t, r) := EuclidSteps(0, 1, m, a % m);
            && r > 0
            && (r == 1 <==> Invertible(a, m))
            && ModEq((a % m) * t, r, m)
            && Abs(t) * r < m
  {
    var a' := a % m;
    assert EuclidInvariant(0, 1, m, a', a', m);
    EuclidStepsSound(0, 1, m, a', a', m);
    EuclidStepsGcd(0, 1, m, a');
    assert Gcd(a, m) == Gcd(m, a');
  }

  lemma ModInverseCorrect(a: int, m: int)
    requires m > 1
    ensures var (t, r) := EuclidSteps(0, 1, m, a % m);
            && (r == 1 <==> Invertible(a, m))
            && (r <= 1 ==> r == 1)
            && (r == 1 ==> -m < t < m && ModEq(a * t, 1, m) && ModEq(a * (t + m), 1, m))
  {
    ModInverseLoop(a, m);
    var (t, r) := EuclidSteps(0, 1, m, a % m);
    if r == 1 {
      ModEqOfMod(a, m);
      ModEqMul(a % m, a, t, t, m);
      assert a * (t + m) == a * t + m * a;
      ModShift(a * t, a, m);
    }
  }

  /** For `m > 1`, `IsInverse` is the congruence `a*x ≡ 1`, and zero is never an inverse. */
  lemma IsInverseModEq(a: int, x: int, m: int)
    requires m > 1
    ensures IsInverse(a, x, m) <==> ModEq(a * x, 1, m)
    ensures !IsInverse(a, 0, m)
  {
    ModOfResidue(1, m);
    ModOfResidue(0, m);
  }

  /** Any two inverses of `a` modulo `m` are congruent. */
  lemma InverseUnique(a: int, t: int, u: int, m: int)
    requires m > 0 && ModEq(a * t, 1, m) && ModEq(a * u, 1, m)
    ensures ModEq(t, u, m)
  {
    ModEqMul(a * t, 1, u, u, m);
    ModEqMul(a * u, 1, t, t, m);
    assert (a * t) * u == (a * u) * t;
  }

  /** The affine map `x ↦ (a*x + b) % m` is undone by `y ↦ (inv*(y - b)) % m` on residues. */
  lemma AffineUndo(a: int, inv: int, b: int, m: int, x: int)
    requires m > 0 && ModEq(a * inv, 1, m) && 0 <= x < m
    ensures (inv * ((a * x + b) % m - b)) % m == x
  {
    var y := a * x + b;
    var e := y % m;
    ModEqOfMod(y, m);
    ModEqSub(e, y, b, b, m);
    assert y - b == a * x;
    ModEqMul(inv, inv, e - b, a * x, m);
    assert inv * (a * x) == (a * inv) * x;
    ModEqMul(a * inv, 1, x, x, m);
    ModEqOfMod(inv * (e - b), m);
    ModOfResidue(x, m);
    ModEqResidues((inv * (e - b)) % m, x, m);
  }

  /** An invertible factor cancels from both sides of a congruence. */
  lemma CancelInvertible(x: int, y: int, e: int, m: int)
    requires m > 1 && Invertible(e, m) && ModEq(x * e, y * e, m)
    ensures ModEq(x, y, m)
  {
    var v := ModInverseOf(e, m);
    ModEqMul(x * e, y * e, v, v, m);
    assert (x * e) * v == x * (e * v);
    assert (y * e) * v == y * (e * v);
    ModEqMul(x, x, e * v, 1, m);
    ModEqMul(y, y, e * v, 1, m);
  }

  /** The residue that `ModInverse` returns, for callers that know it exists. */
  lemma ModInverseOf(v: int, m: int) returns (t: int)
    requires m > 1 && Invertible(v, m)
    ensures ModInverse(v, m) == Ok(t)
    ensures 0 <= t < m && ModEq(v * t, 1, m)
  {
    t := ModInverse(v, m).value;
  }

  /** The key `1` is its own inverse. */
  lemma InverseOfOne(m: int)
    requires m > 1
    ensures ModInverse(1, m) == Ok(1)
  {
    InverseWitnessInvertible(1, 1, m);
    var t := ModInverseOf(1, m);
    ModOfResidue(1, m);
    ModOfResidue(t, m);
  }

  /** Division by an invertible `den`: `lam*den ≡ num` has exactly one solution in `[0, m)`. */
  lemma QuotientUnique(num: int, den: int, l1: int, l2: int, m: int)
    requires m > 1 && Invertible(den, m)
    requires 0 <= l1 < m && 0 <= l2 < m
    requires ModEq(l1 * den, num, m) && ModEq(l2 * den, num, m)
    ensures l1 == l2
  {
    var t := ModInverseOf(den, m);
    ModEqMul(l1 * den, num, t, t, m);
    ModEqMul(l2 * den, num, t, t, m);
    assert (l1 * den) * t == l1 * (den * t);
    assert (l2 * den) * t == l2 * (den * t);
    ModEqMul(l1, l1, den * t, 1, m);
    ModEqMul(l2, l2, den * t, 1, m);
    ModEqResidues(l1, l2, m);
  }

  // ---------------------------------------------------------------------------
  // Brute-force inverse search
  // ---------------------------------------------------------------------------

  /** `x` is an inverse of `a` modulo `m`. */
  predicate IsInverse(a: int, x: int, m: int)
    requires m > 0
  {
    (a * x) % m == 1
  }

  /**
   * `for x in range(from, m): if (a*x) % m == 1: return x`, then `raise`: the least inverse
   * at or above `from`, or `NoInverse` when there is none below `m`.
   */
  function SearchInverse(a: int, m: int, from: int): (res: Result<int>)
    requires from >= 1
    ensures res.Ok? ==> from <= res.value < m && IsInverse(a, res.value, m)
    ensures res.Ok? ==> forall y :: from <= y < res.value ==> !IsInverse(a, y, m)
    ensures res.Err? ==> res.error == NoInverse && forall y :: from <= y < m ==> !IsInverse(a, y, m)
    decreases m - from
  {
    if from >= m then Err(NoInverse)
    else if (a * from) % m == 1 then Ok(from)
    else SearchInverse(a, m, from + 1)
  }
}
