/**
 * The number theory that every GCD in the cracker is specified against:
 * divisibility, a reference greatest common divisor (the remainder form of
 * Euclid's algorithm, independent of the subtraction loop it specifies) and
 * primality.
 */
module NumberTheory {

  /** `d` divides `n`: some integer multiple of `d` is `n`. */
  ghost predicate Divides(d: nat, n: nat) {
    exists k: int :: d * k == n
  }

  /** `g` is a greatest common divisor of `a` and `b` in the divisibility order. */
  ghost predicate IsGcd(g: nat, a: nat, b: nat) {
    && Divides(g, a)
    && Divides(g, b)
    && forall d: nat :: Divides(d, a) && Divides(d, b) ==> Divides(d, g)
  }

  /** `n` is prime: at least 2, and divisible only by 1 and itself. */
  ghost predicate IsPrime(n: nat) {
    n >= 2 && forall d: nat :: Divides(d, n) ==> d == 1 || d == n
  }

  /** Reference greatest common divisor, with `Gcd(a, 0) == a`. */
  function Gcd(a: nat, b: nat): nat
    decreases b
  {
    if b == 0 then a else Gcd(b, a % b)
  }

  // ---------------------------------------------------------------------
  // Arithmetic helpers

  lemma MulAtLeast(y: nat, t: int)
    requires t >= 1
    ensures y * t >= y
  {}

  /** Quotient and remainder are unique (Euclidean division by a positive divisor). */
  lemma DivModUnique(x: nat, y: nat, q: int, r: int)
    requires y > 0 && x == y * q + r && 0 <= r < y
    ensures x / y == q && x % y == r
  {
    var q', r' := x / y, x % y;
    assert x == y * q' + r';
    if q > q' { MulAtLeast(y, q - q'); }
    if q < q' { MulAtLeast(y, q' - q); }
  }

  /** The quotient of naturals is a natural. */
  lemma DivIsNat(a: nat, b: nat)
    requires b > 0
    ensures a / b >= 0
  {}

  lemma SubMod(a: nat, b: nat)
    requires a >= b > 0
    ensures (a - b) % b == a % b
  {
    DivModUnique(a - b, b, a / b - 1, a % b);
  }

  /** Dividing a multiple of `d` by `d` and multiplying back is the identity. */
  lemma DivMulCancel(d: nat, n: nat)
    requires d > 0 && Divides(d, n)
    ensures (n / d) * d == n && n % d == 0
  {
    var k :| d * k == n;
    DivModUnique(n, d, k, 0);
  }

  /** A divisor of a positive number is at most that number. */
  lemma DivisorAtMost(d: nat, n: nat)
    requires n > 0 && Divides(d, n)
    ensures d <= n
  {
    var k :| d * k == n;
    if k >= 1 {
      MulAtLeast(d, k);
    }
  }

  lemma DividesRefl(n: nat)
    ensures Divides(n, n) && Divides(n, 0)
  {
    assert n * 1 == n;
    assert n * 0 == 0;
  }

  /** A multiple of `d` plus a multiple of `d` is a multiple of `d`. */
  lemma DividesCombination(d: nat, x: nat, y: nat, n: nat, c: int)
    requires Divides(d, x) && Divides(d, y) && n == x * c + y
    ensures Divides(d, n)
  {
    var i :| d * i == x;
    var j :| d * j == y;
    assert n == d * (i * c + j) by {
      assert x * c == d * (i * c);
    }
  }

  /** A multiple of `d` minus a multiple of `d` is a multiple of `d`. */
  lemma DividesDifference(d: nat, x: nat, y: nat, n: nat, c: int)
    requires Divides(d, x) && Divides(d, y) && n == x - y * c
    ensures Divides(d, n)
  {
    var i :| d * i == x;
    var j :| d * j == y;
    assert n == d * (i - j * c) by {
      assert y * c == d * (j * c);
    }
  }

  /** A common divisor of `b` and `a % b` divides `a`, and conversely. */
  lemma DividesRemainder(d: nat, a: nat, b: nat)
    requires b > 0
    ensures Divides(d, b) && Divides(d, a % b) ==> Divides(d, a)
    ensures Divides(d, a) && Divides(d, b) ==> Divides(d, a % b)
  {
    var q := a / b;
    assert a == b * q + a % b;
    if Divides(d, b) && Divides(d, a % b) {
      DividesCombination(d, b, a % b, a, q);
    }
    if Divides(d, a) && Divides(d, b) {
      DividesDifference(d, a, b, a % b, q);
    }
  }

  // ---------------------------------------------------------------------
  // Properties of Gcd

  /** Gcd(a, b) divides both arguments. */
  lemma {:induction false} GcdDividesBoth(a: nat, b: nat)
    ensures Divides(Gcd(a, b), a) && Divides(Gcd(a, b), b)
    decreases b
  {
    if b == 0 {
      DividesRefl(a);
    } else {
      GcdDividesBoth(b, a % b);
      DividesRemainder(Gcd(a, b), a, b);
    }
  }

  /** Every common divisor of `a` and `b` divides Gcd(a, b). */
  lemma {:induction false} CommonDivisorDividesGcd(d: nat, a: nat, b: nat)
    requires Divides(d, a) && Divides(d, b)
    ensures Divides(d, Gcd(a, b))
    decreases b
  {
    if b != 0 {
      DividesRemainder(d, a, b);
      CommonDivisorDividesGcd(d, b, a % b);
    }
  }

  /** Gcd computes a greatest common divisor in the divisibility order. */
  lemma GcdIsGcd(a: nat, b: nat)
    ensures IsGcd(Gcd(a, b), a, b)
  {
    GcdDividesBoth(a, b);
    forall d: nat | Divides(d, a) && Divides(d, b)
      ensures Divides(d, Gcd(a, b))
    {
      CommonDivisorDividesGcd(d, a, b);
    }
  }

  /** Gcd is zero only for (0, 0). */
  lemma {:induction false} GcdPositive(a: nat, b: nat)
    ensures Gcd(a, b) == 0 <==> a == 0 && b == 0
    decreases b
  {
    if b != 0 {
      GcdPositive(b, a % b);
    }
  }

  /**
   * For positive arguments, Gcd(a, b) is a common divisor, no common divisor
   * exceeds it, and it is at most min(a, b).
   */
  lemma GcdIsGreatest(a: nat, b: nat, d: nat)
    requires a > 0 || b > 0
    requires Divides(d, a) && Divides(d, b)
    ensures 0 < d <= Gcd(a, b)
  {
    GcdPositive(a, b);
    CommonDivisorDividesGcd(d, a, b);
    DivisorAtMost(d, Gcd(a, b));
    if d == 0 {
      var k :| d * k == a;
      var k' :| d * k' == b;
    }
  }

  lemma GcdAtMost(a: nat, b: nat)
    requires a > 0 && b > 0
    ensures 0 < Gcd(a, b) <= a && Gcd(a, b) <= b
  {
    GcdPositive(a, b);
    GcdDividesBoth(a, b);
    DivisorAtMost(Gcd(a, b), a);
    DivisorAtMost(Gcd(a, b), b);
  }

  /** Gcd is symmetric. */
  lemma GcdComm(a: nat, b: nat)
    ensures Gcd(a, b) == Gcd(b, a)
  {
    if a != 0 && b != 0 {
      if a < b {
        DivModUnique(a, b, 0, a);
      } else if b < a {
        DivModUnique(b, a, 0, b);
      }
    }
  }

  lemma GcdSelf(a: nat)
    ensures Gcd(a, a) == a
  {}

  /** Replacing the larger argument by the difference keeps the Gcd. */
  lemma GcdSubtract(a: nat, b: nat)
    requires a > b > 0
    ensures Gcd(a - b, b) == Gcd(a, b)
  {
    SubMod(a, b);
    assert Gcd(a - b, b) == Gcd(b, (a - b) % b);
  }

  /** The same, with the larger value in second position. */
  lemma GcdSubtractRight(a: nat, b: nat)
    requires 0 < a < b
    ensures Gcd(a, b - a) == Gcd(a, b)
  {
    GcdSubtract(b, a);
    GcdComm(a, b);
    GcdComm(a, b - a);
  }

  lemma MulStrict(k: nat, x: nat, y: nat)
    requires k > 0 && x < y
    ensures k * x < k * y
  {
    MulAtLeast(k, y - x);
    assert k * y - k * x == k * (y - x);
  }

  /** Gcd distributes over a common factor. */
  lemma {:induction false} GcdScale(k: nat, a: nat, b: nat)
    ensures Gcd(k * a, k * b) == k * Gcd(a, b)
    decreases b
  {
    if k == 0 || b == 0 {
    } else {
      MulStrict(k, a % b, b);
      assert k * a == (k * b) * (a / b) + k * (a % b) by {
        assert a == b * (a / b) + a % b;
      }
      DivModUnique(k * a, k * b, a / b, k * (a % b));
      GcdScale(k, b, a % b);
    }
  }

  /** Two distinct primes have no common factor but 1. */
  lemma GcdOfDistinctPrimes(p: nat, q: nat)
    requires IsPrime(p) && IsPrime(q) && p != q
    ensures Gcd(p, q) == 1
  {
    GcdDividesBoth(p, q);
  }

  /** Two moduli p*q1 and p*q2 with q1, q2 distinct primes have Gcd exactly p. */
  lemma SharedPrimeIsGcd(p: nat, q1: nat, q2: nat)
    requires IsPrime(q1) && IsPrime(q2) && q1 != q2
    ensures Gcd(p * q1, p * q2) == p
  {
    GcdScale(p, q1, q2);
    GcdOfDistinctPrimes(q1, q2);
  }

  /** Gcd on the test vectors of src/math.rs. */
  lemma GcdExamples()
    ensures Gcd(18, 24) == 6
    ensures Gcd(88, 99) == 11
    ensures Gcd(12345678901234567890, 98765432109876543210) == 900000000090
  {}
}
