/**
 * The subtraction form of Euclid's algorithm over arbitrary-precision
 * naturals (src/math.rs). The library big numbers it runs on are modelled
 * as `nat`.
 */
module Math {
  import opened NumberTheory

  /**
   * One pass of the loop body as a state transformer: the larger of the two
   * values is replaced by the difference (on a tie the second one is, which
   * the loop guard never lets happen).
   */
  function Step(n1: nat, n2: nat): (r: (nat, nat))
    ensures r.0 == n1 || r.1 == n2
    ensures r.0 <= n1 && r.1 <= n2
  {
    if n1 > n2 then (n1 - n2, n2) else (n1, n2 - n1)
  }

  /**
   * The state after `k` passes of the loop body, ignoring the guard: neither
   * value ever grows.
   */
  function Iterate(n1: nat, n2: nat, k: nat): (r: (nat, nat))
    ensures r.0 <= n1 && r.1 <= n2
  {
    if k == 0 then (n1, n2) else
    var (m1, m2) := Step(n1, n2);
    Iterate(m1, m2, k - 1)
  }

  /**
   * A pass taken from two distinct positive values keeps both positive,
   * strictly decreases their sum and keeps their Gcd.
   */
  lemma StepProgress(n1: nat, n2: nat)
    requires n1 > 0 && n2 > 0 && n1 != n2
    ensures Step(n1, n2).0 > 0 && Step(n1, n2).1 > 0
    ensures Step(n1, n2).0 + Step(n1, n2).1 < n1 + n2
    ensures Gcd(Step(n1, n2).0, Step(n1, n2).1) == Gcd(n1, n2)
  {
    if n1 > n2 {
      GcdSubtract(n1, n2);
    } else {
      GcdSubtractRight(n1, n2);
    }
  }

  /**
   * From (0, b) with b positive, every pass subtracts 0 and the two values
   * stay distinct, so the loop never exits.
   */
  lemma {:induction false} ZeroFirstNeverTerminates(b: nat, k: nat)
    requires b > 0
    ensures Iterate(0, b, k) == (0, b) && 0 != b
  {
    if k > 0 {
      ZeroFirstNeverTerminates(b, k - 1);
    }
  }

  /** The same from (a, 0) with a positive: n1 is replaced by a - 0 forever. */
  lemma {:induction false} ZeroSecondNeverTerminates(a: nat, k: nat)
    requires a > 0
    ensures Iterate(a, 0, k) == (a, 0) && a != 0
  {
    if k > 0 {
      ZeroSecondNeverTerminates(a, k - 1);
    }
  }

  /**
   * Euclid's GCD by repeated subtraction of the smaller value from the larger.
   * The loop exits when the inputs are equal (two zeros included) or both
   * positive; with exactly one of them 0 it never does.
   */
  method Euclid(n1: nat, n2: nat) returns (r: nat)
    requires n1 == n2 || (n1 > 0 && n2 > 0)
    ensures r == Gcd(n1, n2)
    ensures IsGcd(r, n1, n2)
    ensures n1 > 0 ==> 0 < r <= n1 && r <= n2
  {
    var m1: nat, m2: nat := n1, n2;
    while m1 != m2
      invariant m1 == 0 <==> m2 == 0
      invariant Gcd(m1, m2) == Gcd(n1, n2)
      decreases m1 + m2
    {
      StepProgress(m1, m2);
      if m1 > m2 {
        var d := m1 - m2;
        m1 := d;
      } else {
        var d := m2 - m1;
        m2 := d;
      }
    }
    GcdSelf(m1);
    r := m1;
    GcdIsGcd(n1, n2);
    if n1 > 0 {
      GcdAtMost(n1, n2);
    }
  }
}
