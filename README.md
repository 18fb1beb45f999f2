# RSA common-factor cracker: a verified model of its arithmetic core

This project models the arithmetic at the heart of a tool that cracks RSA
public keys by the Common Factor Attack: when two moduli were generated
with one prime in common, their greatest common divisor reveals that
prime, and one division per modulus reveals the other.

Three components are modelled.

- `BoundlessUint` (`boundless_uint.dfy`, module `Boundless`): an unsigned
  integer stored as its decimal digits, most significant first. It has
  parsing from a string, conversion from `u32`, and two operations whose
  bodies are `todo!()` in the source: `euclid` (GCD) and `/`. Those two
  are given here by their contracts on the numeric value. Equality is the
  derived structural one, on digit sequences, so `[0, 1]` and `[1]` are
  different values of the type.
- The subtraction-based Euclid loop (`math.dfy`, module `Math`) over the
  library's arbitrary-precision numbers, modelled as `nat`.
- The crack itself (`crack.dfy`, module `Crack`): `attempt_crack`, the
  `KeyPair` record and `PrivateKey` with its order-insensitive equality.

`number_theory.dfy` defines what every GCD here is specified against:
divisibility, a reference `Gcd` (the remainder form of Euclid's
algorithm) proved to be a greatest common divisor, and primality.
`wrappers.dfy` holds `Option` and `Result`.

Modelling choices:

- Zero converted from `u32` is the empty digit sequence, not `[0]`: the
  extraction loop never runs for 0. "Canonical" in this model means no
  leading zero digit, with zero as the empty sequence.
- Parsing keeps every character's digit, leading zeros included. The
  empty string parses to the empty sequence.
- The source has no comparison, subtraction or long division on
  `BoundlessUint`. Its `euclid` and `/` have only a `todo!()` body.
- `Boundless.Euclid` and `Boundless.Div` return canonical digits. The
  division test compares `1224 / 18` structurally with the conversion of
  68, and `attempt_crack` compares the GCD structurally with the
  conversion of 1. Both comparisons only work for canonical results.
- `Boundless.Euclid` is total, with `Gcd(x, 0) == x`. The subtraction
  loop of `Math.Euclid` exits at once on equal inputs, two zeros
  included, and terminates whenever both inputs are positive. When
  exactly one input is 0 it never terminates, so `Math.Euclid` requires
  its inputs to be equal or both positive.
  `Math.ZeroFirstNeverTerminates` and `Math.ZeroSecondNeverTerminates`
  show the two non-terminating cases.

## Model

| member | source | states |
|---|---|---|
| `Math.Euclid` | src/math.rs:4-15 | for equal inputs (0 and 0 included) or two positive inputs the loop terminates and returns Gcd(n1, n2): a common divisor that every common divisor divides; for positive inputs it is positive and at most min(n1, n2) |
| `Math.Step` | src/math.rs:6-12 | one pass of the loop body replaces one of the two values, by a value no larger |
| `Math.Iterate` | src/math.rs:5-13 | after any number of passes neither value has grown |
| `Math.StepProgress` | src/math.rs:5-13 | one pass from two distinct positive values keeps both positive, strictly decreases n1 + n2 and keeps their Gcd |
| `Math.ZeroFirstNeverTerminates` | src/math.rs:5-12 | from (0, b) with b > 0, every number of passes leaves the state (0, b) with the guard still true, so the loop never exits |
| `Math.ZeroSecondNeverTerminates` | src/math.rs:5-8 | from (a, 0) with a > 0, every number of passes leaves the state (a, 0) with the guard still true, so the loop never exits |
| `NumberTheory.GcdIsGcd` | src/math.rs:3 | the reference Gcd divides both arguments, and every common divisor divides it |
| `NumberTheory.GcdDividesBoth` | src/math.rs:3 | Gcd(a, b) divides a and b |
| `NumberTheory.CommonDivisorDividesGcd` | src/math.rs:3 | every common divisor of a and b divides Gcd(a, b) |
| `NumberTheory.GcdIsGreatest` | src/boundless_uint.rs:9 | unless both arguments are 0, every common divisor is positive and at most Gcd(a, b) |
| `NumberTheory.GcdPositive` | src/crack.rs:22-32 | Gcd(a, b) is 0 only when both arguments are 0, so the crack never divides by 0 |
| `NumberTheory.GcdAtMost` | src/math.rs:4-15 | for positive arguments Gcd is positive and at most min(a, b) |
| `NumberTheory.GcdComm` | src/math.rs:4-15 | Gcd(a, b) == Gcd(b, a) |
| `NumberTheory.GcdSelf` | src/math.rs:5 | Gcd(a, a) == a, which the loop returns without running |
| `NumberTheory.GcdSubtract` | src/math.rs:6-8 | replacing the larger value n1 by n1 - n2 keeps the Gcd |
| `NumberTheory.GcdSubtractRight` | src/math.rs:9-11 | replacing the larger value n2 by n2 - n1 keeps the Gcd |
| `NumberTheory.GcdScale` | src/crack.rs:12-14 | Gcd(k*a, k*b) == k * Gcd(a, b) |
| `NumberTheory.GcdOfDistinctPrimes` | src/crack.rs:24 | two distinct primes have Gcd 1 |
| `NumberTheory.SharedPrimeIsGcd` | src/crack.rs:29 | for distinct primes q1 and q2, Gcd(p*q1, p*q2) is exactly p |
| `NumberTheory.GcdExamples` | src/math.rs:23-48 | the three test vectors: (18, 24) gives 6, (88, 99) gives 11, and the 20-digit pair gives 900000000090 |
| `Boundless.ToDigit` | src/boundless_uint.rs:21 | a character has a digit value exactly when it is an ASCII decimal digit, and '0' plus that value is the character |
| `Boundless.FirstNonDigit` | src/boundless_uint.rs:18-25 | the index of the first non-digit character (or the length): all characters before it are digits, and the one at it is not |
| `Boundless.FromStr` | src/boundless_uint.rs:17-28 | succeeds iff every character is an ASCII decimal digit; then yields exactly one digit per character, in order, with the character's digit value; otherwise fails naming the first non-digit character |
| `Boundless.FromStrExamples` | src/boundless_uint.rs:58-72 | "53267" gives [5,3,2,6,7]; "12t65" fails naming 't'; leading zeros are kept; "" gives [] |
| `Boundless.Reversed` | src/boundless_uint.rs:41 | the reversal has the same length, with element i taken from position length-1-i |
| `Boundless.PushDigit` | src/boundless_uint.rs:36-40 | one pass of the extraction loop keeps value == v * 10^len + value of the reversed digits so far |
| `Boundless.FromU32` | src/boundless_uint.rs:33-44 | the digits read most significant first denote the input; no leading zero; empty exactly for input 0; at most 10 digits; equal to Encode(value) |
| `Boundless.U32DigitCount` | src/boundless_uint.rs:33-43 | a number below 2^32 has at most 10 canonical digits |
| `Boundless.Encode` | src/boundless_uint.rs:33-43 | the canonical digits of a natural: no leading zero, and they denote that natural |
| `Boundless.EncodeExamples` | src/boundless_uint.rs:74-77 | 4567 gives [4,5,6,7], 0 gives [], 1 gives [1] |
| `Boundless.CanonicalUnique` | src/boundless_uint.rs:6-7 | two canonical digit sequences are equal iff they denote the same number |
| `Boundless.LeadingZeroKeepsValue` | src/boundless_uint.rs:6-7 | a leading zero keeps the value but makes an unequal `BoundlessUint` |
| `Boundless.ValuePrepend` | src/boundless_uint.rs:7 | a digit put in front of n digits adds digit * 10^n to the value |
| `Boundless.CanonicalLowerBound` | src/boundless_uint.rs:7 | n canonical digits (n > 0) denote at least 10^(n-1) |
| `Boundless.ValueBelowPow10` | src/boundless_uint.rs:7 | n digits denote less than 10^n |
| `Boundless.Euclid` | src/boundless_uint.rs:9-12 | the result denotes the Gcd of the two values, in canonical digits |
| `Boundless.Div` | src/boundless_uint.rs:46-52 | for a nonzero divisor, the result denotes the floor quotient of the two values, in canonical digits |
| `Boundless.DivExample` | src/boundless_uint.rs:79-85 | 1224 / 18 is structurally equal to the conversion of 68 |
| `Crack.AttemptCrack` | src/crack.rs:18-44 | None exactly when the Gcd of the two values is 1; otherwise the pairs carry the input keys unchanged and in order, both private keys hold the Gcd (> 1), and each other factor times the Gcd gives back its modulus |
| `Crack.CrackSplitsByGcd` | src/crack.rs:29-43 | when Gcd(p*q1, p*q2) is p > 1, the result equals the key pairs with private keys (p, q1) and (p, q2) |
| `Crack.CrackRecoversSharedPrime` | src/crack.rs:10-17 | moduli p*q1 and p*q2, with p, q1, q2 prime and q1 != q2, are cracked into private keys (p, q1) and (p, q2) |
| `Crack.CrackSharedPrimeExample` | src/crack.rs:79-101 | 13*53 and 13*97 give private keys (13, 53) and (13, 97) with their public keys |
| `Crack.CrackNoSharedPrimeExample` | src/crack.rs:103-109 | 13*29 and 53*97 give None |
| `Crack.PrivateKey.Equals` | src/crack.rs:51-55 | private keys that are structurally equal are equal, and equal private keys hold the same two factors as a multiset |
| `Crack.KeyPair.Equals` | src/crack.rs:3-8 | structurally equal key pairs are equal; equal key pairs have identical public moduli and the same private factors as a multiset |
| `Crack.PrivateKeyEqualsIsMultisetEquality` | src/crack.rs:51-55 | two private keys are equal iff their factors are equal as multisets |
| `Crack.PrivateKeyEqualsIsEquivalence` | src/crack.rs:51-57 | private-key equality is reflexive, symmetric and transitive, and ignores the factor order |
| `Crack.KeyPairEqualsIsEquivalence` | src/crack.rs:3-8 | key-pair equality (private keys order-insensitively, public keys exactly) is reflexive, symmetric and transitive |

## Left out

- src/main.rs: reading challenges from files, the pairwise loop over them, sorting and printing. It is orchestration over functions that are not part of this model.
- The library big-number type used by src/math.rs is modelled as `nat`. Its sign and its allocation failures are not modelled.
- Boundless.Euclid and Boundless.Div: the source bodies are `todo!()`, which panics. The model gives the contract the doc comment and the division test call for. The body only computes the specified value. No GCD or long-division algorithm on digits is modelled, because the source has none.
- Boundless.Div: a zero divisor is excluded by a precondition rather than modelled as a panic.
- Crack.AttemptCrack: two keys that both denote 0 are excluded by a precondition. Their Gcd is 0, and dividing by it would panic.
- The parse error's message formatting is not modelled. The error is a datatype carrying the offending character.
- `BoundlessUint` stores each digit in a `u8`. The model types digits as 0 to 9, the only values the two constructors produce.
- Private-exponent derivation, modular inverse, totient, CRT parameters, modular exponentiation and PKCS#1 v1.5 decryption are not modelled. None of them appears in the source files of this model.
- Comparison, subtraction and division with remainder on digit vectors are not modelled. The source does not implement them.
