/**
 * The Common Factor Attack on two RSA moduli (src/crack.rs): their greatest
 * common divisor, when it is not 1, is a prime both share, and dividing each
 * modulus by it gives the other prime.
 */
module Crack {
  import opened Wrappers
  import opened NumberTheory
  import opened Boundless

  /**
   * The two primes of an RSA private key. Which one comes first is of no
   * consequence: equality ignores the order.
   */
  datatype PrivateKey = PrivateKey(0: BoundlessUint, 1: BoundlessUint) {
    /**
     * `PartialEq for PrivateKey`: equal factors in either order. Structurally
     * equal keys are equal, and equal keys hold the same factors.
     */
    predicate Equals(other: PrivateKey): (b: bool)
      ensures this == other ==> b
      ensures b ==> multiset{this.0, this.1} == multiset{other.0, other.1}
    {
      (this.0 == other.0 && this.1 == other.1) || (this.0 == other.1 && this.1 == other.0)
    }
  }

  /** A public modulus with the private key recovered for it. */
  datatype KeyPair = KeyPair(private: PrivateKey, public: BoundlessUint) {
    /**
     * The derived `PartialEq`, field by field, using `PrivateKey::eq`: the
     * public moduli must be identical, the private factors only as a multiset.
     */
    predicate Equals(other: KeyPair): (b: bool)
      ensures this == other ==> b
      ensures b ==> public == other.public
      ensures b ==> multiset{private.0, private.1} == multiset{other.private.0, other.private.1}
    {
      private.Equals(other.private) && public == other.public
    }
  }

  /** `PrivateKey` equality is equality of the two factors as a multiset. */
  lemma PrivateKeyEqualsIsMultisetEquality(x: PrivateKey, y: PrivateKey)
    ensures x.Equals(y) <==> multiset{x.0, x.1} == multiset{y.0, y.1}
  {
    if multiset{x.0, x.1} == multiset{y.0, y.1} {
      assert x.0 in multiset{y.0, y.1};
      if x.0 == y.0 {
        assert multiset{x.1} == multiset{x.0, x.1} - multiset{x.0};
        assert multiset{y.1} == multiset{y.0, y.1} - multiset{y.0};
      } else {
        assert multiset{x.1} == multiset{x.0, x.1} - multiset{x.0};
        assert multiset{y.0} == multiset{y.0, y.1} - multiset{y.1};
      }
    }
  }

  /** `PrivateKey` equality is an equivalence relation that ignores the factor order. */
  lemma PrivateKeyEqualsIsEquivalence(x: PrivateKey, y: PrivateKey, z: PrivateKey)
    ensures x.Equals(x)
    ensures x.Equals(y) ==> y.Equals(x)
    ensures x.Equals(y) && y.Equals(z) ==> x.Equals(z)
    ensures x.Equals(PrivateKey(x.1, x.0))
  {}

  /** `KeyPair` equality is an equivalence relation. */
  lemma KeyPairEqualsIsEquivalence(a: KeyPair, b: KeyPair, c: KeyPair)
    ensures a.Equals(a)
    ensures a.Equals(b) ==> b.Equals(a)
    ensures a.Equals(b) && b.Equals(c) ==> a.Equals(c)
  {
    PrivateKeyEqualsIsEquivalence(a.private, b.private, c.private);
  }

  /**
   * Attempts to crack two RSA moduli. Gives None when their Gcd is 1;
   * otherwise pairs each modulus with the Gcd and the modulus divided by it.
   * Both moduli of value 0 would make the division panic.
   */
  function AttemptCrack(publicKey1: BoundlessUint, publicKey2: BoundlessUint): (r: Option<(KeyPair, KeyPair)>)
    requires publicKey1.Value() != 0 || publicKey2.Value() != 0
    ensures r.None? <==> Gcd(publicKey1.Value(), publicKey2.Value()) == 1
    ensures r.Some? ==> r.value.0.public == publicKey1 && r.value.1.public == publicKey2
    ensures r.Some? ==>
      var g := Gcd(publicKey1.Value(), publicKey2.Value());
      && g > 1
      && r.value.0.private.0.Value() == g && r.value.1.private.0.Value() == g
      && r.value.0.private.1.Value() * g == publicKey1.Value()
      && r.value.1.private.1.Value() * g == publicKey2.Value()
  {
    var gcd := Euclid(publicKey1, publicKey2);
    CanonicalUnique(gcd.digits, Encode(1).digits);
    GcdPositive(publicKey1.Value(), publicKey2.Value());
    if gcd == Encode(1) then
      None
    else
      var shared := gcd;
      GcdDividesBoth(publicKey1.Value(), publicKey2.Value());
      DivMulCancel(shared.Value(), publicKey1.Value());
      DivMulCancel(shared.Value(), publicKey2.Value());
      var left := Div(publicKey1, shared);
      var right := Div(publicKey2, shared);
      Some((
        KeyPair(PrivateKey(shared, left), publicKey1),
        KeyPair(PrivateKey(shared, right), publicKey2)
      ))
  }

  /**
   * When the Gcd of the moduli p*q1 and p*q2 is p > 1, the crack succeeds
   * with private keys (p, q1) and (p, q2).
   */
  lemma CrackSplitsByGcd(publicKey1: BoundlessUint, publicKey2: BoundlessUint, p: nat, q1: nat, q2: nat)
    requires p > 1 && publicKey1.Value() == p * q1 && publicKey2.Value() == p * q2
    requires Gcd(p * q1, p * q2) == p
    ensures publicKey1.Value() != 0 || publicKey2.Value() != 0
    ensures
      var r := AttemptCrack(publicKey1, publicKey2);
      && r.Some?
      && r.value.0.Equals(KeyPair(PrivateKey(Encode(p), Encode(q1)), publicKey1))
      && r.value.1.Equals(KeyPair(PrivateKey(Encode(p), Encode(q2)), publicKey2))
  {
    GcdPositive(p * q1, p * q2);
    var r := AttemptCrack(publicKey1, publicKey2);
    var k1, k2 := r.value.0.private, r.value.1.private;
    DivModUnique(p * q1, p, q1, 0);
    DivModUnique(p * q2, p, q2, 0);
    CanonicalUnique(k1.0.digits, Encode(p).digits);
    CanonicalUnique(k1.1.digits, Encode(q1).digits);
    CanonicalUnique(k2.1.digits, Encode(q2).digits);
  }

  /**
   * When the moduli are p*q1 and p*q2 with q1 and q2 distinct primes, the
   * crack succeeds and recovers each private key, in either factor order.
   */
  lemma CrackRecoversSharedPrime(publicKey1: BoundlessUint, publicKey2: BoundlessUint, p: nat, q1: nat, q2: nat)
    requires IsPrime(p) && IsPrime(q1) && IsPrime(q2) && q1 != q2
    requires publicKey1.Value() == p * q1 && publicKey2.Value() == p * q2
    ensures publicKey1.Value() != 0 || publicKey2.Value() != 0
    ensures
      var r := AttemptCrack(publicKey1, publicKey2);
      && r.Some?
      && r.value.0.Equals(KeyPair(PrivateKey(Encode(p), Encode(q1)), publicKey1))
      && r.value.1.Equals(KeyPair(PrivateKey(Encode(p), Encode(q2)), publicKey2))
  {
    SharedPrimeIsGcd(p, q1, q2);
    CrackSplitsByGcd(publicKey1, publicKey2, p, q1, q2);
  }

  /** The first crack test: 13*53 and 13*97 share the prime 13. */
  lemma CrackSharedPrimeExample()
    ensures
      var r := AttemptCrack(Encode(13 * 53), Encode(13 * 97));
      && r.Some?
      && r.value.0.Equals(KeyPair(PrivateKey(Encode(13), Encode(53)), Encode(13 * 53)))
      && r.value.1.Equals(KeyPair(PrivateKey(Encode(13), Encode(97)), Encode(13 * 97)))
  {
    assert Gcd(689, 1261) == 13;
    CrackSplitsByGcd(Encode(13 * 53), Encode(13 * 97), 13, 53, 97);
  }

  /** The second crack test: 13*29 and 53*97 share no prime. */
  lemma CrackNoSharedPrimeExample()
    ensures AttemptCrack(Encode(13 * 29), Encode(53 * 97)) == None
  {
    assert Gcd(377, 5141) == 1;
  }
}
