/**
 * `BoundlessUint` (src/boundless_uint.rs): an unsigned integer stored as its
 * base-10 digits, most significant first. Equality is the derived structural
 * one, on the digit sequences, not on the numbers they denote.
 */
module Boundless {
  import opened Wrappers
  import opened NumberTheory

  /** A decimal digit; the source stores it in a `u8`, but only ever 0 to 9. */
  type Digit = d: nat | d <= 9

  /** Rust's `u32`. */
  type U32 = x: nat | x < 0x1_0000_0000

  datatype BoundlessUint = BoundlessUint(digits: seq<Digit>) {
    /** The number the digits denote. */
    function Value(): nat {
      DigitsValue(digits)
    }
  }

  /** The parse error, naming the offending character. */
  datatype ParseError = NonDigit(c: char)

  function Pow10(k: nat): (r: nat)
    ensures r >= 1
  {
    if k == 0 then 1 else 10 * Pow10(k - 1)
  }

  /** The number that digits denote, read most significant first. */
  function DigitsValue(ds: seq<Digit>): nat {
    if ds == [] then 0 else 10 * DigitsValue(ds[..|ds| - 1]) + ds[|ds| - 1]
  }

  /** No leading zero digit; the number zero is the empty sequence. */
  predicate Canonical(ds: seq<Digit>) {
    ds == [] || ds[0] != 0
  }

  function Reversed<T>(s: seq<T>): (r: seq<T>)
    ensures |r| == |s|
    ensures forall i :: 0 <= i < |s| ==> r[i] == s[|s| - 1 - i]
  {
    if s == [] then [] else Reversed(s[1..]) + [s[0]]
  }

  // ---------------------------------------------------------------------
  // The value of a digit sequence

  lemma Pow10Monotone(i: nat, j: nat)
    requires i <= j
    ensures Pow10(i) <= Pow10(j)
  {}

  lemma ValueAppend(ds: seq<Digit>, d: Digit)
    ensures DigitsValue(ds + [d]) == 10 * DigitsValue(ds) + d
  {
    assert (ds + [d])[..|ds|] == ds;
  }

  /** A digit put in front weighs its place value. */
  lemma {:induction false} ValuePrepend(d: Digit, ds: seq<Digit>)
    ensures DigitsValue([d] + ds) == d * Pow10(|ds|) + DigitsValue(ds)
    decreases |ds|
  {
    if ds != [] {
      var init, last := ds[..|ds| - 1], ds[|ds| - 1];
      assert [d] + ds == ([d] + init) + [last];
      ValueAppend([d] + init, last);
      ValuePrepend(d, init);
      assert 10 * (d * Pow10(|init|)) == d * Pow10(|ds|);
    }
  }

  /** n digits denote a number below 10^n. */
  lemma {:induction false} ValueBelowPow10(ds: seq<Digit>)
    ensures DigitsValue(ds) < Pow10(|ds|)
    decreases |ds|
  {
    if ds != [] {
      ValueBelowPow10(ds[..|ds| - 1]);
    }
  }

  /** A canonical non-empty sequence of n digits denotes at least 10^(n-1). */
  lemma CanonicalLowerBound(ds: seq<Digit>)
    requires Canonical(ds) && ds != []
    ensures DigitsValue(ds) >= Pow10(|ds| - 1)
  {
    assert ds == [ds[0]] + ds[1..];
    ValuePrepend(ds[0], ds[1..]);
    MulAtLeast(Pow10(|ds| - 1), ds[0]);
  }

  /** A leading zero does not change the value, but does change the digits. */
  lemma LeadingZeroKeepsValue(x: BoundlessUint)
    ensures DigitsValue([0] + x.digits) == x.Value()
    ensures BoundlessUint([0] + x.digits) != x
  {
    ValuePrepend(0, x.digits);
    assert |[0] + x.digits| != |x.digits|;
  }

  /** Two canonical sequences are equal exactly when their values are. */
  lemma {:induction false} CanonicalUnique(a: seq<Digit>, b: seq<Digit>)
    requires Canonical(a) && Canonical(b)
    ensures a == b <==> DigitsValue(a) == DigitsValue(b)
    decreases |a|
  {
    if DigitsValue(a) == DigitsValue(b) {
      if a == [] || b == [] {
        if a != [] { CanonicalLowerBound(a); }
        if b != [] { CanonicalLowerBound(b); }
      } else {
        var ia, ib := a[..|a| - 1], b[..|b| - 1];
        DivModUnique(DigitsValue(a), 10, DigitsValue(ia), a[|a| - 1]);
        DivModUnique(DigitsValue(b), 10, DigitsValue(ib), b[|b| - 1]);
        assert Canonical(ia) && Canonical(ib);
        CanonicalUnique(ia, ib);
        assert a == ia + [a[|a| - 1]] && b == ib + [b[|b| - 1]];
      }
    }
  }

  /** The canonical encoding of a number: the digits `From<u32>` produces. */
  function Encode(n: nat): (r: BoundlessUint)
    ensures Canonical(r.digits) && r.Value() == n
    decreases n
  {
    if n == 0 then BoundlessUint([])
    else
      var high := Encode(n / 10).digits;
      ValueAppend(high, n % 10);
      BoundlessUint(high + [n % 10])
  }

  // ---------------------------------------------------------------------
  // Parsing (`FromStr`)

  predicate IsDecimalDigit(c: char) {
    '0' <= c <= '9'
  }

  /**
   * Rust's `char::to_digit(10)`: only the ASCII digits have a value, and
   * adding that value to '0' gives the character back.
   */
  function ToDigit(c: char): (r: Option<Digit>)
    ensures r.Some? <==> IsDecimalDigit(c)
    ensures r.Some? ==> ('0' as int + r.value) as char == c
  {
    if IsDecimalDigit(c) then Some((c as int - '0' as int) as Digit) else None
  }

  /** Index of the first character that is not a decimal digit, or |s| if none. */
  function FirstNonDigit(s: string): (i: nat)
    ensures i <= |s|
    ensures forall j :: 0 <= j < i ==> IsDecimalDigit(s[j])
    ensures i < |s| ==> !IsDecimalDigit(s[i])
  {
    if s == [] || !IsDecimalDigit(s[0]) then 0 else 1 + FirstNonDigit(s[1..])
  }

  /**
   * Parses one digit per character, in order, stopping at the first
   * character that is not a digit. Leading zeros are kept.
   */
  function FromStr(s: string): (r: Result<BoundlessUint, ParseError>)
    ensures r.Success? <==> forall i :: 0 <= i < |s| ==> IsDecimalDigit(s[i])
    ensures r.Success? ==> |r.value.digits| == |s|
    ensures r.Success? ==> forall i :: 0 <= i < |s| ==> r.value.digits[i] == s[i] as int - '0' as int
    ensures r.Failure? ==> FirstNonDigit(s) < |s| && r.error == NonDigit(s[FirstNonDigit(s)])
  {
    if s == [] then Success(BoundlessUint([]))
    else
      match ToDigit(s[0])
      case None => Failure(NonDigit(s[0]))
      case Some(d) =>
        match FromStr(s[1..])
        case Failure(e) => Failure(e)
        case Success(rest) => Success(BoundlessUint([d] + rest.digits))
  }

  lemma FromStrExamples()
    ensures FromStr("53267") == Success(BoundlessUint([5, 3, 2, 6, 7]))
    ensures FromStr("12t65") == Failure(NonDigit('t'))
    ensures FromStr("007") == Success(BoundlessUint([0, 0, 7]))
    ensures FromStr("") == Success(BoundlessUint([]))
  {
    assert FromStr("53267").value.digits == [5, 3, 2, 6, 7];
    assert FromStr("007").value.digits == [0, 0, 7];
    assert FirstNonDigit("12t65") == 2;
  }

  // ---------------------------------------------------------------------
  // Conversion from `u32`

  lemma ReversedAppend<T>(s: seq<T>, x: T)
    ensures Reversed(s + [x]) == [x] + Reversed(s)
  {
    var l, r := Reversed(s + [x]), [x] + Reversed(s);
    forall i | 0 <= i < |l|
      ensures l[i] == r[i]
    {
      if i > 0 {
        assert l[i] == s[|s| - i];
      }
    }
  }

  lemma SplitDigit(v: nat, p: nat)
    ensures v * p == (v / 10) * (10 * p) + (v % 10) * p
  {
    var q, d := v / 10, v % 10;
    assert v == 10 * q + d;
    assert (10 * q + d) * p == q * (10 * p) + d * p;
  }

  /** One pass of the digit-extraction loop keeps the number it accounts for. */
  lemma PushDigit(v: nat, lower: seq<Digit>, digit: Digit)
    requires digit == v % 10
    ensures v * Pow10(|lower|) + DigitsValue(Reversed(lower))
         == (v / 10) * Pow10(|lower| + 1) + DigitsValue(Reversed(lower + [digit]))
  {
    var p, rev := Pow10(|lower|), Reversed(lower);
    ReversedAppend(lower, digit);
    ValuePrepend(digit, rev);
    SplitDigit(v, p);
  }

  /** A number below 2^32 has at most ten canonical digits. */
  lemma U32DigitCount(ds: seq<Digit>)
    requires Canonical(ds) && DigitsValue(ds) < 0x1_0000_0000
    ensures |ds| <= 10
  {
    if |ds| > 10 {
      CanonicalLowerBound(ds);
      Pow10Monotone(10, |ds| - 1);
    }
  }

  /**
   * Extracts the decimal digits least significant first, then reverses them.
   * Zero gives the empty sequence.
   */
  method FromU32(value: U32) returns (r: BoundlessUint)
    ensures r.Value() == value && Canonical(r.digits)
    ensures r == Encode(value)
    ensures value == 0 <==> r.digits == []
    ensures |r.digits| <= 10
  {
    var v: nat := value;
    var digits: seq<Digit> := [];
    while v > 0
      invariant value == v * Pow10(|digits|) + DigitsValue(Reversed(digits))
      invariant digits == [] ==> v == value
      invariant v == 0 && digits != [] ==> digits[|digits| - 1] != 0
      decreases v
    {
      var digit: Digit := v % 10;
      PushDigit(v, digits, digit);
      v := v / 10;
      digits := digits + [digit];
    }
    assert value == DigitsValue(Reversed(digits));
    digits := Reversed(digits);
    r := BoundlessUint(digits);
    U32DigitCount(digits);
    CanonicalUnique(r.digits, Encode(value).digits);
  }

  lemma EncodeExamples()
    ensures Encode(4567) == BoundlessUint([4, 5, 6, 7])
    ensures Encode(0) == BoundlessUint([])
    ensures Encode(1) == BoundlessUint([1])
  {
    assert 4567 / 10 == 456 && 4567 % 10 == 7;
    assert 456 / 10 == 45 && 456 % 10 == 6;
    assert 45 / 10 == 4 && 45 % 10 == 5;
    assert 4 / 10 == 0 && 4 % 10 == 4;
    assert Encode(4).digits == [4];
    assert Encode(45).digits == [4, 5];
    assert Encode(456).digits == [4, 5, 6];
  }

  // ---------------------------------------------------------------------
  // Operations left as `todo!()` in the source, given by their contracts

  /** Greatest common divisor of the two values, in canonical digits. */
  function Euclid(n1: BoundlessUint, n2: BoundlessUint): (r: BoundlessUint)
    ensures Canonical(r.digits)
    ensures r.Value() == Gcd(n1.Value(), n2.Value())
  {
    Encode(Gcd(n1.Value(), n2.Value()))
  }

  /** Floor division of the two values, in canonical digits. */
  function Div(a: BoundlessUint, b: BoundlessUint): (r: BoundlessUint)
    requires b.Value() != 0
    ensures Canonical(r.digits)
    ensures r.Value() == a.Value() / b.Value()
  {
    DivIsNat(a.Value(), b.Value());
    Encode(a.Value() / b.Value())
  }

  /** The division test: 1224 / 18 is the digits of 68. */
  lemma DivExample()
    ensures Div(Encode(1224), Encode(18)) == Encode(68)
  {
    CanonicalUnique(Div(Encode(1224), Encode(18)).digits, Encode(68).digits);
  }
}
