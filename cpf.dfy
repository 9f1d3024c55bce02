/** The Brazilian CPF check-digit rule (mod 11) on an unformatted string of
    eleven decimal digits: the tenth digit checks the first nine, the
    eleventh checks the first ten. */
module Cpf {

  predicate IsDigit(c: char) {
    '0' <= c <= '9'
  }

  predicate AllDigits(s: string) {
    forall i :: 0 <= i < |s| ==> IsDigit(s[i])
  }

  function DigitValue(c: char): (v: int)
    requires IsDigit(c)
    ensures 0 <= v <= 9
  {
    c as int - '0' as int
  }

  /** Sum of the digits of s weighted, from the left, by top, top - 1, ...;
      so the rightmost digit gets weight top - |s| + 1. */
  function WeightedSum(s: string, top: int): int
    requires AllDigits(s)
  {
    if s == [] then 0 else DigitValue(s[0]) * top + WeightedSum(s[1..], top - 1)
  }

  /** The check digit that completes a weighted sum: the remainder's
      complement to 11, or 0 where that complement would be 10 or 11. */
  function CheckDigit(sum: int): (d: int)
    ensures 0 <= d <= 9
    ensures sum % 11 >= 2 ==> (sum + d) % 11 == 0
    ensures sum % 11 < 2 <==> d == 0
  {
    var r := sum % 11;
    if r < 2 then 0 else 11 - r
  }

  /** Eleven digits whose two trailing check digits agree with the rule. */
  predicate CheckDigitsHold(s: string) {
    && |s| == 11
    && AllDigits(s)
    && DigitValue(s[9]) == CheckDigit(WeightedSum(s[..9], 10))
    && DigitValue(s[10]) == CheckDigit(WeightedSum(s[..10], 11))
  }

  /** The CPF of the controller test's fixture, which the API creates. */
  const Fixture: string := "62492922090"

  /** The CPF that the service test puts into its mocked repository. */
  const ServiceTestCpf: string := "12345678901"

  /** "62492922090" passes the check: its weighted sums are 244 and 298. */
  lemma FixtureIsValid()
    ensures CheckDigitsHold(Fixture)
  {
    var s := Fixture;
    assert AllDigits(s);
    assert WeightedSum(s[..9], 10) == 244 by {
      WeightedSumOfLiteral(s[..9], 10, [6, 2, 4, 9, 2, 9, 2, 2, 0]);
    }
    assert WeightedSum(s[..10], 11) == 298 by {
      WeightedSumOfLiteral(s[..10], 11, [6, 2, 4, 9, 2, 9, 2, 2, 0, 9]);
    }
  }

  /** "12345678901" fails the check: its second check digit should be 9.
      The service test can use it only because the service itself does no
      field validation. */
  lemma ServiceTestCpfIsInvalid()
    ensures !CheckDigitsHold(ServiceTestCpf)
  {
    var s := ServiceTestCpf;
    assert AllDigits(s);
    assert WeightedSum(s[..10], 11) == 255 by {
      WeightedSumOfLiteral(s[..10], 11, [1, 2, 3, 4, 5, 6, 7, 8, 9, 0]);
    }
  }

  /** Eleven zeros satisfy the check-digit rule: every weighted sum is 0,
      whose check digit is 0. Refusing such a string takes a rule beyond
      the check digits. */
  lemma ZerosSatisfyCheckDigits()
    ensures CheckDigitsHold("00000000000")
  {
    var s := "00000000000";
    assert AllDigits(s);
    WeightedSumOfLiteral(s[..9], 10, [0, 0, 0, 0, 0, 0, 0, 0, 0]);
    WeightedSumOfLiteral(s[..10], 11, [0, 0, 0, 0, 0, 0, 0, 0, 0, 0]);
  }

  /** The weighted sum of a digit string, given its digit values. */
  function Weighted(ds: seq<int>, top: int): int {
    if ds == [] then 0 else ds[0] * top + Weighted(ds[1..], top - 1)
  }

  lemma {:induction false} WeightedSumOfLiteral(s: string, top: int, ds: seq<int>)
    requires AllDigits(s) && |ds| == |s|
    requires forall i :: 0 <= i < |s| ==> DigitValue(s[i]) == ds[i]
    ensures WeightedSum(s, top) == Weighted(ds, top)
  {
    if s != [] {
      WeightedSumOfLiteral(s[1..], top - 1, ds[1..]);
    }
  }
}
