/** Concrete runs of the operators on small numbers, stated on values and
    digit counts (a non-negative number renders exactly its digit
    characters, see `RenderValid`), and derived from the general lemmas. */
module Scenarios {
  import opened Failures
  import opened Decimal
  import opened IntInfs
  import opened Arithmetic

  /** -5 + 3: the signs differ, so the engine computes 3 - 5 over one
      digit, drops the final borrow and answers a non-negative 8, one digit
      long. */
  lemma MixedSignAddWraps(a: IntInf, b: IntInf)
    requires Valid(a) && Valid(b) && a.negative && !b.negative
    requires |a.digits| == 1 && Magnitude(a) == 5
    requires |b.digits| == 1 && Magnitude(b) == 3
    ensures Add(a, b).Success?
    ensures !Add(a, b).value.negative
    ensures |Add(a, b).value.digits| == 1 && Magnitude(Add(a, b).value) == 8
  {
    assert Pow10(1) == 10;
    assert Max(|a.digits|, |b.digits|) == 1;
    AddMixedSignsValue(a, b);
  }

  /** n - n keeps every digit position of n and zeroes each one: 123 - 123
      is 000, not 0. */
  lemma SubKeepsLeadingZeros(a: IntInf)
    requires Valid(a) && !a.negative
    ensures Sub(a, a).Success?
    ensures var r := Sub(a, a).value;
            && !r.negative && |r.digits| == |a.digits|
            && forall i :: 0 <= i < |r.digits| ==> DigitValues(r)[i] == 0
  {
    SubNonNegative(a, a);
    ValueZero(DigitValues(Sub(a, a).value));
  }

  /** 9 + 1: the final carry prepends a 1, giving the two digits of 10. */
  lemma CarryAddsDigit(a: IntInf, b: IntInf)
    requires Valid(a) && Valid(b) && !a.negative && !b.negative
    requires |a.digits| == 1 && Magnitude(a) == 9
    requires |b.digits| == 1 && Magnitude(b) == 1
    ensures Add(a, b).Success?
    ensures !Add(a, b).value.negative
    ensures |Add(a, b).value.digits| == 2 && Magnitude(Add(a, b).value) == 10
    ensures DigitValues(Add(a, b).value)[0] == 1
  {
    AddNonNegative(a, b);
    assert Pow10(1) == 10;
  }
}
