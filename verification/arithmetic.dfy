/** The `Add` and `Sub` operators of `int_inf`. Both read their operands
    back out of the rendered text, one character at a time from the right,
    so a '-' in that text is read like any other character and aborts. */
module Arithmetic {
  import opened Failures
  import opened Decimal
  import opened IntInfs

  // ---- reading the rendered text from the right ----

  /** `next_back()` followed by `to_digit(10).unwrap()`; 0 once the text is
      used up. */
  function BackDigit(s: string): (r: Result<nat>)
    ensures r.Success? <==> |s| == 0 || IsDigitChar(s[|s| - 1])
    ensures r.Failure? ==> r.fault == NotADigit
    ensures r.Success? ==> r.value <= 9
    ensures |s| == 0 ==> r == Success(0)
    ensures |s| > 0 && r.Success? ==> DigitChar(r.value) == s[|s| - 1]
  {
    if |s| == 0 then Success(0)
    else match ToDigit(s[|s| - 1])
      case None => Failure(NotADigit)
      case Some(d) => Success(d)
  }

  /** What remains after `next_back()`. */
  function DropBack(s: string): string {
    if |s| == 0 then s else s[..|s| - 1]
  }

  /** The value of a digit text, peeled from the right. */
  lemma NumeralBack(s: string)
    requires AllDigitChars(s)
    ensures AllDigitChars(DropBack(s))
    ensures NumeralValue(s) == 10 * NumeralValue(DropBack(s)) + BackDigit(s).value
  {
  }

  // ---- Add ----

  /** A digit-pair sum with the incoming carry exceeds 9. */
  predicate Carries(d1: nat, d2: nat, carry: bool) {
    d1 + d2 + BitValue(carry) > 9
  }

  /** The digit written for a position: the sum, less 10 when it carries. */
  function SumDigit(d1: nat, d2: nat, carry: bool): nat {
    var sum := d1 + d2 + BitValue(carry);
    if sum > 9 then sum - 10 else sum
  }

  /** The carry loop of `Add` over two rendered operands, least significant
      character first; the result is most significant digit first. After the
      last position a remaining carry becomes a leading 1. */
  function AddLoop(s1: string, s2: string, carry: bool): (r: Result<seq<nat>>)
    ensures r.Success? <==> AllDigitChars(s1) && AllDigitChars(s2)
    ensures r.Failure? ==> r.fault == NotADigit
    ensures r.Success? ==> IsDigits(r.value)
    decreases |s1| + |s2|
  {
    if |s1| == 0 && |s2| == 0 then Success(if carry then [1] else [])
    else
      var d1 :- BackDigit(s1);
      var d2 :- BackDigit(s2);
      var rest :- AddLoop(DropBack(s1), DropBack(s2), Carries(d1, d2, carry));
      Success(rest + [SumDigit(d1, d2, carry)])
  }

  /** `trim_start_matches('-')`: drops the whole run of leading '-' and
      nothing else. */
  function TrimMinus(s: string): (t: string)
    ensures |t| <= |s| && t == s[|s| - |t|..]
    ensures forall i :: 0 <= i < |s| - |t| ==> s[i] == '-'
    ensures |t| > 0 ==> t[0] != '-'
  {
    if |s| > 0 && s[0] == '-' then TrimMinus(s[1..]) else s
  }

  lemma TrimOneMinus(t: string)
    requires |t| == 0 || t[0] != '-'
    ensures TrimMinus("-" + t) == t
  {
    assert ("-" + t)[1..] == t;
  }

  /** `int_inf + int_inf`. Equal signs run the carry loop over both
      renderings; otherwise the magnitude of the negative operand is
      subtracted from the other operand. */
  function Add(a: IntInf, b: IntInf): (r: Result<IntInf>)
    ensures a.negative && b.negative ==> r == Failure(NotADigit)
    ensures r.Success? ==> Valid(r.value) && !r.value.negative
  {
    if a.negative == b.negative then AddSameSign(a, b)
    else if a.negative then SubMagnitude(b, a)
    else SubMagnitude(a, b)
  }

  /** The equal-sign branch of `Add`: the carry loop over both renderings,
      negative only if both operands are (which the loop never lets
      through, since it reads the '-'). */
  function AddSameSign(a: IntInf, b: IntInf): (r: Result<IntInf>)
    ensures a.negative ==> r == Failure(NotADigit)
    ensures r.Success? ==> Valid(r.value) && !r.value.negative
  {
    assert a.negative ==> !AllDigitChars(Render(a)) by {
      if a.negative { assert Render(a)[0] == '-'; }
    }
    var ds :- AddLoop(Render(a), Render(b), false);
    FromDigits(ds, a.negative && b.negative);
    Success(IntInf(Cells(ds), a.negative && b.negative))
  }

  /** The mixed-sign branch of `Add`: `other - int_inf::new(neg rendered,
      leading '-' trimmed)`. */
  function SubMagnitude(other: IntInf, neg: IntInf): (r: Result<IntInf>)
    ensures r.Success? ==> Valid(r.value) && !r.value.negative
  {
    var magnitude :- Parse(TrimMinus(Render(neg)));
    Sub(other, magnitude)
  }

  // ---- Sub ----

  /** A digit-pair difference less the incoming borrow is negative. */
  predicate Borrows(d1: nat, d2: nat, borrow: bool) {
    d1 - d2 - BitValue(borrow) < 0
  }

  /** The digit written for a position: the difference, plus 10 when it
      borrows. */
  function DiffDigit(d1: nat, d2: nat, borrow: bool): nat
    requires d1 <= 9 && d2 <= 9
  {
    var diff := d1 - d2 - BitValue(borrow);
    (if diff < 0 then diff + 10 else diff) as nat
  }

  /** The borrow loop of `Sub` over two rendered operands, least significant
      character first; the result is most significant digit first, and a
      borrow left over after the last position is dropped. */
  function SubLoop(s1: string, s2: string, borrow: bool): (r: Result<seq<nat>>)
    ensures r.Success? <==> AllDigitChars(s1) && AllDigitChars(s2)
    ensures r.Failure? ==> r.fault == NotADigit
    ensures r.Success? ==> IsDigits(r.value) && |r.value| == Max(|s1|, |s2|)
    decreases |s1| + |s2|
  {
    if |s1| == 0 && |s2| == 0 then Success([])
    else
      var d1 :- BackDigit(s1);
      var d2 :- BackDigit(s2);
      var rest :- SubLoop(DropBack(s1), DropBack(s2), Borrows(d1, d2, borrow));
      Success(rest + [DiffDigit(d1, d2, borrow)])
  }

  /** `int_inf - int_inf`: the borrow loop over both renderings; the sign
      flags are never consulted and the result is never negative. */
  function Sub(a: IntInf, b: IntInf): (r: Result<IntInf>)
    ensures a.negative || b.negative ==> r == Failure(NotADigit)
    ensures r.Success? ==> Valid(r.value) && !r.value.negative
  {
    assert a.negative ==> !AllDigitChars(Render(a)) by {
      if a.negative { assert Render(a)[0] == '-'; }
    }
    assert b.negative ==> !AllDigitChars(Render(b)) by {
      if b.negative { assert Render(b)[0] == '-'; }
    }
    var ds :- SubLoop(Render(a), Render(b), false);
    FromDigits(ds, false);
    Success(IntInf(Cells(ds), false))
  }

  // ---- the loops against the abstract value ----

  /** The carry loop adds: its digits spell the sum of the two digit texts
      and the incoming carry. */
  lemma {:induction false} AddLoopSum(s1: string, s2: string, carry: bool)
    requires AllDigitChars(s1) && AllDigitChars(s2)
    ensures AddLoop(s1, s2, carry).Success?
    ensures Value(AddLoop(s1, s2, carry).value)
         == NumeralValue(s1) + NumeralValue(s2) + BitValue(carry)
    decreases |s1| + |s2|
  {
    if |s1| == 0 && |s2| == 0 {
      assert [1][..0] == [];
    } else {
      NumeralBack(s1);
      NumeralBack(s2);
      var t1, t2 := DropBack(s1), DropBack(s2);
      var d1, d2 := BackDigit(s1).value, BackDigit(s2).value;
      var next := Carries(d1, d2, carry);
      AddLoopSum(t1, t2, next);
      var rest := AddLoop(t1, t2, next).value;
      AddLoopStep(s1, s2, carry);
      AppendDigit(rest, SumDigit(d1, d2, carry));
    }
  }

  /** One position of the carry loop over two digit texts. */
  lemma AddLoopStep(s1: string, s2: string, carry: bool)
    requires AllDigitChars(s1) && AllDigitChars(s2)
    requires |s1| > 0 || |s2| > 0
    ensures var d1, d2 := BackDigit(s1).value, BackDigit(s2).value;
            AddLoop(s1, s2, carry)
            == Success(AddLoop(DropBack(s1), DropBack(s2), Carries(d1, d2, carry)).value
                       + [SumDigit(d1, d2, carry)])
  {
    NumeralBack(s1);
    NumeralBack(s2);
  }

  /** The carry loop writes one digit per position of the longer text, and
      one more, a 1, for a final carry. */
  lemma {:induction false} AddLoopShape(s1: string, s2: string, carry: bool)
    requires AllDigitChars(s1) && AllDigitChars(s2)
    ensures var ds := AddLoop(s1, s2, carry).value;
            var m := Max(|s1|, |s2|);
            |ds| == m || (|ds| == m + 1 && ds[0] == 1)
    decreases |s1| + |s2|
  {
    if |s1| > 0 || |s2| > 0 {
      NumeralBack(s1);
      NumeralBack(s2);
      var next := Carries(BackDigit(s1).value, BackDigit(s2).value, carry);
      AddLoopShape(DropBack(s1), DropBack(s2), next);
      AddLoopStep(s1, s2, carry);
    }
  }

  /** The carry loop treats its two operands alike. */
  lemma {:induction false} AddLoopSymmetric(s1: string, s2: string, carry: bool)
    ensures AddLoop(s1, s2, carry) == AddLoop(s2, s1, carry)
    decreases |s1| + |s2|
  {
    if |s1| > 0 || |s2| > 0 {
      AddLoopSymmetric(DropBack(s1), DropBack(s2), carry);
      AddLoopSymmetric(DropBack(s1), DropBack(s2), !carry);
    }
  }

  /** The borrow loop subtracts modulo 10^n, n the longer operand's length:
      exact when the minuend is large enough, otherwise wrapped because the
      last borrow is dropped. */
  lemma {:induction false} SubLoopDifference(s1: string, s2: string, borrow: bool)
    requires AllDigitChars(s1) && AllDigitChars(s2)
    ensures SubLoop(s1, s2, borrow).Success?
    ensures var d := NumeralValue(s1) - NumeralValue(s2) - BitValue(borrow);
            var v := Value(SubLoop(s1, s2, borrow).value);
            v == d || v == Pow10(Max(|s1|, |s2|)) + d
    decreases |s1| + |s2|
  {
    if |s1| == 0 && |s2| == 0 {
      assert Pow10(0) == 1;
    } else {
      NumeralBack(s1);
      NumeralBack(s2);
      var t1, t2 := DropBack(s1), DropBack(s2);
      var d1, d2 := BackDigit(s1).value, BackDigit(s2).value;
      var next := Borrows(d1, d2, borrow);
      SubLoopDifference(t1, t2, next);
      SubLoopStep(s1, s2, borrow);
      var m := Max(|t1|, |t2|);
      assert Max(|s1|, |s2|) == m + 1;
      BorrowCombine(SubLoop(t1, t2, next).value, NumeralValue(s1), NumeralValue(s2),
                    NumeralValue(t1), NumeralValue(t2), d1, d2, borrow, m);
    }
  }

  /** One position of the borrow loop over two digit texts. */
  lemma SubLoopStep(s1: string, s2: string, borrow: bool)
    requires AllDigitChars(s1) && AllDigitChars(s2)
    requires |s1| > 0 || |s2| > 0
    ensures var d1, d2 := BackDigit(s1).value, BackDigit(s2).value;
            SubLoop(s1, s2, borrow)
            == Success(SubLoop(DropBack(s1), DropBack(s2), Borrows(d1, d2, borrow)).value
                       + [DiffDigit(d1, d2, borrow)])
  {
    NumeralBack(s1);
    NumeralBack(s2);
  }

  /** The arithmetic of one borrow position: appending the position's
      digit to the shorter texts' difference, or to that difference plus
      10^m, gives the longer texts' difference, or that plus 10^(m+1). */
  lemma BorrowCombine(rest: seq<nat>, n1: int, n2: int, v1: nat, v2: nat,
                      d1: nat, d2: nat, borrow: bool, m: nat)
    requires d1 <= 9 && d2 <= 9
    requires var x := v1 - v2 - BitValue(Borrows(d1, d2, borrow));
             Value(rest) == x || Value(rest) == Pow10(m) + x
    requires n1 == 10 * v1 + d1 && n2 == 10 * v2 + d2
    ensures var y := n1 - n2 - BitValue(borrow);
            var v := Value(rest + [DiffDigit(d1, d2, borrow)]);
            v == y || v == Pow10(m + 1) + y
  {
    AppendDigit(rest, DiffDigit(d1, d2, borrow));
  }

  // ---- Add and Sub on whole numbers ----

  /** A valid non-negative operand, as the loops read it: its rendering is
      its digit characters and spells its magnitude. */
  lemma OperandText(n: IntInf)
    requires Valid(n) && !n.negative
    ensures AllDigitChars(Render(n)) && |Render(n)| == |n.digits|
    ensures NumeralValue(Render(n)) == Magnitude(n)
  {
    RenderValid(n);
    NumeralValueDigits(Render(n));
  }

  /** Two non-negative numbers add exactly. The result has as many digits as
      the longer operand, plus a leading 1 exactly when the sum needs one
      more digit (a final carry). */
  lemma AddNonNegative(a: IntInf, b: IntInf)
    requires Valid(a) && Valid(b) && !a.negative && !b.negative
    ensures Add(a, b).Success?
    ensures var r := Add(a, b).value;
            var m := Max(|a.digits|, |b.digits|);
            && Valid(r) && !r.negative
            && Magnitude(r) == Magnitude(a) + Magnitude(b)
            && |r.digits| == (if Magnitude(a) + Magnitude(b) >= Pow10(m) then m + 1 else m)
            && (|r.digits| == m + 1 ==> DigitValues(r)[0] == 1)
  {
    OperandText(a);
    OperandText(b);
    var s1, s2 := Render(a), Render(b);
    AddLoopSum(s1, s2, false);
    var ds := AddLoop(s1, s2, false).value;
    FromDigits(ds, false);
    assert Add(a, b) == Success(IntInf(Cells(ds), false));
    var r := IntInf(Cells(ds), false);
    assert DigitValues(r) == ds;
    assert Magnitude(r) == Value(ds) == Magnitude(a) + Magnitude(b);
    AddLoopLength(s1, s2);
    assert Max(|a.digits|, |b.digits|) == Max(|s1|, |s2|);
  }

  /** The carry loop grows by one digit, a 1, exactly when the sum needs it. */
  lemma AddLoopLength(s1: string, s2: string)
    requires AllDigitChars(s1) && AllDigitChars(s2)
    ensures AddLoop(s1, s2, false).Success?
    ensures var ds := AddLoop(s1, s2, false).value;
            var m := Max(|s1|, |s2|);
            && |ds| == (if NumeralValue(s1) + NumeralValue(s2) >= Pow10(m) then m + 1 else m)
            && (|ds| == m + 1 ==> ds[0] == 1)
  {
    AddLoopSum(s1, s2, false);
    AddLoopShape(s1, s2, false);
    var ds := AddLoop(s1, s2, false).value;
    LengthFromValue(ds, Max(|s1|, |s2|));
  }

  /** A digit sequence of length m, or of length m + 1 led by a 1, is the
      longer one exactly when its value reaches 10^m. */
  lemma LengthFromValue(ds: seq<nat>, m: nat)
    requires IsDigits(ds)
    requires |ds| == m || (|ds| == m + 1 && ds[0] == 1)
    ensures |ds| == if Value(ds) >= Pow10(m) then m + 1 else m
  {
    if |ds| == m {
      ValueBound(ds);
    } else {
      LeadingNonZero(ds);
    }
  }

  /** With differing signs, `Add` is `Sub` of the non-negative operand and
      the magnitude of the negative one, whatever their values. */
  lemma AddMixedSigns(a: IntInf, b: IntInf)
    requires Valid(a) && Valid(b) && a.negative != b.negative
    ensures a.negative ==> Add(a, b) == Sub(b, IntInf(a.digits, false))
    ensures b.negative ==> Add(a, b) == Sub(a, IntInf(b.digits, false))
  {
    if a.negative {
      MixedSignsBranch(b, a);
    } else {
      MixedSignsBranch(a, b);
    }
  }

  /** The mixed-sign branch subtracts the negative operand's digits, sign
      cleared, from the other operand. */
  lemma MixedSignsBranch(other: IntInf, neg: IntInf)
    requires Valid(neg) && neg.negative
    ensures SubMagnitude(other, neg) == Sub(other, IntInf(neg.digits, false))
  {
    ReparseMagnitude(neg);
  }

  /** `Add` with differing signs, in full: never an error, never negative,
      as long as the longer operand, and the non-negative operand's value
      less the negative one's magnitude, plus 10^n when that is negative. */
  lemma AddMixedSignsValue(a: IntInf, b: IntInf)
    requires Valid(a) && Valid(b) && a.negative && !b.negative
    ensures Add(a, b).Success?
    ensures var r := Add(a, b).value;
            var m := Max(|a.digits|, |b.digits|);
            && Valid(r) && !r.negative
            && |r.digits| == m
            && Magnitude(r) == if Magnitude(b) >= Magnitude(a)
                               then Magnitude(b) - Magnitude(a)
                               else Pow10(m) + Magnitude(b) - Magnitude(a)
  {
    SubMagnitudeValue(a, b);
    AddMixedSigns(a, b);
  }

  /** The subtraction the mixed-sign branch performs: the non-negative
      operand less the negative one's digits with the sign cleared. */
  lemma SubMagnitudeValue(a: IntInf, b: IntInf)
    requires Valid(a) && Valid(b) && a.negative && !b.negative
    ensures Sub(b, IntInf(a.digits, false)).Success?
    ensures var r := Sub(b, IntInf(a.digits, false)).value;
            var m := Max(|a.digits|, |b.digits|);
            && Valid(r) && !r.negative
            && |r.digits| == m
            && Magnitude(r) == if Magnitude(b) >= Magnitude(a)
                               then Magnitude(b) - Magnitude(a)
                               else Pow10(m) + Magnitude(b) - Magnitude(a)
  {
    var mag := IntInf(a.digits, false);
    assert Magnitude(mag) == Magnitude(a) by {
      assert DigitValues(mag) == DigitValues(a);
    }
    assert Max(|b.digits|, |mag.digits|) == Max(|a.digits|, |b.digits|);
    SubNonNegative(b, mag);
  }

  /** `Add` with differing signs and the negative operand on the right:
      the same outcome, the roles of the operands swapped. */
  lemma AddMixedSignsValueRight(a: IntInf, b: IntInf)
    requires Valid(a) && Valid(b) && !a.negative && b.negative
    ensures Add(a, b).Success?
    ensures var r := Add(a, b).value;
            var m := Max(|a.digits|, |b.digits|);
            && Valid(r) && !r.negative
            && |r.digits| == m
            && Magnitude(r) == if Magnitude(a) >= Magnitude(b)
                               then Magnitude(a) - Magnitude(b)
                               else Pow10(m) + Magnitude(a) - Magnitude(b)
  {
    AddCommutes(a, b);
    AddMixedSignsValue(b, a);
    assert Max(|b.digits|, |a.digits|) == Max(|a.digits|, |b.digits|);
  }

  /** Re-parsing the rendering of a negative number without its '-' gives
      back its digits with a cleared sign. */
  lemma ReparseMagnitude(n: IntInf)
    requires Valid(n) && n.negative
    ensures Parse(TrimMinus(Render(n))) == Success(IntInf(n.digits, false))
  {
    var mag := IntInf(n.digits, false);
    var t := Render(mag);
    assert Render(n) == "-" + t;
    assert |t| == 0 || t[0] != '-' by {
      RenderValid(mag);
      if |t| > 0 {
        assert IsDigitChar(t[0]);
      }
    }
    TrimOneMinus(t);
    RenderParse(mag);
  }

  /** `Add` is commutative on every pair of numbers: the two results are the
      same digits and sign, not just the same value. */
  lemma AddCommutes(a: IntInf, b: IntInf)
    ensures Add(a, b) == Add(b, a)
  {
    AddLoopSymmetric(Render(a), Render(b), false);
  }

  /** `Sub` of two non-negative numbers keeps the longer operand's length,
      leading zeros included, and wraps modulo 10^n when the subtrahend is
      the larger. */
  lemma SubNonNegative(a: IntInf, b: IntInf)
    requires Valid(a) && Valid(b) && !a.negative && !b.negative
    ensures Sub(a, b).Success?
    ensures var r := Sub(a, b).value;
            var m := Max(|a.digits|, |b.digits|);
            && Valid(r) && !r.negative
            && |r.digits| == m
            && Magnitude(r) == if Magnitude(a) >= Magnitude(b)
                               then Magnitude(a) - Magnitude(b)
                               else Pow10(m) + Magnitude(a) - Magnitude(b)
  {
    OperandText(a);
    OperandText(b);
    var s1, s2 := Render(a), Render(b);
    SubLoopWraps(s1, s2);
    var ds := SubLoop(s1, s2, false).value;
    FromDigits(ds, false);
    assert Sub(a, b) == Success(IntInf(Cells(ds), false));
    var r := IntInf(Cells(ds), false);
    assert DigitValues(r) == ds;
  }

  /** The borrow loop from a clear borrow: the difference of the two digit
      texts, or 10^n more than it when it is negative. */
  lemma SubLoopWraps(s1: string, s2: string)
    requires AllDigitChars(s1) && AllDigitChars(s2)
    ensures SubLoop(s1, s2, false).Success?
    ensures var n1, n2 := NumeralValue(s1), NumeralValue(s2);
            Value(SubLoop(s1, s2, false).value)
            == if n1 >= n2 then n1 - n2 else Pow10(Max(|s1|, |s2|)) + n1 - n2
  {
    SubLoopDifference(s1, s2, false);
    var m := Max(|s1|, |s2|);
    ValueBound(SubLoop(s1, s2, false).value);
    NumeralBound(s1);
    NumeralBound(s2);
    Pow10Monotone(|s1|, m);
    Pow10Monotone(|s2|, m);
  }

  /** Adding two canonically spelled non-negative numbers yields a canonical
      spelling: the sum never gains a leading zero. */
  lemma AddKeepsCanonical(a: IntInf, b: IntInf)
    requires Valid(a) && Valid(b) && !a.negative && !b.negative
    requires Canonical(DigitValues(a)) && Canonical(DigitValues(b))
    ensures Add(a, b).Success?
    ensures Canonical(DigitValues(Add(a, b).value))
  {
    AddNonNegative(a, b);
    var r := DigitValues(Add(a, b).value);
    if |r| == Max(|a.digits|, |b.digits|) {
      var longer := if |a.digits| >= |b.digits| then a else b;
      NoNewLeadingZero(DigitValues(longer), r);
    }
  }

  /** A digit sequence as long as a canonical one and at least as large has
      no leading zero either. */
  lemma NoNewLeadingZero(x: seq<nat>, r: seq<nat>)
    requires Canonical(x) && IsDigits(r)
    requires |r| == |x| && Value(r) >= Value(x)
    ensures Canonical(r)
  {
    if |r| >= 2 {
      LeadingNonZero(x);
      LeadingNonZero(r);
    }
  }
}
