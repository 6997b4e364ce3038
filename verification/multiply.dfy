/** The `Mul` operator of `int_inf`: repeated addition, counting with an
    `int_inf` counter until the counter renders as the multiplier does. */
module Multiplication {
  import opened Failures
  import opened Decimal
  import opened IntInfs
  import opened Arithmetic

  /** The counter after k additions of `int_inf::new("1")`. */
  function Counter(k: nat): (c: IntInf)
    ensures Valid(c) && !c.negative && DigitValues(c) == DigitsOf(k)
  {
    FromDigits(DigitsOf(k), false);
    IntInf(Cells(DigitsOf(k)), false)
  }

  /** The counter renders as the canonical decimal of its count. */
  lemma RenderCounter(k: nat)
    ensures Render(Counter(k)) == DecimalString(k)
  {
    RenderValid(Counter(k));
  }

  /** Parsing the canonical decimal of k builds the counter for k; in
      particular `int_inf::new("0")` and `int_inf::new("1")`. */
  lemma ParseDecimal(k: nat)
    ensures Parse(DecimalString(k)) == Success(Counter(k))
  {
    RenderCounter(k);
    RenderParse(Counter(k));
  }

  /** One step of the counter: adding one to the counter for k gives the
      counter for k + 1, a carry growing it by a digit when k + 1 is a power
      of ten. */
  lemma CounterStep(k: nat)
    ensures Add(Counter(k), Counter(1)) == Success(Counter(k + 1))
  {
    var c, one := Counter(k), Counter(1);
    AddNonNegative(c, one);
    AddKeepsCanonical(c, one);
    var next := Add(c, one).value;
    CanonicalUnique(DigitValues(next));
    CellsOfDigitValues(next);
  }

  /** The loop guard of `Mul`: the counter for k renders as the multiplier
      exactly when the multiplier is non-negative and spells k canonically. */
  lemma GuardMatches(b: IntInf, k: nat)
    requires Valid(b)
    ensures Render(Counter(k)) == Render(b) <==> !b.negative && DigitValues(b) == DigitsOf(k)
  {
    RenderCounter(k);
    RenderValid(b);
    var s := DecimalString(k);
    if b.negative {
      assert Render(b)[0] == '-';
      assert IsDigitChar(s[0]);
    } else if Render(b) == s {
      CharDigitsOfDigitChars(DigitValues(b));
      CharDigitsOfDigitChars(DigitsOf(k));
    }
  }

  /** For a multiplier the counter can reach, the guard stops the loop
      exactly at the multiplier's value. */
  lemma GuardStops(b: IntInf, k: nat)
    requires Valid(b) && !b.negative && Canonical(DigitValues(b))
    ensures Render(Counter(k)) == Render(b) <==> k == Magnitude(b)
  {
    GuardMatches(b, k);
    CanonicalUnique(DigitValues(b));
  }

  /** A negative multiplier, or one with a leading zero or no digit at all,
      never renders as any counter: `Mul` then loops forever. */
  lemma GuardNeverMatches(b: IntInf)
    requires Valid(b)
    requires b.negative || !Canonical(DigitValues(b))
    ensures forall k: nat :: Render(Counter(k)) != Render(b)
  {
    forall k: nat
      ensures Render(Counter(k)) != Render(b)
    {
      GuardMatches(b, k);
    }
  }

  /** `int_inf::new("0")` and `int_inf::new("1")` are the counters for 0
      and 1. */
  lemma ParseCounterLiterals()
    ensures Parse("0") == Success(Counter(0))
    ensures Parse("1") == Success(Counter(1))
  {
    assert DecimalString(0) == "0" by {
      assert DigitsOf(0) == [0];
    }
    assert DecimalString(1) == "1" by {
      assert DigitsOf(1) == [1];
    }
    ParseDecimal(0);
    ParseDecimal(1);
  }

  /** `int_inf::new("0")` and `int_inf::new("1")`, the counter's start and
      step. */
  method CounterLiterals() returns (zero: IntInf, one: IntInf)
    ensures zero == Counter(0) && one == Counter(1)
  {
    ParseCounterLiterals();
    zero := Parse("0").value;
    one := Parse("1").value;
  }

  /** The accumulator's value after k passes of `Mul`'s loop body, for a
      multiplicand of magnitude x, sign `negative` and m digits. A
      non-negative multiplicand adds x on every pass; a negative one goes
      through the mixed-sign branch of `Add` and subtracts x, wrapping
      modulo 10^m. */
  function Accumulation(x: nat, negative: bool, m: nat, k: nat): int {
    if k == 0 then 0
    else
      var v := Accumulation(x, negative, m, k - 1);
      if !negative then v + x
      else if v >= x then v - x
      else Pow10(m) + v - x
  }

  /** For a non-negative multiplicand, repeated addition is multiplication. */
  lemma {:induction false} AccumulationIsProduct(x: nat, m: nat, k: nat)
    ensures Accumulation(x, false, m, k) == x * k
  {
    if k > 0 {
      AccumulationIsProduct(x, m, k - 1);
      assert x * (k - 1) + x == x * k;
    }
  }

  /** How many of the first k passes wrapped around 10^m, for a negative
      multiplicand. */
  function Wraps(x: nat, m: nat, k: nat): nat {
    if k == 0 then 0
    else Wraps(x, m, k - 1) + if Accumulation(x, true, m, k - 1) >= x then 0 else 1
  }

  /** For a negative multiplicand of magnitude x < 10^m, the accumulator
      holds -k*x modulo 10^m: a value below 10^m which, with k copies of x
      added back, is a whole multiple of 10^m. */
  lemma {:induction false} AccumulationWraps(x: nat, m: nat, k: nat)
    requires x < Pow10(m)
    ensures var v := Accumulation(x, true, m, k);
            && 0 <= v < Pow10(m)
            && v + k * x == Wraps(x, m, k) * Pow10(m)
  {
    if k > 0 {
      AccumulationWraps(x, m, k - 1);
      var p, c := Pow10(m), Wraps(x, m, k - 1);
      assert k * x == (k - 1) * x + x;
      assert (c + 1) * p == c * p + p;
    }
  }

  /** The accumulator after k passes: a valid non-negative number holding
      the accumulated value; empty before the first pass, and as long as a
      negative multiplicand after it. */
  predicate Accumulated(a: IntInf, r: IntInf, k: nat) {
    && Valid(r) && !r.negative
    && Magnitude(r) == Accumulation(Magnitude(a), a.negative, |a.digits|, k)
    && (k == 0 ==> |r.digits| == 0)
    && (a.negative && k > 0 ==> |r.digits| == |a.digits|)
  }

  /** One pass of the loop body: `result = result + self.clone()`. */
  method Accumulate(a: IntInf, r: IntInf, ghost k: nat) returns (sum: IntInf)
    requires Valid(a) && Accumulated(a, r, k)
    ensures Accumulated(a, sum, k + 1)
  {
    var addend := Clone(a);
    AccumulateStep(a, r, k);
    var result := Add(r, addend);
    sum := result.value;
  }

  /** The addition of one pass keeps the accumulator in step. */
  lemma AccumulateStep(a: IntInf, r: IntInf, k: nat)
    requires Valid(a) && Accumulated(a, r, k)
    ensures Add(r, a).Success? && Accumulated(a, Add(r, a).value, k + 1)
  {
    if a.negative {
      AddCommutes(r, a);
      AccumulateNegative(a, r, k);
    } else {
      AddNonNegative(r, a);
    }
  }

  /** A pass with a negative multiplicand: the mixed-sign branch subtracts
      its magnitude, modulo 10^m. */
  lemma AccumulateNegative(a: IntInf, r: IntInf, k: nat)
    requires Valid(a) && a.negative && Accumulated(a, r, k)
    ensures Add(a, r).Success? && Accumulated(a, Add(a, r).value, k + 1)
  {
    assert Max(|a.digits|, |r.digits|) == |a.digits|;
    AddMixedSignsValue(a, r);
    NegativeAccumulated(a, r, Add(a, r).value, k);
  }

  /** The accumulator after a negative pass, from the facts of mixed-sign
      addition: m digits, and the magnitude subtracted modulo 10^m. */
  lemma NegativeAccumulated(a: IntInf, r: IntInf, sum: IntInf, k: nat)
    requires a.negative && Accumulated(a, r, k)
    requires Valid(sum) && !sum.negative && |sum.digits| == |a.digits|
    requires var x, m := Magnitude(a), |a.digits|;
             Magnitude(sum) == if Magnitude(r) >= x then Magnitude(r) - x else Pow10(m) + Magnitude(r) - x
    ensures Accumulated(a, sum, k + 1)
  {
    NegativePass(Magnitude(a), |a.digits|, k, Magnitude(r), Magnitude(sum));
  }

  /** The value side of a negative pass: subtracting x from the value after
      k passes, wrapping below zero, is the value after k + 1. */
  lemma NegativePass(x: nat, m: nat, k: nat, v: int, w: int)
    requires v == Accumulation(x, true, m, k)
    requires w == if v >= x then v - x else Pow10(m) + v - x
    ensures w == Accumulation(x, true, m, k + 1)
  {
  }

  /** The counter's step in the loop body: `counter = counter + one`. */
  method Increment(counter: IntInf, one: IntInf, ghost k: nat) returns (next: IntInf)
    requires counter == Counter(k) && one == Counter(1)
    ensures next == Counter(k + 1)
  {
    CounterStep(k);
    var result := Add(counter, one);
    next := result.value;
  }

  /** The loop guard of `Mul`, `counter.to_string() != other.to_string()`
      negated: whether the counter has reached the multiplier. */
  method Reached(counter: IntInf, b: IntInf, ghost k: nat) returns (stop: bool)
    requires Valid(b) && !b.negative && Canonical(DigitValues(b))
    requires counter == Counter(k)
    ensures stop <==> k == Magnitude(b)
  {
    GuardStops(b, k);
    stop := Render(counter) == Render(b);
  }

  /** The state of `Mul`'s loop after k passes: the accumulator in step,
      the counter at k and the guard's answer for it. */
  predicate Looping(a: IntInf, b: IntInf, r: IntInf, counter: IntInf, k: nat, stop: bool) {
    && k <= Magnitude(b) && (stop <==> k == Magnitude(b))
    && Accumulated(a, r, k) && counter == Counter(k)
  }

  /** The set-up before `Mul`'s loop: an empty accumulator, the counter at
      zero, the step one, and the first test of the guard. */
  method Start(a: IntInf, b: IntInf) returns (r: IntInf, counter: IntInf, one: IntInf, stop: bool)
    requires Valid(a) && Valid(b) && !b.negative && Canonical(DigitValues(b))
    ensures Looping(a, b, r, counter, 0, stop) && one == Counter(1)
  {
    r := IntInf([], false);
    counter, one := CounterLiterals();
    stop := Reached(counter, b, 0);
  }

  /** One pass of `Mul`'s loop: add the multiplicand, step the counter and
      test the guard again. */
  method Pass(a: IntInf, b: IntInf, r: IntInf, counter: IntInf, one: IntInf, ghost k: nat)
    returns (r': IntInf, counter': IntInf, stop: bool)
    requires Valid(a) && Valid(b) && !b.negative && Canonical(DigitValues(b))
    requires Looping(a, b, r, counter, k, false) && one == Counter(1)
    ensures Looping(a, b, r', counter', k + 1, stop)
  {
    r' := Accumulate(a, r, k);
    counter' := Increment(counter, one, k);
    stop := Reached(counter', b, k + 1);
  }

  /** `int_inf * int_inf` for a multiplier the counter reaches: adds the
      multiplicand to an empty accumulator as many times as the multiplier
      counts. A non-negative multiplicand gives the product; a negative one
      gives its magnitude's multiple negated modulo 10^m, m its digit
      count, never a negative number. */
  method Mul(a: IntInf, b: IntInf) returns (r: IntInf)
    requires Valid(a) && Valid(b)
    requires !b.negative && Canonical(DigitValues(b))
    ensures Valid(r) && !r.negative
    ensures Magnitude(r) == Accumulation(Magnitude(a), a.negative, |a.digits|, Magnitude(b))
    ensures !a.negative ==> Magnitude(r) == Magnitude(a) * Magnitude(b)
    ensures a.negative && Magnitude(b) > 0 ==> |r.digits| == |a.digits|
    ensures Magnitude(b) == 0 ==> |r.digits| == 0
  {
    var counter, one, stop;
    r, counter, one, stop := Start(a, b);
    ghost var k: nat := 0;
    while !stop
      invariant Looping(a, b, r, counter, k, stop)
      decreases Magnitude(b) - k
    {
      r, counter, stop := Pass(a, b, r, counter, one, k);
      k := k + 1;
    }
    AccumulatedOutcome(a, r, k);
  }

  /** What the accumulator after k passes says about `Mul`'s result. */
  lemma AccumulatedOutcome(a: IntInf, r: IntInf, k: nat)
    requires Accumulated(a, r, k)
    ensures Valid(r) && !r.negative
    ensures Magnitude(r) == Accumulation(Magnitude(a), a.negative, |a.digits|, k)
    ensures !a.negative ==> Magnitude(r) == Magnitude(a) * k
    ensures a.negative && k > 0 ==> |r.digits| == |a.digits|
    ensures k == 0 ==> |r.digits| == 0
  {
    AccumulationIsProduct(Magnitude(a), |a.digits|, k);
  }
}
