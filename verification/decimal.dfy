/** The abstract meaning of a most-significant-first decimal digit sequence,
    its canonical form, and the decimal characters that spell it. */
module Decimal {

  function Pow10(n: nat): (r: nat)
    ensures r >= 1
  {
    if n == 0 then 1 else 10 * Pow10(n - 1)
  }

  function Max(a: nat, b: nat): nat {
    if a < b then b else a
  }

  /** A flag as the number it adds: a set bit, a carry or a borrow is 1. */
  function BitValue(b: bool): nat {
    if b then 1 else 0
  }

  /** Every entry is a decimal digit. */
  predicate IsDigits(ds: seq<nat>) {
    forall i :: 0 <= i < |ds| ==> ds[i] <= 9
  }

  /** value(ds) = sum of ds[i] * 10^(|ds|-1-i), unfolded from the least
      significant end, the end every carry and borrow loop starts from. */
  function Value(ds: seq<nat>): nat {
    if |ds| == 0 then 0 else 10 * Value(ds[..|ds| - 1]) + ds[|ds| - 1]
  }

  /** A digit sequence has n digits' worth of room. */
  lemma {:induction false} ValueBound(ds: seq<nat>)
    requires IsDigits(ds)
    ensures Value(ds) < Pow10(|ds|)
  {
    if |ds| > 0 {
      ValueBound(ds[..|ds| - 1]);
    }
  }

  /** The same value, unfolded from the most significant end. */
  lemma {:induction false} ValueLeading(ds: seq<nat>)
    requires |ds| >= 1
    ensures Value(ds) == ds[0] * Pow10(|ds| - 1) + Value(ds[1..])
  {
    var n := |ds|;
    if n == 1 {
      assert ds[..0] == [];
      assert ds[1..] == [];
    } else {
      var p, q := ds[..n - 1], ds[1..];
      ValueLeading(p);
      assert p[1..] == q[..n - 2];
      assert Value(q) == 10 * Value(p[1..]) + ds[n - 1];
      LeadingStep(ds[0], Pow10(n - 2), Value(p[1..]), ds[n - 1]);
    }
  }

  /** The arithmetic of one step of `ValueLeading`. */
  lemma LeadingStep(d: nat, p: nat, v: nat, last: nat)
    ensures 10 * (d * p + v) + last == d * (10 * p) + (10 * v + last)
  {
  }

  /** Appending a digit on the right multiplies the value by ten and adds it. */
  lemma AppendDigit(ds: seq<nat>, d: nat)
    ensures Value(ds + [d]) == 10 * Value(ds) + d
  {
    assert (ds + [d])[..|ds|] == ds;
  }

  /** A digit sequence with at least two digits has no leading zero exactly
      when its value reaches 10^(n-1). */
  lemma LeadingNonZero(ds: seq<nat>)
    requires IsDigits(ds) && |ds| >= 1
    ensures ds[0] != 0 <==> Pow10(|ds| - 1) <= Value(ds)
  {
    var p := Pow10(|ds| - 1);
    ValueLeading(ds);
    ValueBound(ds[1..]);
    assert Value(ds) == ds[0] * p + Value(ds[1..]);
    if ds[0] != 0 {
      MulMonotone(ds[0], p);
    } else {
      assert ds[0] * p == 0;
    }
  }

  lemma {:induction false} Pow10Monotone(a: nat, b: nat)
    requires a <= b
    ensures Pow10(a) <= Pow10(b)
    decreases b
  {
    if a < b {
      Pow10Monotone(a, b - 1);
    }
  }

  lemma MulMonotone(d: nat, p: nat)
    requires d >= 1
    ensures d * p >= p
  {
  }

  /** The canonical spelling: at least one digit and no superfluous leading
      zero, so zero is spelled with the single digit 0. */
  predicate Canonical(ds: seq<nat>) {
    IsDigits(ds) && |ds| >= 1 && (|ds| == 1 || ds[0] != 0)
  }

  /** The canonical digits of n, the ones `u8::to_string` and any standard
      decimal rendering produce. */
  function DigitsOf(n: nat): (ds: seq<nat>)
    ensures Canonical(ds)
    ensures Value(ds) == n
  {
    if n < 10 then [n]
    else
      var p := DigitsOf(n / 10);
      AppendDigit(p, n % 10);
      p + [n % 10]
  }

  /** Canonical digits are determined by their value. */
  lemma {:induction false} CanonicalUnique(ds: seq<nat>)
    requires Canonical(ds)
    ensures ds == DigitsOf(Value(ds))
  {
    var n := Value(ds);
    if |ds| == 1 {
      assert ds[..0] == [];
    } else {
      var p := ds[..|ds| - 1];
      var d := ds[|ds| - 1];
      LeadingNonZero(ds);
      assert Pow10(|ds| - 1) >= 10 by {
        assert Pow10(|ds| - 1) == 10 * Pow10(|ds| - 2);
      }
      assert n == 10 * Value(p) + d;
      assert n / 10 == Value(p) && n % 10 == d;
      assert Canonical(p) by {
        assert p[0] == ds[0];
      }
      CanonicalUnique(p);
      assert ds == p + [d];
    }
  }

  /** A digit sequence of value zero consists of zeros only. */
  lemma {:induction false} ValueZero(ds: seq<nat>)
    requires Value(ds) == 0
    ensures forall i :: 0 <= i < |ds| ==> ds[i] == 0
  {
    if |ds| > 0 {
      ValueZero(ds[..|ds| - 1]);
      assert forall i :: 0 <= i < |ds| - 1 ==> ds[i] == ds[..|ds| - 1][i];
    }
  }

  // ---- decimal characters ----

  predicate IsDigitChar(ch: char) {
    '0' <= ch <= '9'
  }

  predicate AllDigitChars(s: string) {
    forall i :: 0 <= i < |s| ==> IsDigitChar(s[i])
  }

  /** `char::to_digit(10)`: the digit a character spells, if any. */
  function ToDigit(ch: char): (r: Option)
    ensures r.Some? <==> IsDigitChar(ch)
    ensures r.Some? ==> r.d <= 9 && r.d + '0' as int == ch as int
  {
    if IsDigitChar(ch) then Some(ch as int - '0' as int) else None
  }

  datatype Option = None | Some(d: nat)

  /** The character that spells digit d. */
  function DigitChar(d: nat): (ch: char)
    requires d <= 9
    ensures IsDigitChar(ch)
    ensures ToDigit(ch) == Some(d)
  {
    (d + '0' as int) as char
  }

  /** The characters spelling a digit sequence. */
  function DigitChars(ds: seq<nat>): (s: string)
    requires IsDigits(ds)
    ensures |s| == |ds| && AllDigitChars(s)
  {
    seq(|ds|, i requires 0 <= i < |ds| => DigitChar(ds[i]))
  }

  /** The digits a string of decimal characters spells. */
  function CharDigits(s: string): (ds: seq<nat>)
    requires AllDigitChars(s)
    ensures |ds| == |s| && IsDigits(ds)
    ensures DigitChars(ds) == s
  {
    seq(|s|, i requires 0 <= i < |s| => ToDigit(s[i]).d)
  }

  lemma CharDigitsOfDigitChars(ds: seq<nat>)
    requires IsDigits(ds)
    ensures CharDigits(DigitChars(ds)) == ds
  {
  }

  /** The value a string of decimal characters spells, read from its last
      character. */
  function NumeralValue(s: string): nat
    requires AllDigitChars(s)
  {
    if |s| == 0 then 0 else 10 * NumeralValue(s[..|s| - 1]) + ToDigit(s[|s| - 1]).d
  }

  /** A decimal string is worth what its digits are. */
  lemma {:induction false} NumeralValueDigits(s: string)
    requires AllDigitChars(s)
    ensures NumeralValue(s) == Value(CharDigits(s))
  {
    if |s| > 0 {
      NumeralValueDigits(s[..|s| - 1]);
      assert CharDigits(s)[..|s| - 1] == CharDigits(s[..|s| - 1]);
    }
  }

  /** A decimal string of n characters spells less than 10^n. */
  lemma NumeralBound(s: string)
    requires AllDigitChars(s)
    ensures NumeralValue(s) < Pow10(|s|)
  {
    NumeralValueDigits(s);
    ValueBound(CharDigits(s));
  }

  /** `to_string` on an unsigned integer: its canonical decimal spelling. */
  function DecimalString(n: nat): (s: string)
    ensures |s| >= 1 && AllDigitChars(s)
    ensures NumeralValue(s) == n
  {
    CharDigitsOfDigitChars(DigitsOf(n));
    NumeralValueDigits(DigitChars(DigitsOf(n)));
    DigitChars(DigitsOf(n))
  }
}
