/** `int_inf`: a sign flag and a most-significant-first sequence of digit
    cells, with parsing from and rendering to decimal text. No leading zero
    is ever removed. */
module IntInfs {
  import opened Failures
  import opened Decimal
  import DigitCells

  type DigitBits = DigitCells.DigitBits

  datatype IntInf = IntInf(digits: seq<DigitBits>, negative: bool)

  /** Every cell is a valid four-bit digit, as every constructor of the
      engine guarantees. */
  predicate Valid(n: IntInf) {
    forall i :: 0 <= i < |n.digits| ==> DigitCells.Valid(n.digits[i])
  }

  /** The digits the cells decode to. */
  function DigitValues(n: IntInf): (ds: seq<nat>)
    ensures |ds| == |n.digits|
    ensures Valid(n) ==> IsDigits(ds)
  {
    seq(|n.digits|, i requires 0 <= i < |n.digits| => DigitCells.Decode(n.digits[i].bits) as nat)
  }

  /** The unsigned value of the digit sequence, sign ignored. */
  function Magnitude(n: IntInf): nat {
    Value(DigitValues(n))
  }

  /** The cells `DigitBits::new` builds for a digit sequence. */
  function Cells(ds: seq<nat>): (cs: seq<DigitBits>)
    requires IsDigits(ds)
    ensures |cs| == |ds|
    ensures forall i :: 0 <= i < |ds| ==> DigitCells.Valid(cs[i]) && DigitCells.Decode(cs[i].bits) == ds[i]
  {
    seq(|ds|, i requires 0 <= i < |ds| => DigitCells.Encode(ds[i]))
  }

  /** A number built from digit values holds exactly those digits. */
  lemma FromDigits(ds: seq<nat>, negative: bool)
    requires IsDigits(ds)
    ensures Valid(IntInf(Cells(ds), negative))
    ensures DigitValues(IntInf(Cells(ds), negative)) == ds
  {
  }

  /** Valid cells are recovered from their digit values. */
  lemma CellsOfDigitValues(n: IntInf)
    requires Valid(n)
    ensures Cells(DigitValues(n)) == n.digits
  {
    forall i | 0 <= i < |n.digits|
      ensures Cells(DigitValues(n))[i] == n.digits[i]
    {
      DigitCells.DecodeEncodes(n.digits[i]);
    }
  }

  // ---- int_inf::new ----

  predicate HasMinus(s: string) {
    |s| > 0 && s[0] == '-'
  }

  /** The characters after the optional leading '-'. */
  function Unsigned(s: string): string {
    if HasMinus(s) then s[1..] else s
  }

  /** Text of the form -?[0-9]* (the empty string and a lone '-' included). */
  predicate IsNumeral(s: string) {
    AllDigitChars(Unsigned(s))
  }

  /** One character: `DigitBits::new(ch.to_digit(10).unwrap() as u8)`. */
  function ParseChar(ch: char): (r: Result<DigitBits>)
    ensures r.Success? <==> IsDigitChar(ch)
    ensures r.Failure? ==> r.fault == NotADigit
    ensures r.Success? ==> r.value == DigitCells.Encode(ToDigit(ch).d)
  {
    match ToDigit(ch)
    case None => Failure(NotADigit)
    case Some(d) => DigitCells.New(d)
  }

  /** The character loop of `int_inf::new`, left to right. */
  function ParseDigits(s: string): (r: Result<seq<DigitBits>>)
    ensures r.Success? <==> AllDigitChars(s)
    ensures r.Failure? ==> r.fault == NotADigit
    ensures r.Success? ==> r.value == Cells(CharDigits(s))
  {
    if |s| == 0 then Success([])
    else
      var cell :- ParseChar(s[0]);
      var rest :- ParseDigits(s[1..]);
      assert forall i :: 0 <= i < |s| - 1 ==> s[1..][i] == s[i + 1];
      Success([cell] + rest)
  }

  /** `int_inf::new`: a leading '-' sets the sign; every other character must
      be a decimal digit. */
  function Parse(s: string): (r: Result<IntInf>)
    ensures r.Success? <==> IsNumeral(s)
    ensures r.Failure? ==> r.fault == NotADigit
    ensures r.Success? ==> Valid(r.value)
    ensures r.Success? ==> (r.value.negative <==> HasMinus(s))
    ensures r.Success? ==> |r.value.digits| == if HasMinus(s) then |s| - 1 else |s|
    ensures r.Success? ==> DigitValues(r.value) == CharDigits(Unsigned(s))
  {
    var negative := HasMinus(s);
    var digits :- ParseDigits(if negative then s[1..] else s);
    FromDigits(CharDigits(Unsigned(s)), negative);
    Success(IntInf(digits, negative))
  }

  // ---- int_inf::to_string ----

  /** Each cell's `to_string`, concatenated in order: decimal characters
      only, at least one per cell. */
  function RenderCells(cs: seq<DigitBits>): (s: string)
    ensures AllDigitChars(s) && |s| >= |cs|
  {
    if |cs| == 0 then "" else DigitCells.ToString(cs[0]) + RenderCells(cs[1..])
  }

  /** `int_inf::to_string`: '-' when negative, then the cells. Whatever the
      cells hold, the text is one `int_inf::new` accepts, with a leading '-'
      exactly when the number is negative. */
  function Render(n: IntInf): (s: string)
    ensures IsNumeral(s)
    ensures HasMinus(s) <==> n.negative
    ensures |s| >= |n.digits| + (if n.negative then 1 else 0)
  {
    (if n.negative then "-" else "") + RenderCells(n.digits)
  }

  /** Valid cells render one digit character each. */
  lemma {:induction false} RenderCellsValid(n: IntInf)
    requires Valid(n)
    ensures RenderCells(n.digits) == DigitChars(DigitValues(n))
    decreases |n.digits|
  {
    if |n.digits| > 0 {
      var tail := IntInf(n.digits[1..], n.negative);
      RenderCellsValid(tail);
      assert DigitValues(n) == [DigitValues(n)[0]] + DigitValues(tail);
    }
  }

  /** The rendering of a valid number is its sign followed by exactly its
      digit characters, so a non-negative number renders as digits only. */
  lemma RenderValid(n: IntInf)
    requires Valid(n)
    ensures Render(n) == (if n.negative then "-" else "") + DigitChars(DigitValues(n))
    ensures |Render(n)| == |n.digits| + (if n.negative then 1 else 0)
    ensures !n.negative ==> AllDigitChars(Render(n)) && CharDigits(Render(n)) == DigitValues(n)
    ensures n.negative ==> !AllDigitChars(Render(n))
  {
    RenderCellsValid(n);
    if !n.negative {
      CharDigitsOfDigitChars(DigitValues(n));
    } else {
      assert Render(n)[0] == '-';
    }
  }

  /** Parsing then rendering gives back the text, leading zeros included. */
  lemma ParseRender(s: string)
    requires IsNumeral(s)
    ensures Parse(s).Success?
    ensures Render(Parse(s).value) == s
  {
    var n := Parse(s).value;
    RenderValid(n);
    if HasMinus(s) {
      assert s == "-" + Unsigned(s);
    }
  }

  /** Rendering then parsing gives back the number, cells and sign. */
  lemma RenderParse(n: IntInf)
    requires Valid(n)
    ensures Parse(Render(n)) == Success(n)
  {
    var s := Render(n);
    RenderValid(n);
    var ds := DigitValues(n);
    assert Unsigned(s) == DigitChars(ds) by {
      if n.negative {
        assert s == "-" + DigitChars(ds);
      } else if |ds| > 0 {
        assert IsDigitChar(s[0]);
      }
    }
    CharDigitsOfDigitChars(ds);
    CellsOfDigitValues(n);
  }

  /** `int_inf::clone`: copies every cell and the sign. */
  method Clone(n: IntInf) returns (r: IntInf)
    ensures r == n
  {
    var copied: seq<DigitBits> := [];
    var i := 0;
    while i < |n.digits|
      invariant 0 <= i <= |n.digits|
      invariant copied == n.digits[..i]
    {
      var cell := DigitCells.Clone(n.digits[i]);
      copied := copied + [cell];
      i := i + 1;
    }
    assert n.digits[..|n.digits|] == n.digits;
    r := IntInf(copied, n.negative);
  }
}
