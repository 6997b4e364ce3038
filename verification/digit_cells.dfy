/** One decimal digit packed into four bits, most significant bit first
    (`DigitBits` in src/main.rs). */
module DigitCells {
  import opened Failures
  import opened Decimal

  /** Rust's `u8`. */
  type Byte = x: int | 0 <= x < 256

  /** A cell; the bit vector is a plain sequence of bits, index 0 first. */
  datatype DigitBits = DigitBits(bits: seq<bool>)

  /** `digit >> i`. */
  function Shr(digit: nat, i: nat): nat {
    if i == 0 then digit else Shr(digit / 2, i - 1)
  }

  /** Reading a bit vector back into a `u8`: shift the accumulator left and
      OR in each bit, first bit first. Shifting a `u8` left drops its top bit. */
  function Decode(bits: seq<bool>): Byte {
    if |bits| == 0 then 0
    else (Decode(bits[..|bits| - 1]) % 128) * 2 + BitValue(bits[|bits| - 1])
  }

  /** A cell as the engine builds it: four bits spelling a value 0-9. */
  predicate Valid(c: DigitBits) {
    |c.bits| == 4 && Decode(c.bits) <= 9
  }

  /** The encoding loop of `DigitBits::new` once its assertion has passed:
      bit k is bit (3 - k) of the digit. */
  function Encode(digit: nat): (c: DigitBits)
    requires digit <= 9
    ensures Valid(c)
    ensures Decode(c.bits) == digit
    ensures digit == 8 * BitValue(c.bits[0]) + 4 * BitValue(c.bits[1])
                   + 2 * BitValue(c.bits[2]) + BitValue(c.bits[3])
  {
    var c := DigitBits(seq(4, k requires 0 <= k < 4 => Shr(digit, 3 - k) % 2 == 1));
    EncodeDecodes(digit, c);
    c
  }

  /** Four bits decode to their weighted sum, weights 8, 4, 2, 1. */
  lemma DecodeFour(b: seq<bool>)
    requires |b| == 4
    ensures Decode(b) == 8 * BitValue(b[0]) + 4 * BitValue(b[1]) + 2 * BitValue(b[2]) + BitValue(b[3])
  {
    var b1, b2, b3 := b[..1], b[..2], b[..3];
    assert b1[..0] == [] && b2[..1] == b1 && b3[..2] == b2 && b[..3] == b3;
    assert Decode(b1) == BitValue(b[0]);
    assert Decode(b2) == 2 * BitValue(b[0]) + BitValue(b[1]);
    assert Decode(b3) == 4 * BitValue(b[0]) + 2 * BitValue(b[1]) + BitValue(b[2]);
  }

  lemma EncodeDecodes(digit: nat, c: DigitBits)
    requires digit <= 9
    requires c.bits == seq(4, k requires 0 <= k < 4 => Shr(digit, 3 - k) % 2 == 1)
    ensures Decode(c.bits) == digit
    ensures digit == 8 * BitValue(c.bits[0]) + 4 * BitValue(c.bits[1])
                   + 2 * BitValue(c.bits[2]) + BitValue(c.bits[3])
  {
    var b := c.bits;
    DecodeFour(b);
    var x := digit / 2;
    var y := x / 2;
    var z := y / 2;
    assert Shr(digit, 3) == Shr(x, 2) == Shr(y, 1) == z;
    assert Shr(digit, 2) == Shr(x, 1) == y;
    assert Shr(digit, 1) == x;
    assert b[0] == (z % 2 == 1) && b[1] == (y % 2 == 1);
    assert b[2] == (x % 2 == 1) && b[3] == (digit % 2 == 1);
    BinaryDigits(digit, x, y, z);
  }

  /** A value below 10 in binary: its bits, read from the halvings. */
  lemma BinaryDigits(digit: nat, x: nat, y: nat, z: nat)
    requires digit <= 9 && x == digit / 2 && y == x / 2 && z == y / 2
    ensures digit == 8 * (z % 2) + 4 * (y % 2) + 2 * (x % 2) + digit % 2
  {
  }

  /** `DigitBits::new`: the assertion rejects any value above 9. */
  function New(digit: Byte): (r: Result<DigitBits>)
    ensures r.Success? <==> digit <= 9
    ensures r.Failure? ==> r.fault == DigitAbove9
    ensures r.Success? ==> Valid(r.value) && Decode(r.value.bits) == digit
  {
    if digit <= 9 then Success(Encode(digit)) else Failure(DigitAbove9)
  }

  /** A valid cell is the encoding of the digit it decodes to, so a valid
      cell is determined by its digit. */
  lemma {:induction false} DecodeEncodes(c: DigitBits)
    requires Valid(c)
    ensures Encode(Decode(c.bits)) == c
  {
    var b := c.bits;
    DecodeFour(b);
    var d := Decode(b);
    assert d == 8 * BitValue(b[0]) + 4 * BitValue(b[1]) + 2 * BitValue(b[2]) + BitValue(b[3]);
    var e := Encode(d).bits;
    assert 8 * BitValue(e[0]) + 4 * BitValue(e[1]) + 2 * BitValue(e[2]) + BitValue(e[3])
        == 8 * BitValue(b[0]) + 4 * BitValue(b[1]) + 2 * BitValue(b[2]) + BitValue(b[3]);
    assert e == b;
  }

  /** `DigitBits::to_string`: the decimal spelling of the decoded `u8`,
      one character for a well-formed cell. */
  function ToString(c: DigitBits): (s: string)
    ensures |s| >= 1 && AllDigitChars(s) && NumeralValue(s) == Decode(c.bits)
    ensures Valid(c) ==> s == [DigitChar(Decode(c.bits))]
  {
    DecimalString(Decode(c.bits))
  }

  /** `DigitBits::clone`: copies the bits one at a time. */
  method Clone(c: DigitBits) returns (r: DigitBits)
    ensures r == c
  {
    var copied: seq<bool> := [];
    var i := 0;
    while i < |c.bits|
      invariant 0 <= i <= |c.bits|
      invariant copied == c.bits[..i]
    {
      copied := copied + [c.bits[i]];
      i := i + 1;
    }
    assert c.bits[..|c.bits|] == c.bits;
    r := DigitBits(copied);
  }
}
