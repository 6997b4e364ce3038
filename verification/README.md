# IntInf in Dafny

This project models the arithmetic engine of IntInf, a small Rust program
(`src/main.rs`). The engine stores a signed integer of any size as a sign
flag and a most-significant-first vector of decimal digits. Each digit is
packed into a four-bit cell (`DigitBits`). The model covers:

- **Digit cells**: `DigitBits::new`, `to_string` and `clone`.
- **Parse, render and clone**: `int_inf::new`, `to_string` and `clone`.
- **Operators**: the `+`, `-` and `*` operators of `int_inf`.

It follows what the code does, not idealised signed arithmetic:

- Addition and subtraction read digits back out of the rendered text, from the right.
  - A `-` reached by that loop makes `unwrap` fail.
  - So adding two negative numbers fails, and so does subtracting with a negative operand.
- Mixed-sign addition subtracts the magnitude of the negative operand from the other one.
- Subtraction keeps the longer operand's length and drops the final borrow.
  - So `-5 + 3` gives `8`, and `123 - 123` gives `000`.
- Multiplication adds the multiplicand to an empty accumulator.
  - A counter starts at `int_inf::new("0")` and is stepped by `int_inf::new("1")`.
  - The loop runs until the counter renders as the multiplier does.

Every property is stated against the abstract value of a digit sequence,
`Value(ds) = sum of ds[i] * 10^(|ds|-1-i)` (`Decimal.Value`).

Modules, one per file:

- `Failures` (`failures.dfy`): the `Result` type. Its two faults stand for the two panics of the source: `unwrap` on a non-digit and the `assert!` of `DigitBits::new`.
- `Decimal` (`decimal.dfy`): digit sequences and their values.
  - Canonical spellings.
  - Digit characters.
- `DigitCells` (`digit_cells.dfy`): the four-bit cell.
- `IntInfs` (`int_inf.dfy`): the number, with parsing, rendering and cloning.
- `Arithmetic` (`arithmetic.dfy`): `+` and `-`.
  - Their carry and borrow loops run over the rendered texts.
  - Lemmas relate the loops to `Value`.
- `Multiplication` (`multiply.dfy`): `*`, as a method with the source's loop, plus the counter and guard lemmas.
- `Scenarios` (`scenarios.dfy`): small concrete cases derived from the general lemmas.

## Model

| member | source | states |
|---|---|---|
| DigitCells.Encode | src/main.rs:13-18 | for a digit up to 9, the cell holds four bits that are the digit's binary digits, most significant first (weights 8, 4, 2, 1), and reading them back gives the digit |
| DigitCells.EncodeDecodes | src/main.rs:14-15 | the bits `(digit >> i) & 1` for i = 3 down to 0 weigh exactly to the digit and decode back to it |
| DigitCells.New | src/main.rs:10-19 | `DigitBits::new` succeeds exactly for values up to 9 and fails its assertion above 9; on success the cell is well formed and decodes to the value |
| DigitCells.DecodeFour | src/main.rs:21-28 | the shift-left-and-or loop turns four bits into 8·b0 + 4·b1 + 2·b2 + b3 |
| DigitCells.DecodeEncodes | src/main.rs:10-30 | every well-formed cell is the cell `new` builds from the digit `to_string` reads, so a cell is determined by its digit |
| DigitCells.ToString | src/main.rs:21-30 | any cell renders as a decimal text worth the `u8` its bits decode to; a well-formed cell renders as the one character of its digit |
| DigitCells.Clone | src/main.rs:33-42 | the bit-by-bit copy equals the original cell |
| IntInfs.ParseChar | src/main.rs:60 | one character converts exactly when it is a decimal digit, giving that digit's cell; otherwise `unwrap` fails |
| IntInfs.ParseDigits | src/main.rs:59-61 | the character loop succeeds exactly when every character is a digit, giving one cell per character in order |
| IntInfs.Parse | src/main.rs:50-67 | `int_inf::new` succeeds exactly on text of the form -?[0-9]*; the sign is set exactly when the text starts with '-'; the digit count is the text length less the '-'; the digits are the characters' digits |
| IntInfs.RenderCells | src/main.rs:76-78 | the cells' texts, concatenated, are decimal characters only, at least one per cell |
| IntInfs.Render | src/main.rs:69-81 | `to_string` always writes text that `int_inf::new` accepts, at least as long as the cell count plus the sign, with a leading '-' exactly when the number is negative |
| IntInfs.RenderValid | src/main.rs:69-81 | `to_string` writes '-' exactly when the number is negative, then one digit character per cell, and nothing else |
| IntInfs.ParseRender | src/main.rs:50-81 | rendering a parsed numeral gives back the text, leading zeros included |
| IntInfs.RenderParse | src/main.rs:50-81 | parsing a number's rendering gives back the same cells and sign |
| IntInfs.Clone | src/main.rs:90-102 | the cell-by-cell copy equals the original, sign included |
| Arithmetic.BackDigit | src/main.rs:126-132 | `next_back` plus `to_digit(10).unwrap()` gives 0 on exhausted text, the digit the last character spells when it is one, and fails on any other character |
| Arithmetic.OperandText | src/main.rs:116-117 | a non-negative operand's rendering is all digit characters, one per cell, and spells its magnitude |
| Arithmetic.AddLoop | src/main.rs:115-151 | the carry loop succeeds exactly when both texts are all digits, and every digit it writes is 0-9 |
| Arithmetic.AddLoopSum | src/main.rs:122-151 | the digits the carry loop writes are worth the two texts' values plus the incoming carry |
| Arithmetic.AddLoopShape | src/main.rs:120-148 | the carry loop writes one digit per position of the longer text, and one more, a 1, for a final carry |
| Arithmetic.AddLoopLength | src/main.rs:120-151 | from a clear carry, the extra leading 1 appears exactly when the sum reaches 10^n, n the longer text's length |
| Arithmetic.AddLoopSymmetric | src/main.rs:122-149 | swapping the two texts leaves the carry loop's outcome unchanged |
| Arithmetic.TrimMinus | src/main.rs:163 | `trim_start_matches('-')` removes a prefix made only of '-' and leaves a suffix that does not start with '-' |
| Arithmetic.ReparseMagnitude | src/main.rs:163-165 | re-parsing a negative number's rendering without its '-' gives its cells with the sign cleared |
| Arithmetic.Add | src/main.rs:104-168 | adding two negative numbers fails, because the loop reads the '-'; every result is well formed and non-negative |
| Arithmetic.AddSameSign | src/main.rs:112-159 | the equal-sign branch fails on negative operands, so the line that sets the sign to negative never takes effect |
| Arithmetic.SubMagnitude | src/main.rs:160-167 | the mixed-sign branch yields only well-formed, non-negative results |
| Arithmetic.AddNonNegative | src/main.rs:104-159 | two non-negative numbers add exactly; the result has the longer operand's length, plus a leading 1 exactly when the sum reaches 10^n |
| Arithmetic.AddCommutes | src/main.rs:104-168 | `a + b` and `b + a` give the same cells and sign (or the same fault) for every pair of operands |
| Arithmetic.AddMixedSigns | src/main.rs:160-167 | with differing signs, `+` is `-` of the non-negative operand and the negative one's magnitude |
| Arithmetic.MixedSignsBranch | src/main.rs:163-165 | the mixed-sign branch equals `-` of the other operand and the negative operand's cells with the sign cleared |
| Arithmetic.SubMagnitudeValue | src/main.rs:163 | that subtraction never fails, keeps the longer operand's length, and gives the non-negative operand's value less the negative one's magnitude, plus 10^n when that is negative |
| Arithmetic.AddMixedSignsValue | src/main.rs:160-163 | with a negative left operand and a non-negative right one, `+` never fails; the result is non-negative and as long as the longer operand; its value is the non-negative operand's value less the negative one's magnitude, plus 10^n when that difference is negative |
| Arithmetic.AddMixedSignsValueRight | src/main.rs:160-165 | the same with the negative operand on the right: `+` never fails, the result is non-negative and as long as the longer operand, and its value is the left operand's value less the right one's magnitude, plus 10^n when that is negative |
| Arithmetic.AddKeepsCanonical | src/main.rs:104-159 | the sum of two non-negative numbers with no leading zero has no leading zero |
| Arithmetic.SubLoop | src/main.rs:179-210 | the borrow loop succeeds exactly when both texts are all digits, writing digits 0-9, one per position of the longer text |
| Arithmetic.SubLoopDifference | src/main.rs:185-208 | the borrow loop's digits are worth the texts' difference less the incoming borrow, or that plus 10^n |
| Arithmetic.SubLoopWraps | src/main.rs:179-211 | from a clear borrow, the difference is exact when the minuend is at least the subtrahend, and 10^n more than it otherwise |
| Arithmetic.Sub | src/main.rs:171-212 | subtraction with a negative operand fails, because the loop reads the '-'; every result is well formed and non-negative |
| Arithmetic.SubNonNegative | src/main.rs:171-212 | for non-negative operands the result keeps exactly the longer operand's length; its value is the exact difference, or 10^n plus it when the subtrahend is larger |
| Multiplication.Counter | src/main.rs:223-226 | the counter after k steps is a well-formed non-negative number whose digits are k's canonical decimal digits |
| Multiplication.RenderCounter | src/main.rs:224 | the counter for k renders as the canonical decimal text of k |
| Multiplication.ParseCounterLiterals | src/main.rs:223-226 | `int_inf::new("0")` and `int_inf::new("1")` are the counters for 0 and 1 |
| Multiplication.CounterLiterals | src/main.rs:223-226 | the loop's start and step values are the counters for 0 and 1 |
| Multiplication.CounterStep | src/main.rs:226 | adding `int_inf::new("1")` to the counter for k gives exactly the counter for k + 1, a carry growing it by a digit when needed |
| Multiplication.Increment | src/main.rs:226 | the counter's update statement moves it from k to k + 1 |
| Multiplication.GuardMatches | src/main.rs:224 | the counter for k renders as the multiplier exactly when the multiplier is non-negative and spelled with k's canonical digits |
| Multiplication.GuardStops | src/main.rs:224 | for a non-negative, canonically spelled multiplier, the guard stops exactly at the multiplier's value |
| Multiplication.GuardNeverMatches | src/main.rs:224 | a negative multiplier, or one with a leading zero or no digits, never renders as any counter, so the loop never ends |
| Multiplication.Reached | src/main.rs:224 | the guard's comparison of renderings answers whether the counter has reached the multiplier's value |
| Multiplication.AccumulationIsProduct | src/main.rs:224-227 | for a non-negative multiplicand, adding it k times to an empty accumulator gives its magnitude times k |
| Multiplication.AccumulationWraps | src/main.rs:224-227 | for a negative multiplicand with m digits, the accumulator stays below 10^m; with k copies of the magnitude added back it is a whole multiple of 10^m, so it holds -k·x modulo 10^m |
| Multiplication.Accumulate | src/main.rs:225 | `result + self.clone()` keeps the accumulator in step with k + 1 passes |
| Multiplication.AccumulateStep | src/main.rs:225 | the addition of one pass never fails and advances the accumulator's value, sign and length by one pass |
| Multiplication.AccumulateNegative | src/main.rs:225 | with a negative multiplicand a pass goes through mixed-sign addition: it subtracts the magnitude modulo 10^m and keeps m digits |
| Multiplication.Start | src/main.rs:218-224 | before the loop, the accumulator is empty, the counter is at 0 and the guard has been evaluated once |
| Multiplication.Pass | src/main.rs:224-227 | one pass of the loop keeps the accumulator, the counter and the guard in step, moving from k to k + 1 |
| Multiplication.Mul | src/main.rs:215-230 | for a reachable multiplier of value n, the result is non-negative and well formed; for a non-negative multiplicand its value is the product; for a negative one it is the wrapped accumulation, with as many digits as the multiplicand; for n = 0 it has no digits, so it renders as "" |
| Scenarios.MixedSignAddWraps | src/main.rs:160-167 | -5 + 3 gives the one-digit, non-negative 8 |
| Scenarios.SubKeepsLeadingZeros | src/main.rs:179-211 | n - n keeps every digit position of n and zeroes each one |
| Scenarios.CarryAddsDigit | src/main.rs:134-148 | 9 + 1 gives the two digits 1 and 0 |

## Left out

- The `bitvec` crate: a cell's bit vector is a plain `seq<bool>`, first bit first.
- `Display::fmt` (src/main.rs:84-88), `main` and its printing (src/main.rs:233-251): output only.
- Panics: the failed `assert!` in `DigitBits::new` and every failed `unwrap` are `Failure` results. The model does not distinguish a panic's message or its abort.
- Multiplication.Mul: requires a non-negative multiplier with no leading zero and at least one digit. Any other multiplier never stops the loop in the source (`GuardNeverMatches`), and a method must terminate. Its running time is not modelled.
- Multiplication.Mul: the value for a negative multiplicand is stated through the accumulation `Accumulation`, and `AccumulationWraps` characterises it modulo 10^m. It is not given as a closed formula.
- Rust's `str::len` counts bytes. Every character these loops see is ASCII, so the model uses the character count.
- Integer widths: the cell decoder's `u8` shift is modelled (`Decode` drops the top bit). The loops' `u8` and `i8` sums stay within -10..19, so they cannot overflow and are kept as unbounded integers.
