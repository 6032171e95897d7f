# LN: an arbitrary-precision signed integer, modelled in Dafny

The library is one C++ class, `LN`. An `LN` holds:

- a little-endian base-256 digit buffer `data_`, whose live part is `data_[0..size_)`;
- a sign flag `negative_`;
- a NaN flag `nan_`.

On top of that representation it offers:

- a hex text format: a parser `LN(string_view)` and `print`;
- conversions from and to `long long`, and to `bool`;
- a signed comparison `compare_`, behind the six relational operators;
- magnitude arithmetic:
  - ripple-carry `add_` and ripple-borrow `subtract_`;
  - schoolbook `multiply_slow_` and Karatsuba `multiply_`;
  - long division `divide_`;
- signed operators `+ - * / % -` and a Newton integer square root `operator~`.

The model has three layers.

- **Digits** (`digits.dfy`) defines `Byte`, the value `Val(s)` of a little-endian digit sequence, and the canonical digits `ToDigits(n)`. It also holds the constants `BITS_COUNT_ == 8`, `MAX_VALUE_ == 0xFF`, the base 256 and `size_for_fast_ == 256`, and the lemmas about values that everything else uses.
- **Value-level model.** `Representation`, `Conversions`, `HexCodec`, `Comparator`, `Additive`, `Multiplicative`, `Division` and `Newton` describe one `LN` as the datatype `Num(data, negative, nan)`. Each operation of the class is a function over `Num`.
  - Most follow the code's branches and loops, and lemmas give those functions their arithmetic meaning: compare_'s scan (`Comparator.CompareFrom`), the parser and `print` (`HexCodec`), `remove_zeros_` (`Representation.RemoveZeros`), divide_'s two loops (`LongDivision.Loop`, with compare_'s length ranking and the wrapping uint8_t digit) and operator~'s loop (`Newton.SqrtLoop`).
  - Five are closed forms of what a loop returns, so their meaning is in their bodies: `Additive.Add` (add_), `Additive.Difference` (subtract_'s borrow loop), `Multiplicative.MultiplySlow` (multiply_slow_), `Conversions.FromInt` (`LN(long long)`) and `Conversions.ToInt64` (`operator long long`). Those loops are written out only in the matching `LongNumber.LN` methods, which are proved to return these closed forms.
  - `LoopFacts` and `LongDivision` hold the step lemmas the loops need.
  - `Findings` holds six places where the code departs from what it evidently intends.
- **The class** `LongNumber.LN` has the four fields of the C++ class:
  - `data: array<Byte>`, `size`, `negative`, `nan`;
  - a ghost `Model()` that reads `data[..size]` and the two flags.

  Its methods run the source's loops over those arrays:
  - the parser's fill loop;
  - the shift loop of `LN(long long)`;
  - the carry, borrow and product loops;
  - `remove_zeros_`;
  - the nested division loops;
  - the Newton loop;
  - the comparison scan;
  - the `long long` accumulation;
  - the print loop.

  Each method is proved to return, or leave, exactly the value-level result of its inputs, for every input.

Some terms used below:

- **Normalised.** A digit sequence whose top digit is not zero, or that is empty.
- **Tidy.** Normalised, or exactly `[0]`, which is how `LN(0)` and `create_zero_` store zero.
- **Stored.** Tidy and non-empty.

The code does not keep its numbers normalised:

- the parser keeps leading zero bytes, and `"-0"` gives a negative zero;
- `compare_` ranks two non-negative numbers by stored length first.

So the value properties of `subtract_`, `divide_`, `/`, `%` and `~` are proved for tidy operands. On other operands the code's results are not those values, and the model follows the code: bytes [5, 0, 0] divided by [3] give 21847 (see "## Findings").

## Model

| member | source | states |
|---|---|---|
| LongNumber.LN.constructor | LN.h:10 | the default LN is zero: one zero byte, not negative, not NaN |
| LongNumber.LN.Copy | LN.cpp:30-36 | the copy has the same live digits and flags as the original, in a fresh buffer |
| LongNumber.LN.FromInt | LN.cpp:50-79 | the shift loop over eight bytes followed by remove_zeros_ leaves exactly `Conversions.FromInt(value)`, INT64_MIN included |
| LongNumber.LN.Parse | LN.cpp:110-152 | the parsed state is `HexCodec.Parse(str)`: empty text gives zero, otherwise (k+1)/2 bytes filled from the top, sign from a leading '-', no trimming |
| LongNumber.LN.ReadBytes | LN.cpp:133-151 | the top byte from one or two characters, then each lower byte from the next pair; the buffer is `HexCodec.ParseBytes(s)` |
| LongNumber.LN.Alloc | LN.cpp:747-755 | a fresh zero-filled buffer of n live bytes with both flags cleared |
| LongNumber.LN.RemoveZeros | LN.cpp:764-774 | the new state is remove_zeros_ of the old one, in the same buffer |
| LongNumber.LN.IsZero | LN.cpp:442-462 | the scan returns false for NaN and otherwise whether every live byte is zero |
| LongNumber.LN.IsNegative | LN.cpp:437-440 | returns the sign flag and changes nothing |
| LongNumber.LN.IsNaN | LN.cpp:464-467 | returns the NaN flag and changes nothing |
| LongNumber.LN.Size | LN.cpp:469-472 | returns the number of live bytes and changes nothing |
| LongNumber.LN.CreateZero | LN.cpp:725-729 | a fresh zero: one zero byte, both flags clear |
| LongNumber.LN.CreateNaN | LN.cpp:731-736 | a fresh NaN: one zero byte with the NaN flag set |
| LongNumber.LN.Abs | LN.cpp:757-762 | a fresh copy with the sign flag cleared |
| LongNumber.LN.Negate | LN.cpp:776-781 | a fresh copy with the sign flag flipped unconditionally |
| LongNumber.LN.Neg | LN.cpp:317-320 | unary minus is negate |
| LongNumber.LN.ShiftLeft | LN.cpp:706-715 | the number times 256^shift: shift zero bytes below the digits, no sign, no NaN |
| LongNumber.LN.Pad | LN.cpp:717-723 | the digits padded with top zero bytes to n bytes, same value, no sign |
| LongNumber.LN.Add | LN.cpp:474-504 | the carry loop into a buffer two bytes longer than the longer operand, then remove_zeros_, gives `Additive.Add` |
| LongNumber.LN.AddDigits | LN.cpp:487-497 | the carry stays at most 1, and the written bytes plus the final carry equal the sum of the magnitudes; bytes above are untouched |
| LongNumber.LN.Subtract | LN.cpp:506-543 | the uint16 borrow loop with the swap for a smaller lhs gives `Additive.Subtract` |
| LongNumber.LN.MultiplySlow | LN.cpp:586-618 | the schoolbook loops followed by remove_zeros_ give `Multiplicative.MultiplySlow` |
| LongNumber.LN.Rows | LN.cpp:597-614 | after all rows the zeroed buffer holds the product of the two magnitudes |
| LongNumber.LN.MultiplyRow | LN.cpp:599-613 | one row adds digitA·256^i·Val(rhs) to the buffer and leaves the bytes above the row's carry position zero |
| LongNumber.LN.Plus | LN.cpp:187-209 | the sign dispatch of operator+ over add_ and subtract_ gives `Additive.Plus` |
| LongNumber.LN.Minus | LN.cpp:211-233 | the sign dispatch of binary operator- gives `Additive.Minus` |
| LongNumber.LN.Slice | LN.cpp:566-575 | a fresh non-negative number holding bytes [from, from+n) of the operand |
| LongNumber.LN.Multiply | LN.cpp:545-584 | the dispatch of multiply_: zero, schoolbook when the shorter operand has at most 256 bytes, otherwise pad and Karatsuba; gives `Multiplicative.Multiply` |
| LongNumber.LN.Karatsuba | LN.cpp:565-583 | the split that keeps size - size/2 low bytes and the recombination give `Multiplicative.Karatsuba` |
| LongNumber.LN.Combine | LN.cpp:579-583 | the three recursive products ac, bd and (a+b)(c+d), recombined |
| LongNumber.LN.Recombine | LN.cpp:583 | shift_left_(bd, 2n) + shift_left_(abcd - ac - bd, n) + ac, as the value model computes it |
| LongNumber.LN.Middle | LN.cpp:583 | shift_left_(abcd - ac - bd, n) |
| LongNumber.LN.Times | LN.cpp:235-253 | operator*: NaN propagation, multiply_ of the magnitudes, negated iff the signs differ; gives `Multiplicative.Times` |
| LongNumber.LN.TakeDigit | LN.cpp:650-655 | the inner loop leaves exactly `LongDivision.Count`: the remainder after subtracting the multiple while it compares at least as large, and the uint8_t count of those subtractions |
| LongNumber.LN.Multiple | LN.cpp:642-648 | the shift is `LongDivision.Shift` (size difference, decremented once when the remainder is below the shifted divisor) and the multiple is the divisor shifted by it |
| LongNumber.LN.DivideStep | LN.cpp:640-658 | one pass of the outer loop writes the inner loop's count at the quotient byte shift and leaves the remainder of `LongDivision.Step` |
| LongNumber.LN.DivideLoop | LN.cpp:640-658 | the outer loop terminates and leaves the quotient bytes and remainder of `LongDivision.Loop` from a zeroed quotient and its dividend |
| LongNumber.LN.DivideLoops | LN.cpp:633-658 | a fresh zeroed quotient of \|dividend\| - \|divisor\| + 1 bytes and a copy of the dividend, run through both loops, hold `LongDivision.Loop` of the operands; the dividend and divisor are unchanged |
| LongNumber.LN.DivideLong | LN.cpp:633-661 | on a non-zero divisor no longer than the dividend, the loops followed by remove_zeros_ on both results give exactly `Division.Divide` |
| LongNumber.LN.Divide | LN.cpp:621-662 | for every pair of magnitudes the results are `Division.Divide`: (NaN, NaN) for a zero divisor, otherwise non-negative, non-NaN, the quotient tidy |
| LongNumber.LN.Quotient | LN.cpp:255-273 | operator/ over divide_ gives `Division.Quotient` for every input; for non-negative operands the result is NaN or a tidy non-negative number |
| LongNumber.LN.Remainder | LN.cpp:275-293 | operator% over divide_ gives `Division.Remainder` for every input |
| LongNumber.LN.Sqrt | LN.cpp:295-315 | operator~ gives `Newton.Sqrt` for every input: NaN for a negative or NaN input, zero for zero, never negative or NaN otherwise, the integer square root of a tidy input |
| LongNumber.LN.NewtonLoop | LN.cpp:308-312 | the while loop terminates and leaves `Newton.SqrtLoop` of its starting pair |
| LongNumber.LN.NewtonStep | LN.cpp:310-311 | y = (x + n/x)/2 with the LN operators is `Newton.NextGuess`, NaN or a tidy non-negative number |
| LongNumber.LN.Compare | LN.cpp:664-704 | the scan from the top returns `Comparator.Compare` |
| LongNumber.LN.Less | LN.cpp:352-359 | `<` is false on NaN, otherwise compare_ < 0 |
| LongNumber.LN.LessEq | LN.cpp:361-368 | `<=` is false on NaN, otherwise compare_ <= 0 |
| LongNumber.LN.Greater | LN.cpp:370-377 | `>` is false on NaN, otherwise compare_ > 0 |
| LongNumber.LN.GreaterEq | LN.cpp:379-386 | `>=` is false on NaN, otherwise compare_ >= 0 |
| LongNumber.LN.Equal | LN.cpp:388-395 | `==` is false on NaN, otherwise compare_ == 0 |
| LongNumber.LN.NotEqual | LN.cpp:397-404 | `!=` is false on NaN, otherwise compare_ != 0 |
| LongNumber.LN.ToBool | LN.cpp:432-435 | operator bool is !is_zero() |
| LongNumber.LN.ToInt64 | LN.cpp:406-430 | the accumulation loop and negation modulo 2^64 give `Conversions.ToInt64` |
| LongNumber.LN.Print | LN.cpp:83-108 | the text written is `HexCodec.PrintText` of the state |
| Representation.Negate | LN.cpp:776-781 | the digits and the NaN flag are kept, the sign flag flips, and a non-NaN value is negated |
| Representation.Abs | LN.cpp:757-762 | the digits and the NaN flag are kept, the sign flag is cleared, and the value becomes its absolute value |
| Representation.IsZeroValue | LN.cpp:442-462 | is_zero holds on a non-NaN number iff its digits stand for 0 |
| Representation.RemoveZerosProperties | LN.cpp:764-774 | remove_zeros_ keeps a prefix, drops only zero bytes, leaves normalised digits, keeps value and NaN flag, clears the sign exactly when nothing is left, and is idempotent |
| Digits.Trim | LN.cpp:766-769 | the trimmed digits are a normalised prefix and everything dropped is zero |
| Digits.TrimIsCanonical | LN.cpp:764-774 | trimming keeps the value and gives the canonical digits of that value |
| Digits.ToDigits | LN.cpp:73-78 | the canonical digits of n are normalised and stand for n |
| Digits.ValBound | LN.h:78-79 | every digit is at most MAX_VALUE_, so n digits stand for less than 256^n |
| Digits.ValZeroIff | LN.cpp:453-461 | digits stand for 0 iff every byte is zero |
| Digits.NormalisedUnique | LN.cpp:764-774 | two normalised digit sequences with the same value are equal |
| Digits.TidyZero | LN.cpp:52-55 | tidy digits stand for 0 iff they are empty or one zero byte |
| Digits.TidyLonger | LN.cpp:679-686 | tidy digits longer than others are at least as large, and strictly larger when normalised |
| Conversions.FromIntValue | LN.cpp:50-79 | LN(v) has magnitude \|v\| (2^63 for INT64_MIN), the sign flag iff v < 0, one zero byte for 0, otherwise normalised digits of at most eight bytes |
| Conversions.Wrap64Properties | LN.cpp:418-429 | the uint64_t result read as a long long is the long long congruent to it modulo 2^64, and leaves every long long unchanged |
| Conversions.ToInt64Failure | LN.cpp:408-416 | the conversion fails exactly on NaN or more than eight stored bytes, with that case's message |
| Conversions.ToInt64Value | LN.cpp:418-429 | on at most eight bytes it succeeds with the signed value modulo 2^64, and with the value itself when that is a long long |
| Conversions.FromIntRoundTrip | LN.cpp:406-430 | converting LN(v) back gives v for every long long, INT64_MIN included |
| Conversions.ToBoolValue | LN.cpp:432-435 | NaN converts to true; otherwise the result is true iff the value is non-zero |
| HexCodec.FromHexValue | LN.cpp:11-19 | from_hex reads a hex digit of either case as its value, below 16 |
| HexCodec.HexCharRoundTrip | LN.cpp:21-28 | to_hex_char writes the upper-case digit of a nibble, and from_hex reads it back |
| HexCodec.ParseBytesValue | LN.cpp:129-151 | the bytes the parser fills stand for the hex value of the digit text, with the first nibble in the top byte |
| HexCodec.ParseProperties | LN.cpp:110-152 | a token with k >= 1 hex digits parses to (k+1)/2 bytes, negative iff it starts with '-', not NaN, with the digits' hex value |
| HexCodec.ParseBytesFrom | LN.cpp:146-151 | a buffer filled from the top by the loop is the parsed byte sequence |
| HexCodec.PrintDigits | LN.cpp:83-108 | print writes an optional '-', upper-case hex digits with no leading zero for normalised digits, and a newline |
| HexCodec.PrintParseRoundTrip | LN.cpp:83-152 | parsing the printed text of a normalised number gives back the same digits and sign (zero prints as "0" and parses to zero) |
| HexCodec.HexBodyParses | LN.cpp:99-106 | the hex digits printed for normalised bytes parse back to those bytes |
| HexCodec.Nibbles | LN.cpp:99-106 | each byte is printed as two characters |
| LoopFacts.SplitResult | LN.cpp:73-78 | the bytes left by the shift loop, after remove_zeros_, are LN(v) |
| LoopFacts.CarryLoopStep | LN.cpp:487-497 | one carry step keeps written bytes plus carry equal to the sum of the operand prefixes |
| LoopFacts.AddResult | LN.cpp:498-503 | the final carry byte and remove_zeros_ give `Additive.Add` |
| LoopFacts.Uint16Borrow | LN.cpp:519-538 | the uint16_t arithmetic of one borrow step stores a byte, and stored - 256·borrow' is a - borrow - b |
| LoopFacts.BorrowLoopStep | LN.cpp:519-538 | one borrow step keeps written bytes minus borrow equal to the difference of the prefixes |
| LoopFacts.SubtractResult | LN.cpp:539-542 | the bytes after the loop, trimmed, are subtract_'s value-level result |
| LoopFacts.ProductFits | LN.cpp:605 | digitA·digitB + carry + partial fits in 16 bits |
| LoopFacts.SlowInnerStep | LN.cpp:602-608 | one inner step keeps the row sum invariant and its carry is a byte |
| LoopFacts.SlowResult | LN.cpp:616-617 | a buffer holding the product, trimmed, is `Multiplicative.MultiplySlow` |
| LoopFacts.RemoveZerosCanonical | LN.cpp:764-774 | remove_zeros_ on non-negative digits gives the canonical digits of their value |
| Additive.Add | LN.cpp:474-504 | add_ gives non-negative normalised digits, at most one byte longer than the longer operand |
| Additive.NoFinalBorrow | LN.cpp:506-543 | with a tidy non-negative lhs not below a non-negative rhs by compare_, rhs is not longer and the borrow loop's result is the exact difference |
| Additive.SubtractValue | LN.cpp:506-543 | subtract_ on tidy operands is normalised, negative iff lhs < rhs, and has value lhs - rhs |
| Additive.SubtractNonNegative | LN.cpp:506-543 | with tidy non-negative operands and lhs >= rhs the difference is non-negative, normalised and exact |
| Additive.SubtractUndoesAdd | LN.cpp:474-543 | for a tidy, non-negative, non-NaN y, subtract_(add_(x, y), y) stands for \|x\| |
| Additive.PlusValue | LN.cpp:187-209 | operator+ is NaN if either side is; on tidy operands it stands for the signed sum |
| Additive.MinusValue | LN.cpp:211-233 | binary operator- is NaN if either side is; on tidy operands it stands for the signed difference |
| Comparator.CompareFromValue | LN.cpp:688-701 | the scan from index i returns ret, -ret or 0 as the prefix values compare |
| Comparator.CompareFullScan | LN.cpp:688-703 | on equal lengths the full scan orders by value |
| Comparator.CompareAntisymmetric | LN.cpp:664-704 | swapping the operands negates compare_ |
| Comparator.CompareNonNegative | LN.cpp:672-703 | for non-negative operands compare_ ranks by stored length first and then by value |
| Comparator.CompareNormalised | LN.cpp:664-704 | for normalised non-negative operands compare_ is the sign of Val(lhs) - Val(rhs) |
| Comparator.CompareTidy | LN.cpp:664-704 | for tidy non-negative operands compare_ follows the values, and 0 means equal digits |
| Comparator.CompareStored | LN.cpp:664-704 | for stored non-negative operands compare_ is the sign of the difference |
| Comparator.CompareNegativeSameLength | LN.cpp:688-701 | two negatives of the same length compare as their signed values |
| Comparator.RelationalOperators | LN.cpp:352-404 | all six relations are false when either side is NaN; otherwise they are the converses and complements of each other |
| Multiplicative.ShiftLeft | LN.cpp:706-715 | shift_left_ adds k bytes, is non-negative and stands for 256^k·Val |
| Multiplicative.Pad | LN.cpp:717-723 | pad_ gives n bytes with the same value and no sign |
| Multiplicative.MultiplySlowValue | LN.cpp:586-618 | multiply_slow_ gives a tidy non-negative product of the magnitudes, stored (non-empty) for non-NaN operands |
| Multiplicative.MultiplyValue | LN.cpp:545-584 | multiply_ gives the tidy non-negative product of the magnitudes on either path |
| Multiplicative.MultiplyFastValue | LN.cpp:555-583 | the Karatsuba path for operands above 256 bytes gives the normalised product |
| Multiplicative.KaratsubaValue | LN.cpp:565-583 | splitting equal-length operands and recombining gives their normalised product |
| Multiplicative.KaratsubaArith | LN.cpp:579-583 | (a+b)(c+d) - ac >= bd, and p²·bd + p·(abcd - ac - bd) + ac is x·y |
| Multiplicative.KaratsubaSplit | LN.cpp:565-583 | with the split at m, the recombination of the partial products is the product of the operands |
| Multiplicative.KaratsubaCombine | LN.cpp:583 | the recombined number is non-negative, normalised and stands for the product |
| Multiplicative.MiddleTerm | LN.cpp:583 | abcd - ac - bd, computed by two subtractions, is the exact middle coefficient |
| Multiplicative.ShiftedSum | LN.cpp:583 | the two shifted terms plus ac stand for 256^(2m)·bd + 256^m·mid + ac |
| Multiplicative.PlusMagnitudes | LN.cpp:582 | a + b on non-negative operands is the normalised sum of the magnitudes |
| Multiplicative.SumSize | LN.cpp:582 | a + b is at most one byte longer than its operands' bound |
| Multiplicative.TimesValue | LN.cpp:235-253 | operator* is NaN if either side is, and otherwise stands for the product of the magnitudes, negated iff the signs differ |
| Multiplicative.TimesSignedValue | LN.cpp:235-253 | operator* stands for the product of the signed values |
| Multiplicative.SignedProduct | LN.cpp:247-252 | negating the magnitude product iff the signs differ gives the signed product |
| Division.ShortDividend | LN.cpp:628-631 | a dividend shorter than a tidy non-zero divisor is smaller: quotient 0, remainder the dividend |
| Division.LongDivideValue | LN.cpp:633-661 | on tidy operands with the divisor no longer, the loops and remove_zeros_ leave the quotient and remainder of the values |
| Division.SelfDivide | LN.cpp:621-662 | a non-zero magnitude divided by itself, top zero bytes or not, gives the quotient [1] and a remainder with no bytes |
| Division.SelfCount | LN.cpp:642-655 | against itself the shift is 0 and the inner loop subtracts once, to no bytes |
| Division.SelfMinus | LN.cpp:506-543 | subtract_ of a non-negative magnitude and itself leaves no bytes |
| Division.DivideValue | LN.cpp:621-662 | divide_ gives (NaN, NaN) for a zero divisor, otherwise non-negative results with a tidy quotient, both normalised when the loops ran; for a tidy divisor and a dividend that is tidy or shorter, the quotient and remainder of the magnitudes |
| Division.QuotientRemainderValue | LN.cpp:255-293 | operator/ and operator% are NaN on NaN or a zero divisor; otherwise not NaN, the sign flag set iff the signs differ, and for a tidy divisor and a dividend tidy or shorter the quotient and remainder of the magnitudes |
| Division.PositiveDivisorIdentity | LN.cpp:275-293 | for a positive tidy divisor and a dividend tidy or shorter, q·b + r == a with \|r\| < b and r taking the dividend's sign |
| LongDivision.SubtractStep | LN.cpp:653 | remainder -= multiple leaves a normalised smaller remainder, exact for a tidy remainder |
| LongDivision.ChooseShift | LN.cpp:642-648 | the shift is never negative, and decrementing it happens only when it is positive and leaves the remainder at least the multiple |
| LongDivision.FullMultipleBound | LN.cpp:642-643 | with a tidy non-zero divisor no longer than the remainder, the remainder is below 256 times the divisor shifted by the size difference |
| LongDivision.LessMultipleBound | LN.cpp:645-647 | after the decrement the remainder is below 256 multiples |
| LongDivision.ShiftBelow | LN.cpp:657 | for a tidy remainder below 256^hi divisors, the quotient index written is below every index written before |
| LongDivision.CountedStep | LN.cpp:651-655 | each inner iteration subtracts one multiple, bumps the uint8_t digit and shrinks the remainder |
| LongDivision.CountStep | LN.cpp:654 | the digit never wraps: it stays below 256 while the remainder is below 256 multiples |
| LongDivision.Count | LN.cpp:650-655 | the inner loop stops with a non-negative remainder below the multiple and no longer than before |
| LongDivision.CountKeeps | LN.cpp:650-655 | the inner loop keeps its invariant: no longer than the start, normalised and lower in progress once it has subtracted, and exact on a tidy start below 256 multiples |
| LongDivision.CountValue | LN.cpp:650-655 | from a tidy remainder and a normalised multiple the inner loop leaves remainder mod multiple, and the uint8_t digit moves on by the quotient modulo 256 |
| LongDivision.TakeOne | LN.cpp:653-654 | one subtraction lowers the quotient by one and keeps the remainder, so the digit bumped modulo 256 ends where it would have |
| LongDivision.Shift | LN.cpp:642-648 | the shift leaves the shifted divisor no longer than the remainder and not above it |
| LongDivision.ShiftBound | LN.cpp:642-648 | on a tidy non-zero divisor the remainder is below 256 times the chosen multiple |
| LongDivision.Step | LN.cpp:640-658 | a pass keeps the quotient's length and leaves a non-negative remainder of at most n bytes |
| LongDivision.StepProgress | LN.cpp:640-658 | each pass lowers the loop measure, so the outer loop terminates even when a subtraction wraps |
| LongDivision.Loop | LN.cpp:640-658 | the outer loop stops with a remainder below the divisor and the quotient's length unchanged |
| LongDivision.DividingEntry | LN.cpp:633-638 | for a tidy dividend and a tidy non-zero divisor no longer than it, the zeroed quotient and the copied dividend satisfy the long-division invariant |
| LongDivision.DividingStep | LN.cpp:640-658 | with a tidy non-zero divisor and the invariant's tidy remainder, one outer iteration writes quotient byte shift exactly once and keeps the invariant |
| LongDivision.DividingExit | LN.cpp:640 | with a tidy non-zero divisor, when the loop ends q·divisor + r == dividend and r < divisor |
| LongDivision.StepDividing | LN.cpp:640-658 | on a tidy divisor a pass keeps the long-division invariant, the zero bytes of the quotient now starting at the shift used |
| LongDivision.LoopDivided | LN.cpp:640-658 | on a tidy divisor, from the invariant, the loop ends with q·divisor + r == dividend and r < divisor |
| LongDivision.DividedTrim | LN.cpp:659-660 | remove_zeros_ on quotient and remainder keeps the division identity |
| Newton.NewtonStep | LN.cpp:311 | one Newton step from x >= 1 stays at least 1 and above the root: n < (y+1)² |
| Newton.NewtonStop | LN.cpp:308 | when the step no longer decreases, x² <= n |
| Newton.FirstStep | LN.cpp:306 | the first candidate (n+1)/2 is the Newton step from n |
| Newton.Half | LN.cpp:306 | dividing a non-empty tidy non-negative number by LN(2) halves its value |
| Newton.NonNegativeQuotient | LN.cpp:311 | n / x on non-negative operands, both tidy or the same number, with x non-zero, is the tidy quotient of the values |
| Newton.StepValue | LN.cpp:311 | (x + n/x)/2 computed with LN operators, on tidy n and x or x == n, is the integer Newton step |
| Newton.LoopEntry | LN.cpp:305-306 | x = n, y = (n+1)/2 satisfies the loop state |
| Newton.LoopBody | LN.cpp:308-312 | on a tidy n the body keeps the loop state, and x decreases in stored length or value |
| Newton.LoopExit | LN.cpp:308-314 | at loop exit x is the integer square root of n |
| Newton.LoopTest | LN.cpp:308 | for a tidy non-negative y, y < x by compare_ means y is shorter or smaller, and its negation means y >= x |
| Newton.GuessValue | LN.cpp:311 | on tidy n and x, or x == n, the next guess is normalised and is the integer Newton step |
| Newton.GuessShape | LN.cpp:311 | for any non-negative n and x the next guess is NaN or a tidy non-negative number |
| Newton.SqrtLoop | LN.cpp:308-312 | the loop terminates, ending at a non-negative, non-NaN x |
| Newton.SqrtLoopRoot | LN.cpp:308-314 | on a tidy n, from the loop state, the loop stops at the integer square root |
| Newton.SqrtValue | LN.cpp:295-315 | operator~ is NaN exactly for a negative or NaN input, zero for zero, never negative, and the integer square root of a tidy input |
| Findings.NegativeLengthsMisordered | LN.cpp:679-686 | -257 (two bytes) compares above -1 (one byte) |
| Findings.CompareCorrectedValue | LN.cpp:664-704 | the corrected comparison is the sign of the signed difference on canonical numbers, and agrees with compare_ except for negatives of different length |
| Findings.ZeroDifferenceUnequal | LN.cpp:764-774 | LN(5) - LN(5) stores zero as no bytes and is not == LN(0) |
| Findings.TrimKeepingOne | LN.cpp:764-774 | trimming down to one byte keeps the value and stores a non-empty input as tidy non-empty digits |
| Findings.TrimKeepingOneCompares | LN.cpp:664-704 | with one byte kept, compare_ on non-negative results is the sign of the difference |
| Findings.TrimKeepingOneZero | LN.cpp:52-55 | with one byte kept, every zero is stored as LN(0) stores it |
| Findings.LongLongWraps | LN.cpp:413-429 | 2^63 in eight bytes converts to INT64_MIN |
| Findings.ToInt64CheckedValue | LN.cpp:406-430 | the range-checked conversion succeeds exactly on long long values, returns the value, agrees with the code where that is right, and round-trips LN(v) |
| Findings.RemainderSignBreaksIdentity | LN.cpp:275-293 | -7 / -2 is 3 and -7 % -2 is 1, so q·b + r is -5 |
| Findings.RemainderSignedValue | LN.cpp:281-291 | operator% on a tidy divisor and a dividend tidy or shorter negates the magnitude remainder iff the signs differ |
| Findings.QuotientSignedValue | LN.cpp:261-272 | operator/ on a tidy divisor and a dividend tidy or shorter negates the magnitude quotient iff the signs differ |
| Findings.RemainderCorrectedValue | LN.cpp:281-291 | the corrected remainder is the magnitude remainder negated iff the dividend is negative (tidy divisor, dividend tidy or shorter) |
| Findings.RemainderCorrectedIdentity | LN.cpp:255-293 | with operator/, the corrected remainder gives q·b + r == a, \|r\| < \|b\|, and r has the dividend's sign, for either sign of b |
| Findings.RemainderCorrectedAgrees | LN.cpp:275-293 | for a divisor without the sign flag the corrected remainder is operator% |
| Findings.WrapShift | LN.cpp:642-648 | for bytes [5,0,0] against [3] the shift is 1 and the multiple is [0,3] |
| Findings.WrapSubtraction | LN.cpp:506-543 | subtract_ of [0,3] from [5,0,0] wraps to 16776453 |
| Findings.WrapCount | LN.cpp:650-655 | the inner loop from 16776453 against 768 leaves 261 and the digit 85 |
| Findings.WrapFirstPass | LN.cpp:640-658 | the first outer pass on [5,0,0] and [3] leaves quotient bytes [0,85,0] and a tidy remainder of value 261 |
| Findings.WrapRemainingPasses | LN.cpp:640-658 | from there the loop ends with the quotient 21847 and the remainder 0 |
| Findings.UntidyDividendWraps | LN.cpp:621-662 | divide_, operator/ and operator% on [5,0,0] (5) and [3] give 21847 and 0 where 5 / 3 is 1 rem 2 |
| Findings.DivideTrimmedValue | LN.cpp:621-662 | divide_ on trimmed operands is (NaN, NaN) for a zero divisor and otherwise the quotient and remainder of the values for every input, agreeing with divide_ on tidy operands |
| Findings.UntidySubtraction | LN.cpp:211-233 | 5 - [3,0] (3 with a top zero byte) comes out as -65534 |
| Findings.MinusTrimmedValue | LN.cpp:211-233 | operator- on trimmed operands is NaN exactly when an operand is, and otherwise the normalised signed difference, agreeing with operator- on tidy operands |

## Left out

- Division.DivideValue: the quotient and remainder of the values are stated for a tidy divisor and a dividend that is tidy or shorter. divide_'s loops rank by stored length, so a dividend with top zero bytes (the parser keeps them) makes the first subtraction wrap: bytes [5,0,0] (5) by [3] give 21847 remainder 0 (`Findings.UntidyDividendWraps`).
- Division.LongDivideValue: stated for tidy operands, for the same reason.
- Division.QuotientRemainderValue: the values are stated for a tidy divisor and a dividend tidy or shorter, for the same reason; the NaN and sign results hold for every input.
- Division.PositiveDivisorIdentity: q·b + r == a is stated for a tidy divisor and a dividend tidy or shorter, for the same reason.
- Findings.RemainderSignedValue, Findings.QuotientSignedValue, Findings.RemainderCorrectedValue and Findings.RemainderCorrectedIdentity: stated for a tidy divisor and a dividend tidy or shorter, for the same reason.
- LongNumber.LN.Divide, LongNumber.LN.Quotient and LongNumber.LN.Remainder: equal to `Division.Divide`, `Division.Quotient` and `Division.Remainder` for every input. Their arithmetic meaning is that of those functions, so it holds only for the operands above.
- Newton.Half, Newton.NonNegativeQuotient, Newton.StepValue and Newton.GuessValue: stated for tidy operands (or x == n), because they rest on the division. In operator~ the sum halved is always normalised; n / x is not exact for a dividend n with top zero bytes.
- Newton.LoopBody, Newton.SqrtLoopRoot and Newton.SqrtValue: the integer square root is stated for a tidy n, for the same reason. For any other non-negative n, `Newton.SqrtValue` states a non-negative, non-NaN result, and `Newton.SqrtLoop` that the loop ends.
- LongNumber.LN.Sqrt and LongNumber.LN.NewtonLoop: equal to `Newton.Sqrt` and `Newton.SqrtLoop` for every input; the integer square root holds for a tidy n only.
- Additive.PlusValue, Additive.MinusValue, Additive.SubtractValue, Additive.SubtractNonNegative, Additive.SubtractUndoesAdd and Additive.NoFinalBorrow: the value of the signed sum or difference is stated for tidy operands (for `SubtractUndoesAdd` a tidy y, for `NoFinalBorrow` a tidy lhs). `Additive.Subtract` itself follows the code for every input. On an operand with a top zero byte the result is not the difference: LN(5) - LN("0003") is -65534 (`Findings.UntidySubtraction`).
- LongNumber.LN.Parse: requires at least one hex digit after the sign and the `0x` prefix, unless the text is empty. Otherwise the source reads `str[0]` of an empty view and writes `data_[-1]`.
- Non-hex characters are read by from_hex's formula without validation. The value lemmas (`HexCodec.ParseProperties`) are stated for hex digits only.
- Text is a sequence of Unicode characters, where the code reads `char` bytes. `toupper` of a negative `char` (a byte above 0x7F when `char` is signed) is undefined behaviour in C++; the model's `ToUpper` changes only 'a' to 'z' and leaves every other character as it is.
- The copy and move assignments and the move constructor (LN.cpp:38-48, 159-185): object ownership has no counterpart over fresh Dafny arrays. `LongNumber.LN.Copy` models the copy constructor.
- The C++ value semantics are left out. Every method returns a fresh object instead of changing its operands.
- Memory management is left out: `dealloc_`, the destructor, `bad_alloc`, and `memcpy`/`memset` (LN.cpp:738-745, 783-786). Allocation is a fresh zero-filled array.
- The `const char*` constructor (LN.cpp:81), the `_ln` literal (154-157) and the compound assignments `+=` and the rest (322-350) are each one call of a modelled operation.
- `print` writes to a `std::ofstream`. The model returns the characters written.
- The `std::overflow_error` of `operator long long` is a `Failure` result carrying the same message.
- main.cpp is not part of this model: file I/O, argument handling and the evaluation stack.

## Findings

| source | as written | input that shows it | evidently intended | confidence | as-written member | corrected member |
|---|---|---|---|---|---|---|
| LN.cpp:679-686 | two negative numbers of different stored length are ranked as if non-negative | bytes [1,1] negative (-257) against [1] negative (-1): compare_ returns 1 | the longer negative is the smaller; the length results are inverted as the digit scan already is | not executed | Findings.NegativeLengthsMisordered | Findings.CompareCorrected |
| LN.cpp:764-774 | remove_zeros_ trims zero to no bytes while LN(0) stores one byte, and compare_ ranks by length first | LN(5) - LN(5) == LN(0) is false | every zero compares equal to LN(0); trimming keeps one byte | not executed | Findings.ZeroDifferenceUnequal | Findings.TrimKeepingOne |
| LN.cpp:413-429 | only the byte count is checked, so magnitudes in [2^63, 2^64) wrap | bytes [0,0,0,0,0,0,0,0x80] (2^63) convert to INT64_MIN | values outside long long raise "Value too large." | not executed | Findings.LongLongWraps | Findings.ToInt64Checked |
| LN.cpp:281-291 | the remainder is negated iff exactly one operand is negative | -7 % -2 is 1 while -7 / -2 is 3 | the remainder takes the dividend's sign, so q·b + r == a | not executed | Findings.RemainderSignBreaksIdentity | Findings.RemainderCorrected |
| LN.cpp:640-655 | the loops rank remainder against multiple by stored length, so a dividend with top zero bytes (the parser keeps them) makes the first subtraction wrap and the uint8_t digit overflow | bytes [5,0,0] (LN("000005"), value 5) by [3]: quotient 21847, remainder 0 | the quotient and remainder of the values for any stored digits, e.g. with both operands trimmed first | not executed | Findings.UntidyDividendWraps | Findings.DivideTrimmed |
| LN.cpp:506-543 | subtract_ decides the swap by compare_'s length ranking, so an operand with a top zero byte makes the borrow loop wrap | LN(5) - bytes [3,0] (LN("0003"), value 3) is -65534 | the signed difference of the values for any stored digits, e.g. with both operands trimmed first | not executed | Findings.UntidySubtraction | Findings.MinusTrimmed |
