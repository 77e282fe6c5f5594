# BigDouble: exact decimal arithmetic on digit strings

`main.cpp` reads lines of text and, for every line that is a decimal number, prints
that number plus -123.456 and that number times 123.456. It does this exactly. A
number is held as a `BigDouble` record: a sign flag, the integer digits and the
fraction digits, each as a string.

This project models the arithmetic core of that program in Dafny and proves it
correct against the exact number each record and each text denotes. The core is:
- the validator `isValidDouble`;
- the parser `parseStringToBigDouble`;
- the canonicaliser `normalize`;
- the printer `bigDoubleToString`;
- `add`, with its helpers `absGreater`, `addAbs` and `subAbs`;
- `multiply`;
- a thin per-line driver standing in for `main`.

## Layout

| file | module | what it holds |
|---|---|---|
| digits.dfy | `Digits` | digit strings and their value; powers of ten; std::string order; the leading-zero erase loop |
| decimal.dfy | `Decimal` | the `BigDouble` datatype; its exact value; the canonical form and its uniqueness |
| validator.dfy | `Validator` | `isValidDouble`; the grammar it accepts; the number a valid text denotes |
| normalizer.dfy | `Normalizer` | `normalize` |
| parser.dfy | `Parser` | `parseStringToBigDouble` |
| formatter.dfy | `Formatter` | `bigDoubleToString`; the print/parse round trips |
| adder.dfy | `Adder` | `absGreater`, `addAbs`, `subAbs`, `add` |
| multiplier.dfy | `Multiplier` | `multiply` and its in-place long multiplication |
| driver.dfy | `Driver` | what `main` prints for one line, and for a file of lines |

**Meaning.** A digit string `s` denotes `DigitsValue(s)`, read in base ten. A well-formed
record `d` has magnitude
`Magnitude(d) = DigitsValue(d.integerPart + d.fractionPart) / 10^|d.fractionPart|`.
Its value is `Value(d) = Numerator(d) / 10^|d.fractionPart|`, where `Numerator(d)` is
the same digits read as an integer and negated when the sign flag is set, so the value
is the magnitude negated when the sign flag is set (`Decimal.ValueSign`). Both are
Dafny `real`s: exact rationals, not floating point.

A text accepted by `isValidDouble` denotes `TextValue(s)`. That is the value of the
record written by its sign, its digits before the point and its digits after the
point (`Validator.Literal`).

**The canonical form.** `Decimal.Normalized` is the form `normalize` produces:
- the integer part is non-empty;
- the integer part has no leading `'0'` unless it is `"0"`;
- the fraction has no trailing `'0'`;
- zero is never negative.

`Decimal.CanonicalUnique` shows that two canonical records with the same value are
equal. Idempotence and both round trips follow from that lemma.

**Imperative code.** The C++ loops stay loops:
- `isValidDouble` and `parseStringToBigDouble` walk an index and push characters.
- `normalize` erases characters with while-loops.
- `addAbs` and `subAbs` push one digit per column, right to left, and then reverse.
- `multiply` fills the buffer `res`, a Dafny `array<char>`, in place.

Each loop carries invariants that tie its state to digit values. The lambdas' shared
column loops are methods of their own:
- `Adder.AddColumns` serves both loops of `addAbs`.
- `Adder.SubColumns` serves both loops of `subAbs`.
- `Multiplier.AddRow` is the inner loop of the nested multiplication.

**Carry and borrow.** `addAbs` and `subAbs` keep one `carry` (or `borrow`) variable
across both of their loops, at main.cpp:232/260 and main.cpp:291/321. The fraction
loop's carry or borrow therefore enters the integer loop. The model keeps this.
`AddColumns` and `SubColumns` take the incoming carry or borrow as a parameter and
return the outgoing one. A description of `subAbs` as two independent subtractions
does not match the code and would give wrong results, for example for 1.0 − 0.5. The
model follows the code.

## Model

| member | source | states |
|---|---|---|
| `Validator.IsValidDouble` | main.cpp:67-102 | accepts a text exactly when it is an optional sign, digits, and optionally a point followed by at least one digit, with at least one digit overall and nothing left over |
| `Validator.GrammarExamples` | main.cpp:67-102 | "5", "+5", ".5", "+.5", "5.5" are accepted; "", "+", "5.", "5.5.5", "abc" are rejected |
| `Validator.GrammarWithPoint` | main.cpp:90-101 | once the digit runs before and after the first point are located, the text is valid exactly when the second run reaches the end and is not empty |
| `Validator.GrammarWithoutPoint` | main.cpp:83-101 | a text whose leading digit run is not followed by a point is valid exactly when that run is not empty and reaches the end |
| `Parser.ParseStringToBigDouble` | main.cpp:105-141 | a valid text parses to a canonical record with the value the text denotes; the record is negative exactly when the text starts with '-' and the number is not zero |
| `Parser.ScannedLiteral` | main.cpp:115-136 | the record built by the sign test and the two scanning loops, with its extra leading "0", already has the value the text denotes |
| `Parser.ScannedParts` | main.cpp:122-136 | the scanned integer part is "0" followed by the text's digits before the point, and the scanned fraction is exactly the text's digits after the point |
| `Normalizer.Normalize` | main.cpp:164-187 | the result is canonical, has the same magnitude and the same value, is negative exactly when the input was and the result is not zero, and is the input itself when the input was already canonical |
| `Normalizer.NormalizeTwice` | main.cpp:164-187 | normalizing a second time gives the same record as normalizing once |
| `Normalizer.StrippedZeros` | main.cpp:166-181 | erasing leading integer zeros, or replacing an empty integer part by "0", and dropping trailing fraction zeros keeps the magnitude |
| `Normalizer.KeptCanonical` | main.cpp:166-186 | on a canonical record neither loop erases anything and the sign is kept |
| `Decimal.CanonicalUnique` | main.cpp:164-187 | two canonical records with the same value are the same record, so the form normalize produces is unique per number |
| `Decimal.ZeroMagnitude` | main.cpp:184-186 | a canonical record has magnitude zero exactly when it is the record main.cpp tests for zero (integer part "0", empty fraction) |
| `Formatter.FormatIsLiteral` | main.cpp:144-161 | the text printed for a canonical record is accepted by isValidDouble, is written with exactly that record's sign, integer digits and fraction digits, and denotes the record's value |
| `Formatter.FormatThenParse` | main.cpp:105-161 | parsing the printed text of a canonical record gives back that very record |
| `Formatter.BigDoubleToString` | main.cpp:144-161 | zero prints as "0"; otherwise '-' when negative, the integer digits and, when there is a fraction, '.' and the fraction digits. Its meaning is stated by `FormatIsLiteral` and `FormatThenParse` |
| `Formatter.ParseThenFormat` | main.cpp:105-161 | printing the parse of a valid text gives a valid text denoting the same number, and that text is the canonical printing of the record it denotes |
| `Adder.AbsGreater` | main.cpp:193-216 | the five-step comparison of absGreater: integer lengths, integer digits, then the fractions. Its meaning is stated by `AbsGreaterIsMagnitudeOrder` |
| `Adder.AbsGreaterIsMagnitudeOrder` | main.cpp:193-216 | on canonical records absGreater holds exactly when the first magnitude is strictly greater than the second |
| `Adder.IntegerLengthOrder` | main.cpp:195-197 | on canonical records, a longer integer part means a greater magnitude |
| `Adder.IntegerDigitsOrder` | main.cpp:199-201 | for well-formed records with integer parts of equal length that differ, std::string order of the integer parts is the order of the magnitudes |
| `Adder.FractionDigitsOrder` | main.cpp:214 | with equal integer parts and fractions of equal length, std::string order of the fractions is the order of the magnitudes |
| `Adder.LeadingOrder` | main.cpp:199-200 | for equal-length digit strings that differ, std::string order of the heads decides the numeric order of the whole aligned digit strings |
| `Adder.FractionOrder` | main.cpp:203-212 | with equal integer parts and fractions of different lengths, absGreater agrees with the order of the digits aligned to the longer fraction |
| `Adder.PaddedOrder` | main.cpp:205-212 | comparing the common prefix of two fractions, and then preferring the longer one, orders them as the numbers they denote once zero-padded to equal length, given that neither ends in '0' |
| `Adder.LongerFraction` | main.cpp:211-212 | a digit string followed by digits that end in a non-zero digit exceeds the same string followed by zeros |
| `Adder.LexTotal` | main.cpp:208-209 | two different equal-length strings are ordered one way or the other by std::string order |
| `Adder.AddColumns` | main.cpp:232-264 | adding two equal-length digit strings column by column, right to left, with a carry coming in pushes one digit per column and leaves a carry of 0 or 1; the reversed digits, plus the carry at their weight, equal the sum of the two strings' values over all columns done so far |
| `Adder.PadIntegers` | main.cpp:247-254 | the shorter integer part is left-padded with zeros to the longer one's length, and the other is kept as it is |
| `Adder.AddAbs` | main.cpp:219-275 | the result is canonical and non-negative, and its magnitude is the sum of the two magnitudes |
| `Adder.CarryPushed` | main.cpp:265-267 | pushing a left-over carry as the leading digit accounts for it exactly |
| `Adder.SubColumns` | main.cpp:291-329 | subtracting column by column, right to left, with a borrow coming in emits only digits 0..9 and leaves a borrow of 0 or 1; the digits plus the subtrahend equal the minuend plus the borrow at its weight |
| `Adder.NoFinalBorrow` | main.cpp:317-329 | when the first magnitude is at least the second, no borrow is left after the leading integer column |
| `Adder.SubAbs` | main.cpp:278-340 | when the first magnitude is at least the second, the result is canonical and non-negative, and its magnitude is the difference of the two magnitudes |
| `Adder.Add` | main.cpp:343-364 | for canonical operands the result is canonical, so a zero sum is never negative, and its value is the sum of the two values |
| `Digits.StripLeadingZeros` | main.cpp:376-382 | the loop erases only leading '0's, keeps at least one character of a non-empty string, and stops at a string that has one character or does not start with '0' |
| `Digits.LexIsNumericOrder` | main.cpp:199-215 | on equal-length digit strings, std::string order is the order of the numbers they denote |
| `Multiplier.MultiplyDigits` | main.cpp:396-408 | the schoolbook nested loop over the buffer of |A|+|B| '0's leaves a buffer of that length, all digits, denoting the product of the two digit strings |
| `Multiplier.AddRow` | main.cpp:399-407 | one pass of the outer loop adds digit i of A times B into the buffer at the right weight; every cell stays a digit and the carry stays within 0..9 throughout |
| `Multiplier.MulStep` | main.cpp:402-405 | one pass of the inner loop keeps the row invariant: the buffer plus the pending carry equals the rows done plus digit i times the columns of B done, each at its weight |
| `Multiplier.RowEnd` | main.cpp:407 | the cell left of the row is still '0' when the last carry is stored there, the stored digit is in range, and the row is then complete |
| `Multiplier.ZeroFactor` | main.cpp:384-392 | when a stripped factor is "0" or empty, the unsigned zero record is canonical and its value is the product |
| `Multiplier.ProductAssembled` | main.cpp:415-436 | re-inserting the point totalFracDigits places from the right, padding with zeros when the digits are fewer, and setting the sign when exactly one factor is negative, yields a record whose value is the product of the two values |
| `Decimal.NumeratorProduct` | main.cpp:418-436 | a record whose digits are the product of the factors' digits, with as many fraction digits as both and the sign "exactly one is negative", has the product of their signed numerators over the product of their powers of ten |
| `Decimal.ProductOf` | main.cpp:418-436 | when signed numerators and powers of ten multiply, the values multiply |
| `Decimal.ValueSign` | main.cpp:8-10 | a record's value is its magnitude, negated exactly when the sign flag is set |
| `Multiplier.Multiply` | main.cpp:368-439 | for well-formed operands the result is canonical and its value is the product of the values; it is negative exactly when one operand is negative and the product is not zero |
| `Driver.Constants` | main.cpp:35-37 | the two constant texts are valid and denote -123.456 and 123.456 |
| `Driver.ParseConstants` | main.cpp:35-37 | the two parsed constants are canonical and have values -123.456 and 123.456 |
| `Driver.ProcessLine` | main.cpp:40-61 | a line is reported invalid exactly when it is outside the grammar isValidDouble accepts; otherwise the two printed texts are valid, denote the line's number plus the addend and times the factor, and are each the canonical printing of the record they denote |
| `Driver.ProcessLines` | main.cpp:39-62 | every line of the input gets one report, and each report is correct in the sense of ProcessLine |

## Left out

- The file name prompt, `std::ifstream`, `getline` and the console output of `main` are I/O. The driver takes the lines as a sequence and returns what would be printed for each.
- The driver returns the two result texts, not the full printed lines. The echo of the input line and the fixed labels " + (-123.456) = " and " * 123.456   = " are not modelled.
- `std::isdigit` is modelled as the ASCII test `'0' <= c <= '9'`. Locale-dependent or negative `char` behaviour is not modelled.
- The C++ `int` and `size_t` index types are modelled as unbounded integers. None of index overflow on strings longer than 2^31 − 1 characters, signed/unsigned conversion, or `char` arithmetic wrap-around is modelled. The proofs show that every cell value and carry stays within 0..9 or 0..1, so no `char` value leaves the digit range.
- `Parser.ParseStringToBigDouble`: requires a valid text. The C++ code reads `s[0]` without checking and is only ever called on text that `isValidDouble` accepted.
- `Adder.SubAbs`: requires the first magnitude to be at least the second, as the C++ lambda's comment demands. No result is modelled for that misuse.
- `Adder.Add`: requires canonical operands. `absGreater` orders magnitudes correctly only on canonical records, which is how `main` calls `add`.
- `normalize` updates its argument through a reference. It is modelled as a method that returns the updated record; `BigDouble` is a value type in the C++ code, so no aliasing is lost.
- The inner loop of `multiply` runs as the method `Multiplier.AddRow`, called once per pass of the outer loop. It works on the same `res` array in place.
- `std::reverse`, `erase`, `insert`, `substr` and `std::string` comparison are modelled as sequence operations: a reversal function, slices, concatenation with zeros, and `LexLess`.
