# MoneyCalculator in Dafny

A model of the `MoneyCalculator` PHP trait. The trait does decimal money
arithmetic on amounts written as text, and hands the arithmetic to PHP's
BCMath functions. A calculator holds one setting, the precision: how many
fractional digits every operation keeps. It starts at 2 and can be changed.

Every two-operand operation first checks that both operands are valid
amounts and fails with an invalid-amount error otherwise. Then it calls
`bcadd`, `bcsub`, `bcmul`, `bcdiv` or `bccomp` with the current precision as
the scale. Division and modulus also refuse a divisor that `bccomp` at the
current precision finds equal to `0`.

Each BCMath call takes its operands exactly. It computes the exact sum,
difference, product or quotient, then keeps `scale` fractional digits and
cuts the rest off toward zero. It does not round. The result text has
exactly `scale` digits after the point, and no point when `scale` is 0. The
digits before the point have no leading zero beyond a single `0`. A
minus sign is written only for a nonzero result. `bccomp` cuts both operands
to `scale` digits and then compares them.

The model follows BCMath as it is in PHP 8.0 and later. There, a scale
outside 0..2147483647 and a malformed operand are refused with a
`ValueError`, and every
result is padded with zeros to `scale` fractional digits. PHP 7 behaves
differently: it clamps a negative scale to 0, reads a malformed operand as
0, and before 7.3 `bcmul` and `bcpow` do not pad their results. Those
releases are not modelled.

The design documentation describes the results as rounded. The code cuts
toward zero, and the model follows the code. So adding `10.005` and `0.004`
at precision 2 gives `10.00`, and `3.333 * 3` gives `9.99`.

The project has five modules:

- `Decimals` (decimals.dfy) covers amounts.
  - A `Decimal` is an integer number of units together with a scale.
  - Its exact value `Value` is a real number.
  - `TruncReal` is the reference meaning of cutting a real to p digits toward zero.
  - `Trunc` and `TruncQuot` compute that cut with integers and are proved equal to the reference.
  - `Parse` reads the text of an amount, and `ParseValue` states which amount a text denotes. `Render` writes an amount.
- `BcMath` (bcmath.dfy) models the five BCMath calls on decimals. Each one is proved equal to the reference meaning applied to the exact result.
- `Money` (money.dfy) models the operations on operand texts at a given precision, with their error results, and the lemmas relating them.
- `MoneyCalculator` (calculator.dfy) is the calculator object. Its `precision` field is read by every operation, and a thrown exception becomes an `Err` result.
- `Scenarios` (scenarios.dfy) holds worked examples at precision 2 and 3.

## Model

| member | source | states |
|---|---|---|
| MoneyCalculator.Calculator.constructor | MoneyCalculator.php:26 | a new calculator keeps 2 fractional digits |
| MoneyCalculator.Calculator.SetPrecision | MoneyCalculator.php:33-36 | the precision becomes the given number |
| MoneyCalculator.Calculator.GetPrecision | MoneyCalculator.php:43-46 | returns the current precision |
| MoneyCalculator.Calculator.IsValidMoney | MoneyCalculator.php:55-58 | true exactly for a plain decimal: an optional sign, digits and at most one point, with at least one digit |
| MoneyCalculator.Calculator.AddMoney | MoneyCalculator.php:68-72 | fails with InvalidAmount exactly when an operand is invalid; otherwise returns the exact sum cut toward zero to the current precision, written with that many digits |
| MoneyCalculator.Calculator.SubtractMoney | MoneyCalculator.php:82-86 | the same for the exact difference, which may be negative |
| MoneyCalculator.Calculator.MultiplyMoney | MoneyCalculator.php:96-100 | the same for the exact product, cut once at the end |
| MoneyCalculator.Calculator.DivideMoney | MoneyCalculator.php:110-117 | InvalidAmount exactly for an invalid operand; ZeroDivisor exactly when the divisor cut to the precision is 0; otherwise the exact quotient cut toward zero |
| MoneyCalculator.Calculator.ModulusMoney | MoneyCalculator.php:127-134 | the same two errors under the same conditions as division; otherwise the value bcmod gives for the operand texts |
| MoneyCalculator.Calculator.CompareMoney | MoneyCalculator.php:144-148 | InvalidAmount exactly for an invalid operand; otherwise -1, 0 or 1, with 0 exactly when both operands cut to the precision are equal and -1 exactly when the first is smaller |
| MoneyCalculator.Calculator.RoundMoney | MoneyCalculator.php:157-163 | InvalidAmount exactly for an invalid value; otherwise the given float formatting at the current precision |
| MoneyCalculator.PrecisionRoundTrip | MoneyCalculator.php:33-46 | after setting the precision to n, getting it returns n and the next addition works at n digits |
| Money.IsValidMoney | MoneyCalculator.php:55-58 | a text is valid exactly when it is a plain decimal |
| Money.ValidateInput | MoneyCalculator.php:172-177 | passes exactly when both operands are valid, else fails with InvalidAmount |
| Money.AddMoney | MoneyCalculator.php:68-72 | Ok exactly for two valid operands, InvalidAmount otherwise; the text is the exact sum cut toward zero to the precision |
| Money.SubtractMoney | MoneyCalculator.php:82-86 | the same for the exact difference |
| Money.MultiplyMoney | MoneyCalculator.php:96-100 | the same for the exact product |
| Money.IsZeroAt | MoneyCalculator.php:113 | the divisor guard holds exactly when the divisor cut to the precision is 0; a divisor that passes the guard has nonzero units, so a divisor of 0 units always trips it |
| Money.DivideMoney | MoneyCalculator.php:110-117 | InvalidAmount exactly for an invalid operand, ZeroDivisor exactly for a divisor that cuts to 0, else the exact quotient cut toward zero |
| Money.ModulusMoney | MoneyCalculator.php:127-134 | the division guards, then the bcmod value |
| Money.CompareMoney | MoneyCalculator.php:144-148 | the comparison of the operands cut to the precision, as -1, 0 or 1 |
| Money.RoundMoney | MoneyCalculator.php:157-163 | validation first, then the given formatting |
| Money.InvalidOperandFailsAll | MoneyCalculator.php:172-177 | any invalid operand makes every two-operand operation fail with InvalidAmount |
| Money.AddCommutative | MoneyCalculator.php:71 | add(a, b) and add(b, a) are the same result |
| Money.MultiplyCommutative | MoneyCalculator.php:99 | multiply(a, b) and multiply(b, a) are the same result |
| Money.AddZeroCuts | MoneyCalculator.php:71 | adding 0 returns the amount cut toward zero to the precision |
| Money.MultiplyOneCuts | MoneyCalculator.php:99 | multiplying by 1 returns the amount cut toward zero to the precision |
| Money.CutTwiceIsCutOnce | MoneyCalculator.php:71 | a result is valid input and adding 0 to it returns it unchanged |
| Money.SubtractSwapped | MoneyCalculator.php:85 | subtract(b, a) is subtract(a, b) with the sign flipped |
| Money.CompareReflexive | MoneyCalculator.php:147 | every valid amount compares equal to itself |
| Money.CompareAntisymmetric | MoneyCalculator.php:147 | swapping the operands negates the comparison |
| Money.CompareTransitive | MoneyCalculator.php:147 | a < b and b < c give a < c |
| Money.DivisorRefusedIff | MoneyCalculator.php:113-114 | division is refused exactly when the divisor is less than one unit of the last kept digit away from zero, so a nonzero divisor such as 0.001 is refused at precision 2 |
| Money.ModulusGuardIsDivideGuard | MoneyCalculator.php:130-131 | modulus fails exactly when division fails, with the same error |
| BcMath.Add | MoneyCalculator.php:71 | bcadd's units equal the exact sum cut toward zero to the scale |
| BcMath.Sub | MoneyCalculator.php:85 | bcsub's units equal the exact difference cut toward zero |
| BcMath.Mul | MoneyCalculator.php:99 | bcmul's units equal the exact product cut toward zero |
| BcMath.Div | MoneyCalculator.php:116 | bcdiv's units equal the exact quotient cut toward zero |
| BcMath.Comp | MoneyCalculator.php:147 | bccomp is -1, 0 or 1 as the operands cut to the scale compare |
| BcMath.ExactSum | MoneyCalculator.php:71 | the operands aligned to the larger scale add to a decimal worth exactly their sum |
| BcMath.ExactDifference | MoneyCalculator.php:85 | the same for the difference |
| BcMath.ExactProduct | MoneyCalculator.php:99 | the product of the units at the sum of the scales is worth exactly the product |
| BcMath.QuotientScaled | MoneyCalculator.php:116 | the quotient cut to the scale is the integer quotient of the two scaled units |
| BcMath.SubSwapped | MoneyCalculator.php:85 | swapping the operands of bcsub negates the result |
| BcMath.AddZero | MoneyCalculator.php:71 | bcadd with 0 cuts the amount |
| BcMath.MulOne | MoneyCalculator.php:99 | bcmul with 1 cuts the amount |
| Decimals.Parse | MoneyCalculator.php:57 | a text is read as an amount exactly when it is a plain decimal |
| Decimals.ParseValue | MoneyCalculator.php:57 | an accepted text denotes its sign applied to its whole digits plus its fraction digits over ten to the number of fraction digits |
| Decimals.ParseRender | MoneyCalculator.php:71 | a written result reads back as the same units at the same scale |
| Decimals.RenderShape | MoneyCalculator.php:71 | a result has a minus sign exactly when negative, no point at scale 0, and otherwise exactly scale digits after its only point; the digits before the point are at least one and have no leading zero unless there is just one |
| Decimals.Trunc | MoneyCalculator.php:71 | the integer cut of an amount equals the reference cut of its exact value |
| Decimals.TruncQuot | MoneyCalculator.php:116 | integer division toward zero equals the exact ratio cut toward zero |
| Decimals.CutIsIdempotent | MoneyCalculator.php:71 | an amount already at p digits is unchanged by cutting to p digits |
| Decimals.TruncNegated | MoneyCalculator.php:85 | cutting toward zero commutes with negation |
| Decimals.TruncZeroIff | MoneyCalculator.php:113 | an amount cuts to 0 exactly when it is less than one unit of the last kept digit from zero |
| Decimals.TruncBrackets | MoneyCalculator.php:71 | the cut lies between zero and the exact value, less than one unit from it |
| Decimals.ValueAsRatio | MoneyCalculator.php:71 | an amount is worth its units over 10 to the power of its scale |
| Decimals.NatToDigitsValue | MoneyCalculator.php:71 | the digits written for a number read back as that number |
| Decimals.DigitsValueAppend | MoneyCalculator.php:57 | reading two digit strings joined is the first one shifted by the length of the second, plus the second |
| Decimals.PlainBody | MoneyCalculator.php:57 | digits, then optionally a point and digits, with at least one digit, is the same as digits and points with at most one point and at least one digit |
| Scenarios.AddCutsTowardZero | MoneyCalculator.php:71 | add("10.005", "0.004") at precision 2 is "10.00" |
| Scenarios.SubtractGoesNegative | MoneyCalculator.php:85 | subtract("5.00", "7.50") at precision 2 is "-2.50" |
| Scenarios.MultiplyCutsTowardZero | MoneyCalculator.php:99 | multiply("3.333", "3") at precision 2 is "9.99" |
| Scenarios.MultiplyCutsOnce | MoneyCalculator.php:99 | multiply("0.005", "200") at precision 2 is "1.00" |
| Scenarios.DivideCutsTowardZero | MoneyCalculator.php:116 | divide("1.00", "3.00") at precision 2 is "0.33" |
| Scenarios.TinyDivisorRefused | MoneyCalculator.php:113-114 | divide("10.00", "0.001") at precision 2 fails with ZeroDivisor |
| Scenarios.TinyDivisorAcceptedAtThree | MoneyCalculator.php:113-116 | divide("0.01", "0.001") at precision 3 is "10.000" |
| Scenarios.CompareIgnoresTrailingZeros | MoneyCalculator.php:147 | compare("2.50", "2.5") at precision 2 is 0 |
| Scenarios.NegativeIsValid | MoneyCalculator.php:55-58 | "-0.07" is a valid amount |
| Scenarios.BarePointIsValid | MoneyCalculator.php:55-58 | "5." and ".5" are valid amounts |
| Scenarios.TwoPointsAreInvalid | MoneyCalculator.php:55-58 | "12.3.4" is not a valid amount |
| Scenarios.LettersAreInvalid | MoneyCalculator.php:55-58 | "abc" is not a valid amount |
| Scenarios.EmptyIsInvalid | MoneyCalculator.php:55-58 | "" is not a valid amount |
| Scenarios.NoDigitIsInvalid | MoneyCalculator.php:55-58 | "-" and "." are not valid amounts |

## Left out

- Money.IsValidMoney: accepts only plain decimal texts. `is_numeric` also accepts leading and trailing whitespace and exponent forms such as `1e3`. In PHP 8, BCMath refuses those texts with a `ValueError` in the arithmetic and comparison operations, which the model does not represent; the model reports them as invalid amounts instead.
- Operands are texts only. The PHP methods also take `int` and `float` values, which `is_numeric` accepts; such operands are not modelled.
- Money.RoundMoney: the formatting is a function parameter `formatFloat`. The source converts the text to a binary float and formats it with `number_format`, and floating point is not modelled. The validation is modelled, and it refuses texts that the source accepts and formats: `roundMoney` never calls BCMath, so `1e3` becomes `1000.00` and ` 5` becomes `5.00` at precision 2, where the model returns `InvalidAmount`.
- MoneyCalculator.Calculator.RoundMoney: refuses texts that the source accepts and formats, as `Money.RoundMoney` does: `1e3` and ` 5` give `InvalidAmount` here and `1000.00` and `5.00` in the source.
- MoneyCalculator.Calculator.SetPrecision: takes a `nat`. The PHP method takes any `int`. In PHP 8, BCMath refuses a negative scale with a `ValueError`, which the model does not represent. A scale above 2147483647 is also refused by BCMath with a `ValueError` in every arithmetic and comparison operation; the model returns a result there. The 64-bit width of PHP integers is not modelled either.
- Money.ModulusMoney: the remainder is a function parameter `bcmod`. The source calls `bcmod` without a scale, so the result depends on the process-wide `bcscale()` setting, which the model cannot see. The validation and the zero guard are modelled.
- The exception messages are not modelled. The two failures are told apart only by the kinds `InvalidAmount` and `ZeroDivisor`.
- Trait composition, and sharing one calculator between threads, are not modelled.
- A zero result is always written without a minus sign, as BCMath writes it. The model does not cover older BCMath releases that could write `-0.00`.
