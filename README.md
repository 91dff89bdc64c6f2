# Measurement: values with uncertainties, and the speed-of-sound lab

This project models the `Measurement` type of a physics-lab toolkit in Dafny. A measurement has:

- a central value and its uncertainty;
- a display precision: decimals and significant digits for the value, and significant digits for the uncertainty.

The model covers:

- the constructor, which derives whichever precision field was not given;
- the arithmetic operators, which propagate uncertainties to first order;
- the comparison operators, which look at the central value only;
- `str()`, which prints `value ± uncertainty` to the stored precision.

On top of that type it models the two calculations of the speed-of-sound lab:

- `sound_velocity`: the mean of c = 2 f L / (n + 1) over the positive resonance frequencies f of a tube of length L;
- `gamma`: the adiabatic index M c² / (R T).

Files:

- `wrappers.dfy`: `Option`.
- `numerals.dfy` (module `Numerals`): decimal digits. It also holds Python's `str(int)`, `int(str)` and `str.split`, and the fixed-point numeral mpmath prints.
- `measurement.dfy` (module `Measurements`): the `Measurement` type.
- `lab3.dfy` (module `Lab3`): `sound_velocity` and `gamma`.

Values are exact reals. Three pieces of mpmath are library code: `mp.sqrt`, `str()` of an mpf, and `mp.nstr`. They are the fields of a `Context` value that every operation needing them takes as a parameter. The quadrature results assume only that `sqrt` returns the non-negative square root (`ExactSqrt`).

A Python operator call has three outcomes, modelled by `Outcome`:

- it returns a measurement;
- it falls through its `isinstance` tests and returns `None`, for an unsupported operand;
- it raises. For finite operands and, in `str()`, digit counts of at least 1, the model covers every raise the modelled code can reach:
  - the constructor's exception when no precision is given;
  - `ZeroDivisionError` from a relative uncertainty `u / value` when a value is 0 (`*`, `/`);
  - `ZeroDivisionError` from a plain divisor of 0 (`m / 0`);
  - `ZeroDivisionError` from 0 to a non-positive power, through `0**(k-1)`;
  - `ZeroDivisionError` from `sum([])/len([])` when no frequency is positive in `sound_velocity`.

## Model

| member | source | states |
|---|---|---|
| Measurements.New | classes.py:13-40 | Raises exactly when neither precision is given. Keeps value and uncertainty. The uncertainty digits default to 1. A significant-digit count wins over decimals and gives 0 decimals exactly when `str(value)` has no point or the count does not reach past the integer part. Decimals 0 give `len(str(int(floor(value))))` significant digits. Whenever decimals are positive, significant digits = integer-part characters + decimals. With decimals alone, for any decimals, the significant digits are the ones derived from them. |
| Measurements.ShorthandsAreNew | classes.py:13-40 | The one-argument constructor calls the operators make (`v_decimals=` or `v_significant_digits=`) are `New` with that argument only, and never raise. |
| Measurements.IntPartLen | classes.py:27-28 | `len(str(value).split('.')[0])` is the position of the first point in `str(value)`, or its whole length when there is no point. |
| Measurements.DecimalsRoundTrip | classes.py:27-35 | Positive decimals → significant digits → decimals gives the same decimals when `str(value)` shows a point. |
| Measurements.WholeRoundTrip | classes.py:23-35 | Zero decimals round-trip when the part before the point is `str(int(floor(value)))`. |
| Measurements.SigDigitsRoundTrip | classes.py:27-35 | Significant digits past the integer part → decimals → significant digits gives the same count. |
| Measurements.NegativeValueRoundTripFails | classes.py:23-35 | For -9.5, decimals 0 give 3 significant digits (`"-10"`), which give back 1 decimal: the round trip fails for a negative non-integer. |
| Measurements.Add | classes.py:55-73 | Returns None exactly for an unsupported operand and never raises. The value is the sum of the central values. A measurement operand takes the smaller decimals. A plain number keeps the uncertainty and decimals. The significant digits are the ones the constructor derives from those decimals (`len(str(int(floor(value))))` for 0 decimals). |
| Measurements.AddQuadrature | classes.py:58 | The sum's uncertainty is non-negative and its square is the sum of the operands' squared uncertainties. |
| Measurements.AddCommutes | classes.py:55-73 | `a + b` and `b + a` give the same measurement. |
| Measurements.ScalarAddIsExactAdd | classes.py:55-63 | Adding or subtracting a plain number k is adding or subtracting an exact measurement of value k with uncertainty 0. |
| Measurements.Sub | classes.py:75-83 | As `Add`, with the difference of the central values, including the derived significant digits. |
| Measurements.SubUncertaintyIsAddUncertainty | classes.py:75-79 | `a - b` has the same uncertainty as `a + b`. |
| Measurements.RSubAsWritten | classes.py:85-93 | `__rsub__` as written: None exactly for an unsupported operand, never raises, and the value is m's value minus the left operand's. With a plain number the uncertainty and decimals are m's. |
| Measurements.RSubAsWrittenSwapsOperands | classes.py:91-93 | As written, `10 - m` with m = 3 yields -7 where 10 - 3 = 7. |
| Measurements.RSub | classes.py:85-93 | Corrected `__rsub__`: the value is the left operand's central value minus m. With a plain number the uncertainty and decimals are kept. Never raises. The significant digits are derived from the decimals. |
| Measurements.RSubIsExactSub | classes.py:85-93 | Corrected `k - m` is `exact(k) - m` for the exact measurement of k. |
| Measurements.Mul | classes.py:95-115 | Returns None exactly for an unsupported operand. With two measurements it raises exactly when either value is 0, and keeps the smaller significant digits. With a plain number it never raises, scales the uncertainty by abs(k) and keeps the significant digits. The value is the product of the central values. The decimals are the ones the constructor derives from the significant digits. |
| Measurements.MulRelativeQuadrature | classes.py:98 | For non-zero values, the product's squared relative uncertainty is the sum of the operands' squared relative uncertainties, and its uncertainty is non-negative. |
| Measurements.MulCommutes | classes.py:95-99 | `a * b` and `b * a` give the same outcome. |
| Measurements.MulScalarKeepsRelative | classes.py:101-104 | Scaling by a non-zero number keeps the relative uncertainty. |
| Measurements.Div | classes.py:117-126 | Returns None exactly for an unsupported operand. With a measurement divisor it raises exactly when either value is 0; with a plain divisor, exactly when it is 0. The value is the quotient of the central values. The precision follows `Mul`, including the derived decimals, and a plain divisor divides the uncertainty by abs(k). |
| Measurements.DivRelativeQuadrature | classes.py:120 | For non-zero values, the quotient's squared relative uncertainty is the sum of the operands'. |
| Measurements.DivScalarKeepsRelative | classes.py:123-126 | Dividing by a non-zero number keeps the relative uncertainty. |
| Measurements.RDivAsWritten | classes.py:128-137 | `__rtruediv__` as written: None exactly for an unsupported operand, raises as `Div` does, and the value is m's value over the left operand's. With a plain number the uncertainty is m's divided by abs(k), and the significant digits are m's. |
| Measurements.RDivAsWrittenSwapsOperands | classes.py:134-137 | As written, `10 / m` with m = 2 yields 0.2 where 10 / 2 = 5. |
| Measurements.RDiv | classes.py:128-137 | Corrected `__rtruediv__`: the value is the left operand's central value over m. It raises exactly when m or a measurement on the left has value 0. With a plain number the significant digits are kept. The decimals are derived from the significant digits. |
| Measurements.RDivIsExactDiv | classes.py:128-137 | Corrected `k / m` is `exact(k) / m` for the exact measurement of k. |
| Measurements.Pow | classes.py:139-143 | Returns None exactly when the exponent is not a plain number. It raises exactly when the value is 0 and the exponent is not positive, because `0**(k-1)` divides by zero. It keeps the significant digits, and the decimals are the ones the constructor derives from them. |
| Measurements.Power | classes.py:141-142 | `x ** n` for an integer n: the n-fold product for n ≥ 0, and the inverse of the (-n)-fold product for n < 0. |
| Measurements.PowFields | classes.py:141-142 | The value is v^k and the uncertainty is abs(k · v^(k-1)) · u. |
| Measurements.PowRelativeUncertainty | classes.py:142 | The power rule: uncertainty · abs(v) = abs(k) · abs(v^k) · u. |
| Measurements.PowRelative | classes.py:139-143 | For v ≠ 0, the squared relative uncertainty of `m**k` is k² times m's. |
| Measurements.PowOneIsIdentity | classes.py:139-143 | `m**1` has m's value and uncertainty. |
| Measurements.SquareVersusSelfProduct | classes.py:95-143 | `m**2` carries sqrt 2 times the uncertainty of `m*m`, which treats its two factors as independent. |
| Measurements.Lt | classes.py:145-149 | None exactly for an unsupported operand; otherwise true iff the value is below the central value. |
| Measurements.Le | classes.py:151-155 | As `Lt`, with ≤. |
| Measurements.Eq | classes.py:157-161 | As `Lt`, with =. |
| Measurements.Ne | classes.py:163-167 | As `Lt`, with ≠. |
| Measurements.Gt | classes.py:169-173 | As `Lt`, with >. |
| Measurements.Ge | classes.py:175-179 | As `Lt`, with ≥. |
| Measurements.ComparisonsIgnoreUncertainty | classes.py:145-179 | Two measurements with equal values compare the same to every operand. |
| Measurements.ComparisonLaws | classes.py:145-179 | Lt/Gt and Le/Ge are converses. Ne is the negation of Eq, and Eq is symmetric. Le is Lt or Eq. The order is total. Comparing with a measurement is comparing with its value. |
| Measurements.ShownText | classes.py:53 | Neither side of the rendering contains the ± sign. |
| Measurements.ReadsAsOneMeaning | classes.py:46-47 | The `(1, 0)` / `(0, 1)` test holds exactly for the uncertainty 1 and for one unit in its last printed place (0.1, 0.01, …). |
| Measurements.RenderParts | classes.py:42-51 | For digit counts of at least 1: an uncertainty reading as one is re-printed with one more digit. The uncertainty is printed with its trailing zeros stripped, and the value without stripping. A whole uncertainty makes both sides integers: the uncertainty exactly, and the value rounded to nearest within 0.5, ties to the even integer. Otherwise both numerals are shown as printed. |
| Measurements.Render | classes.py:53 | For digit counts of at least 1, `str(m)` splits at ± into exactly the two rendered sides. |
| Measurements.JoinSides | classes.py:53 | The f-string `f'{a} ± {b}'` splits at ± back into `a + " "` and `" " + b`. |
| Numerals.IntToString | classes.py:24 | `str(i)` has length `IntLen(i)` and parses back to i with `int()`. |
| Numerals.ParseNat | classes.py:46 | `int()` of an unsigned string succeeds exactly on a non-empty run of digits. |
| Numerals.ParseInt | classes.py:46 | `int()` succeeds exactly on an optional sign followed by a non-empty run of digits. A negative result needs a leading `-`, and a positive one has none. |
| Numerals.ParseDigitText | classes.py:46 | A digit string parses back to the number its digits denote. |
| Numerals.DigitCountBounds | classes.py:24 | A number printed with k digits lies in [10^(k-1), 10^k). |
| Numerals.NatDigits | classes.py:24 | The decimal digits of n denote n and number `DigitCount(n)`. |
| Numerals.Split | classes.py:27 | `str.split`: no piece contains the separator, and joining the pieces with it gives the string back. |
| Numerals.SplitFirst | classes.py:34 | The first piece of a split is the text before the first separator, or the whole text when there is none. |
| Numerals.SplitWithoutSeparator | classes.py:33-37 | Without the separator, `split` returns the whole string. |
| Numerals.SplitAtSeparator | classes.py:34 | Splitting `a + sep + b` gives `[a, b]` when neither part contains sep. |
| Numerals.ShowSplits | classes.py:46 | A printed fixed-point numeral splits at its point into its whole digits (with sign) and its fraction digits. |
| Numerals.WholeInt | classes.py:46 | `u1`: the part before the point parses to the signed whole part. |
| Numerals.FractionInt | classes.py:46 | `u2`: the part after the point parses to the fraction digits' value, below 10^(number of digits). |
| Numerals.StripZeros | classes.py:44 | `strip_zeros=True` drops the fraction's trailing zeros but keeps one digit after the point. It leaves the sign, the whole part and the value unchanged. |
| Numerals.TrimZerosValue | classes.py:44 | Dropping trailing fraction zeros keeps the fraction's value. |
| Numerals.NumeralIntegerIff | classes.py:49 | A numeral's value is an integer exactly when its fraction digits are all zero, and then it equals the signed whole part. |
| Numerals.Trunc | classes.py:51 | `int(x)` truncates toward zero. |
| Numerals.NearestInt | classes.py:50 | `mp.nint` is within 0.5 of x and rounds ties to even. |
| Lab3.PositiveIndicesSound | lab_3.py:10 | Every kept position is in range and holds a frequency with a positive value. |
| Lab3.PositiveIndicesComplete | lab_3.py:10 | Every frequency with a positive value is kept. |
| Lab3.PositiveIndicesIncreasing | lab_3.py:10 | The kept positions are in list order. |
| Lab3.TermValuesAtPositions | lab_3.py:10 | Term j is 2 f L / (n + 1) for the j-th kept frequency f at its position n in the full list. |
| Lab3.Term | lab_3.py:10 | `2*f*tube_length/(n + 1)` raises exactly when the tube length is 0; otherwise its value is 2 f L / (n + 1). |
| Lab3.TermRelativeUncertainty | lab_3.py:10 | A term's squared relative uncertainty is the frequency's plus the tube length's. |
| Lab3.Velocities | lab_3.py:10 | The list comprehension raises exactly when the tube length is 0 and some frequency is positive. When it returns, there is one velocity per positive frequency. |
| Lab3.VelocitiesValues | lab_3.py:10 | When it returns, the list's values are the term values at the kept positions. |
| Lab3.Sum | lab_3.py:11 | `sum()` of a non-empty list of measurements has the sum of the values and the smallest of their decimals. |
| Lab3.SumQuadrature | lab_3.py:11 | The sum's squared uncertainty is the sum of the squared uncertainties. |
| Lab3.Mean | lab_3.py:11 | `sum(vs)/len(vs)` raises exactly for the empty list; otherwise its value is the arithmetic mean. |
| Lab3.MeanIsQuotient | lab_3.py:11 | The mean's uncertainty is the sum's uncertainty divided by the count. |
| Lab3.MeanUncertainty | lab_3.py:11 | The mean's squared uncertainty times n² is the sum of the squared uncertainties. |
| Lab3.SoundVelocity | lab_3.py:8-11 | `sound_velocity` raises exactly when no frequency is positive or the tube length is 0. It never returns None. |
| Lab3.SoundVelocityIsMean | lab_3.py:8-11 | Its value is the mean of 2 f L / (n + 1) over the positive frequencies. |
| Lab3.SoundVelocityUncertainty | lab_3.py:8-11 | Its uncertainty is the quadrature sum of the terms' uncertainties over their count. |
| Lab3.GammaNumerator | lab_3.py:15 | `molar_mass*(sound_velocity**2)` has value c² M. |
| Lab3.GammaDenominator | lab_3.py:15 | `R_CONSTANT*TEMPERATURE` has value T R. |
| Lab3.Gamma | lab_3.py:13-15 | `gamma` raises exactly when c, M, R or T is 0; otherwise its value is M c² / (R T). |
| Lab3.SquareValue | lab_3.py:15 | `c**2` never raises and has value c · c. |
| Lab3.GammaRelativeUncertainty | lab_3.py:13-15 | gamma's squared relative uncertainty is 4 times the velocity's plus the temperature's. The constants M and R carry none. |

## Left out

- Precision: mpmath works at 100 decimal places (`mp.dps = 100`), and its rounding is not modelled. Every operation is on exact reals.
- `mp.sqrt`, `str()` of an mpf and `mp.nstr`: these are library code, taken as `Context` parameters. The context gives `nstr` without zero stripping, which can end in a bare point (`"295."`). The stripped form is `StripZeros` of it, as in mpmath. So the characters before the point of `str(value)`, and the digits nstr rounds to, are whatever the context returns. Quadrature results assume an exact square root.
- Floats: an operand given as a Python float is taken as its exact real value. Binary floating-point representation is not modelled. Neither are non-finite values: `inf` or `nan` has no real value, and `int(mp.floor(inf))` at 0 decimals raises in the source.
- Measurements.RenderParts: requires both digit counts to be at least 1. The constructor stores any `u_significant_digits`, and with a count below 1 mpmath prints no digit before the point (`".0"`, `".0e+2"`). The fixed-point numeral of the context cannot hold that text. For the uncertainty, `int('')` then raises `ValueError`, which the model does not return.
- Measurements.Render: the same requirement as `RenderParts`, for the same reason.
- Constructor inputs: parsing a value or uncertainty from text (`mpf(str)`) is not modelled. `Measurements.New` takes the numbers themselves.
- `int()` forms: the forms Python's `int()` also accepts (surrounding whitespace, `_` separators, non-ASCII digits) are not modelled. mpmath never prints them.
- Measurements.Pow: only integer exponents are modelled. A fractional exponent (a real power through mpmath) is out of scope, and the contract requires the exponent to be an integer when it is a plain number.
- Measurements.Pow: the value and uncertainty it computes are stated by `PowFields` and `PowRelativeUncertainty`, not in its own contract.
- Error order: Python evaluates the comprehension left to right, so it stops at the first failing term. The model reports the first failure too. Every failure here is the same division by zero, so the order is not observable in the result.
- Lab3.Sum: requires a non-empty list. `sum([])` is the int 0, and the division `0/0` that follows is handled by `Lab3.Mean`.
- Lab3.Gamma: `R_CONSTANT` and `TEMPERATURE` are module globals set in the script's `__main__` block; here they are parameters.
- Lab3.Gamma: the uncertainty of gamma is stated only in relative form, by `GammaRelativeUncertainty`.
- Not modelled:
  - the script's `__main__` block: CSV reading, the tube-length and temperature constants, printing;
  - the other lab scripts;
  - the numpy-based helpers;
  - the test files.

## Findings

| source | as written | input that shows it | evidently intended | confidence | as-written member | corrected member |
|---|---|---|---|---|---|---|
| classes.py:91-93 | `__rsub__` with a plain number computes `self.value - other`, i.e. m - k | `10 - m` with m.value = 3 gives -7 | `other - self.value`, i.e. k - m = 7 | not executed | Measurements.RSubAsWritten, Measurements.RSubAsWrittenSwapsOperands | Measurements.RSub, Measurements.RSubIsExactSub |
| classes.py:134-137 | `__rtruediv__` with a plain number computes `self.value/other`, i.e. m / k, and divides the uncertainty by abs(k) | `10 / m` with m.value = 2 gives 0.2 | `other/self.value`, i.e. k / m = 5, with the relative uncertainty of m | not executed | Measurements.RDivAsWritten, Measurements.RDivAsWrittenSwapsOperands | Measurements.RDiv, Measurements.RDivIsExactDiv |
