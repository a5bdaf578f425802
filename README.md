# humanround, modelled in Dafny

`humanround` rounds a number to a value a person would write down. `Round(f, options...)` works in four steps:

1. It chooses a number of decimal places from the size of `f`:
   - 3 places below 1;
   - 2 places below 10;
   - 1 place below 100;
   - `2 - log10 f`, truncated toward zero, from 100 upward.
2. When fewer than two places are kept, it snaps `f` to its floor or ceiling if that whole number ends in the digit 0.
3. With the unit `Inch`, it snaps to the nearest whole, half, quarter or eighth. The candidates are tried in order, and the first one wins a tie.
4. It rounds half up at the chosen number of places.

The model works over exact `real` numbers. It is the exact-arithmetic intent of the `float64` code:

- `math.Log10` becomes the integer exponent `k` with `10^k <= f < 10^(k+1)`.
- `math.Pow(10, p)` and the products and quotients by it become `Scale(x, p)`, which is `x * 10^p`, computed by repeated multiplication or division by ten.
- `math.Floor` and `math.Ceil` become `Floor` and `Ceil`.
- Go's float-to-int conversion becomes `Trunc`, which truncates toward zero.
- `strconv.Itoa` and `strings.HasSuffix` are modelled as text: `Digits`, `Itoa` and `HasSuffix`.

Files:

- `powers.dfy` (module `Powers`): decimal scaling, powers of ten, and the floor of log10.
- `decimal_text.dfy` (module `DecimalText`): decimal text of integers and the suffix test.
- `humanround.dfy` (module `HumanRound`):
  - the option record and `WithUnit`;
  - precision selection and round-number preference;
  - `nearest`, as the method `Nearest` with its specification `Closest`;
  - `roundInches`, `roundToPrecision`;
  - `Round`, as a method, with its specification function `Rounded`.
- `humanround_properties.dfy` (module `HumanRoundProperties`): theorems about the whole of `Round`. These include idempotence without the inch pass, how far the result lies from its input, and the shape of inch results.
- `humanround_test.dfy` (module `HumanRoundTest`): every case of the repository's test table, proved about the model.

### Where the model departs from the specification text

The specification treats zero and negative inputs as out of scope. It asks for them to be rejected or special-cased, and for `log10(0)` to be avoided. The code does neither of these. Every input below 1, zero and negatives included, takes the 3-places branch, and `math.Log10` is reached only from 100 upward. The model follows the code, so `Round` is total on the reals.

The specification claims idempotence only for values of 10 and more. Without the inch pass it holds for every real in the exact model (`RoundedIdempotent`).

The specification mentions a second, historical snapping rule that sends 1022 to 1000. The code implements only the string-suffix rule, which sends 1022 to 1020, and that is what is modelled.

## Model

| member | source | states |
|---|---|---|
| Powers.Pow10 | humanround.go:88 | the shift `math.Pow(10, p)` is positive for every integer exponent, negative ones included |
| Powers.ScaleIsProduct | humanround.go:88-89 | scaling by ten p times is the product `f * 10^p` (division for negative p) |
| Powers.Log10Floor | humanround.go:40 | for f >= 1, the whole part k of log10 f: `10^k <= f < 10^(k+1)` |
| Powers.Log10FloorUnique | humanround.go:40 | that exponent is the only integer bracketing f that way |
| DecimalText.DigitsRoundTrip | humanround.go:43 | the digit string used for `strconv.Itoa` reads back to the number it renders |
| DecimalText.DigitsEndInZero | humanround.go:43-47 | the digits of a natural number end in "0" exactly when it is a multiple of ten |
| DecimalText.ItoaEndsInZero | humanround.go:43-47 | `strconv.Itoa(n)` ends in "0" exactly when n is a multiple of ten, for negative n as well |
| HumanRound.Floor | humanround.go:43-44 | `math.Floor`: the integer n with n <= x < n + 1 |
| HumanRound.Ceil | humanround.go:46-47 | `math.Ceil`: the integer n with x <= n < x + 1 |
| HumanRound.Trunc | humanround.go:40 | `int(x)` truncates toward zero: below x by less than one for x >= 0, above x by less than one for x <= 0 |
| HumanRound.Precision | humanround.go:31-41 | precision is at most 3; it is 3 exactly when f < 1; otherwise f lies in the band `[10^(2-p), 10^(3-p))`, which gives 2 on [1,10), 1 on [10,100), and p <= 0 from 100 up |
| HumanRound.PrecisionMatchesLog10 | humanround.go:40 | for f >= 100 and any log10 value in `[k, k+1)` with `10^k <= f < 10^(k+1)`, truncating `2 - log` gives the modelled precision `2 - k` |
| HumanRound.PrecisionOfBand | humanround.go:31-41 | every f in the band of p gets precision p (the converse of the band property) |
| HumanRound.PrecisionAntitone | humanround.go:31-41 | a larger input never keeps more decimal places |
| HumanRound.EndsInZero | humanround.go:43-47 | the suffix test on `strconv.Itoa(n)` holds exactly when n % 10 == 0 |
| HumanRound.PreferRound | humanround.go:42-48 | at precision >= 2 nothing changes; below 2, f becomes floor(f) when that is a multiple of ten, else ceil(f) when that is, else stays; a changed value is a whole multiple of ten; the result is less than 1 from f |
| HumanRound.Dist | humanround.go:79 | `math.Abs(val - t)` is non-negative and is one of the two differences |
| HumanRound.FirstNearestIndex | humanround.go:76-83 | for non-empty targets, a position whose distance to val is minimal and strictly less than that of every earlier position (first wins a tie) |
| HumanRound.FirstNearestIndexUnique | humanround.go:76-83 | any position that is minimal and strictly closer than all earlier ones is that position |
| HumanRound.Closest | humanround.go:72-85 | with no targets the result is val; otherwise it is one of the targets, at the least distance from val |
| HumanRound.Nearest | humanround.go:72-85 | the loop of `nearest` returns exactly `Closest(val, targets)` |
| HumanRound.InchDenominator | humanround.go:59-69 | the fraction chosen by precision is 1, 2, 4 or 8 (halves at 1, wholes at 0, quarters at 2, eighths otherwise) |
| HumanRound.InchTargetsAreFractions | humanround.go:57-70 | each literal candidate list is `floor + j/d` for j = 0 .. d, in increasing order |
| HumanRound.NearFraction | humanround.go:57-70 | for f in [floor, floor + 1), some `floor + j/d` with 0 <= j <= d lies within 1/(2d) of f |
| HumanRound.RoundInches | humanround.go:57-70 | the result is `floor(f) + j/d` for some 0 <= j <= d and lies within 1/(2d) of f |
| HumanRound.RoundToPrecision | humanround.go:87-90 | the result has at most p decimal places (times 10^p it is whole) and lies in `(f - h, f + h]` for h = 0.5 * 10^-p, so halves go up |
| HumanRound.RoundToPrecisionUnique | humanround.go:87-90 | it is the only value with at most p places in that interval |
| HumanRound.RoundToPrecisionFixes | humanround.go:87-90 | a value that already has p places is returned unchanged |
| HumanRound.RoundToPrecisionMonotone | humanround.go:87-90 | rounding preserves order |
| HumanRound.ApplyAllLastWins | humanround.go:20-30 | applying the `WithUnit` options in order leaves the unit of the last one, and "" when there are none |
| HumanRound.Rounded | humanround.go:26-54 | the result of Round has at most `Precision(f)` decimal places |
| HumanRound.Round | humanround.go:26-54 | the method (options loop, precision switch, snapping steps in sequence, unit switch, final rounding) returns `Rounded(f, unit of the last option)` |
| HumanRoundProperties.RoundedIgnoresOtherUnits | humanround.go:49-53 | every unit other than Inch, "" included, gives the same result |
| HumanRoundProperties.RoundedNear | humanround.go:42-53 | without Inch, the result is within half a step of f when no snapping can happen, and within 1 plus half a step otherwise |
| HumanRoundProperties.PreferRoundKeepsWhole | humanround.go:42-48 | a whole number is never moved by the round-number preference |
| HumanRoundProperties.RoundedStaysInBand | humanround.go:31-53 | without Inch, the result stays in the closed band `[10^(2-p), 10^(3-p)]` of the input's precision |
| HumanRoundProperties.PreferRoundKeepsRounded | humanround.go:42-48 | a value produced by the final rounding is not moved by the round-number preference at that precision |
| HumanRoundProperties.RoundedIdempotent | humanround.go:26-54 | without Inch, rounding a rounded value gives it back, for every real input |
| HumanRoundProperties.RoundedKeepsInBand | humanround.go:26-54 | without Inch, a rounded value below the top of its input's band is returned unchanged by Round |
| HumanRoundProperties.RoundedKeepsPower | humanround.go:26-54 | without Inch, a power of ten of at least 1 is returned unchanged by Round |
| HumanRoundProperties.FractionHasPlaces | humanround.go:57-70 | `floor + j/d` has at most p decimal places when d is the inch denominator of p (0 <= p <= 3) |
| HumanRoundProperties.RoundInchesHasPlaces | humanround.go:57-70 | at precision 0 to 3 the result of roundInches has at most that many decimal places, so the final rounding at humanround.go:53 keeps it |
| HumanRoundProperties.RoundedInchIsFraction | humanround.go:49-53 | with Inch below 1000, the final rounding keeps the inch fraction: the result is `floor + j/d` of the snapped value |
| HumanRoundTest.FiftyPointEight | humanround_test.go:11-14 | Round(50.8) == 50 |
| HumanRoundTest.TwoAndAQuarterInches | humanround_test.go:15-19 | Round(2.26796, WithUnit(Inch)) == 2.25 |
| HumanRoundTest.OneEighthInch | humanround_test.go:20-24 | Round(0.13, WithUnit(Inch)) == 0.125 |
| HumanRoundTest.ThirtyTwoAndAHalfInches | humanround_test.go:25-29 | Round(32.26796, WithUnit(Inch)) == 32.5 |
| HumanRoundTest.TwoPointTwoSeven | humanround_test.go:30-33 | Round(2.26796) == 2.27 |
| HumanRoundTest.FourFiftyFour | humanround_test.go:34-37 | Round(453.592) == 454 |
| HumanRoundTest.TenTwenty | humanround_test.go:38-41 | Round(1022) == 1020 |
| HumanRoundTest.FiftyThreeEighty | humanround_test.go:42-45 | Round(5375) == 5380 |
| HumanRoundTest.FiftyThreeThousandEightHundred | humanround_test.go:46-49 | Round(53750) == 53800 |
| HumanRoundTest.FiftyFiveThousandSixHundred | humanround_test.go:50-53 | Round(55555) == 55600 |
| HumanRoundTest.InchHalfTieGoesDown | humanround.go:76-83 | for every whole n, n + 0.25 at one place is halfway between the candidates n and n + 0.5 and goes to n, the earlier one, because only a strictly smaller distance replaces the kept candidate |
| HumanRoundTest.InchTieSurvivesRounding | humanround.go:49-53 | the final half-up rounding keeps that tie's result: Round(22.25, WithUnit(Inch)) == 22, where rounding half up alone would give 22.3 |

## Left out

- Floating point: the model is exact. `math.Log10` can be inexact near powers of ten (giving a different precision), `math.Pow(10, p)` is inexact for negative p, and `f*shift` and `/shift` round; none of these artefacts are modelled.
- NaN and infinite inputs are not modelled, nor the overflow of `int(math.Floor(f))` and `int(math.Ceil(f))` for huge f; the model uses unbounded integers.
- Nearest: the `math.MaxFloat64` starting distance is modelled as a flag meaning "no distance seen yet", which lies above every distance; the model does not capture a distance that would itself equal `math.MaxFloat64`.
- Round: the `opts` record behind a pointer, updated by option closures, is modelled as a record value that each `WithUnit` option replaces; aliasing of the pointer is not modelled, as it never escapes Round.
- RoundedIdempotent: stated without the inch pass only; with Inch, idempotence is not claimed.
- RoundedNear: stated without the inch pass only; with Inch the distance bound is that of RoundInches plus the final rounding, not stated as one lemma.
- RoundedInchIsFraction is stated for inputs below 1000 (precision >= 0), where the final rounding keeps the inch fraction; from 1000 up the code snaps to eighths and then rounds to tens, which the model computes but no lemma describes further.
