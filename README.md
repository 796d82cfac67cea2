# Execution segments of k6, modelled in Dafny

k6 divides the work of one load test among several instances by giving each
instance an *execution segment*. A segment is a half-open fraction (from, to]
of the whole run, with 0 <= from < to <= 1. It is held as exact rationals and
also stores length = to - from. A nil segment stands for the whole run,
(0, 1]. This project models the segment code in `lib/execution_segment.go`:

- validated construction;
- reading segments from text (`"1/2:3/4"`, `"50%:75%"`, the shorthand
  `"20%"` for `0:20%`) and printing them;
- equal splitting;
- numeric equality;
- composition of a segment inside another (SubSegment);
- scaling integer and rational amounts of work to a segment's share.

The central property is conservation. Each instance scales an integer amount
(VUs, iterations) to its own share, knowing only its own segment. Over
segments that cover the run exactly, the shares add up to the whole amount:
no unit is lost or counted twice.

Modules:

- `Wrappers` (`wrappers.dfy`): `Option` and `Result`, for Go's `(value, ok)`
  and `(value, error)` pairs.
- `Rationals` (`rationals.dfy`): fractions `Rat(num, den)` as the written form
  of big.Rat values, with their value `Val`, `Gcd` and reduction to lowest terms.
- `RatText` (`rat_text.dfy`): decimal text for integers and fractions. It is the
  part of big.Int/big.Rat `SetString` and `RatString` that segments rely on.
- `Segments` (`segment.dfy`): the segment value and its invariant,
  `NewExecutionSegment`, `Equal`, `SubSegment`, and the `Chain` predicate for
  segments laid end to end.
- `Splitting` (`split.dfy`): `Split`, an imperative loop filling an array.
- `SegmentText` (`segment_text.dfy`): `stringToRat`, parsing, and the
  `ExecutionSegment` receiver whose `UnmarshalText` overwrites it only on
  success. It also holds `String` and `MarshalText`.
- `Scaling` (`scale.dfy`): `roundUp` and `Scale`, the conservation theorems,
  and `InPlaceScaleRat`/`CopyScaleRat` over a mutable `BigRat` object.

Segment bounds are Dafny `real`s, which are exact rationals. A nil segment is
the `Whole` constructor.

Where the code and its comments differ, the model follows the code:

- Empty text is an error, although the comment at
  `lib/execution_segment.go:111` suggests it should mean the whole run.
- `roundUp` truncates toward zero for negative values; it does not round them
  to the nearest integer. Inside `Scale` a negative amount makes both of its
  arguments at most zero, so both round up (to the ceiling). The shares of a
  negative amount are therefore ceil(v * to) - ceil(v * from), not the mirror
  image of the shares of -v, and they still add up to v over any cover of
  the run.

## Model

| member | source | states |
|---|---|---|
| `Segments.Valid` | lib/execution_segment.go:45-50 | the invariant: 0 <= from < to <= 1 and length = to - from; the nil segment, read as (0, 1] of length 1, keeps it too |
| `Segments.NewExecutionSegment` | lib/execution_segment.go:64-79 | succeeds exactly when 0 <= from < to <= 1; then the segment holds from, to and length = to - from exactly; otherwise it reports from < 0, from >= to or to > 1, checked in that order |
| `Segments.Equal` | lib/execution_segment.go:199-211 | true exactly when both bounds agree numerically, nil read as (0, 1] |
| `Segments.EqualIsEquivalence` | lib/execution_segment.go:199-211 | Equal is reflexive, symmetric and transitive, and nil equals an explicit (0, 1] |
| `Segments.SubSegment` | lib/execution_segment.go:219-238 | a nil child returns the parent itself; otherwise from = parent from + parent length * child from and length = parent length * child length, a nil parent read as from 0 and length 1, and to = from + length |
| `Segments.SubSegmentValid` | lib/execution_segment.go:213-238 | a valid child of a valid parent is a valid segment (0 <= from < to <= 1) lying inside the parent, with to = parent from + parent length * child to |
| `Segments.SubSegmentAssociative` | lib/execution_segment.go:213-238 | nesting sub-segments gives the same segment, by Equal, as composing the fractions first |
| `Segments.SubSegmentOfWhole` | lib/execution_segment.go:224-227 | a sub-segment of the nil parent equals the child |
| `Segments.SubSegmentExample` | lib/execution_segment.go:213-214 | (1/2, 1] with child (0, 1/2] gives (1/2, 3/4] |
| `Splitting.Split` | lib/execution_segment.go:164-193 | fails exactly when numParts < 1; otherwise returns numParts parts, part i running from from + i*inc to from + (i+1)*inc (by `Boundary`) with length inc = (to - from)/numParts, a nil segment read as (0, 1]; the parts are valid and chain from the segment's start to its end |
| `Splitting.BoundaryFormula` | lib/execution_segment.go:178-186 | after i steps the accumulator stands at from + i * inc |
| `Splitting.StepInside` | lib/execution_segment.go:179-183 | every part the loop builds passes NewExecutionSegment's validation, so that error path cannot be taken |
| `Splitting.EndReached` | lib/execution_segment.go:188-190 | numParts increments end exactly at to, so the final consistency check never fails |
| `Splitting.PartsChain` | lib/execution_segment.go:177-192 | equal parts built this way cover the segment end to end with shared boundaries |
| `RatText.ParseInt` | lib/execution_segment.go:85 | big.Int's base-10 SetString accepts exactly an optional sign followed by one or more digits |
| `RatText.ParseRat` | lib/execution_segment.go:91 | big.Rat's SetString over integers, decimals "i.f" and fractions "n/d" split at the first '/'; text it accepts holds only digits, signs, '.' and '/' and ends in a digit; the value of every accepted form is stated by `RatText.IntegerValue` (signed integers, leading zeros allowed), `RatText.DecimalValue`, `RatText.NegativeDecimalValue` and `RatText.PlusDecimalValue` (decimals with each sign prefix) and `RatText.SignedFractionValue` (signed fractions) |
| `RatText.ParseDecimal` | lib/execution_segment.go:91 | the decimal form: digits on both sides of the point, read as one mantissa over 10 to the number of fractional digits; text it accepts ends in a digit and holds only digits, signs, '.' and '/' |
| `RatText.DecimalValue` | lib/execution_segment.go:91 | every "i.f" with digits on both sides of the point is accepted and reads as i + f / 10^|f| |
| `RatText.NegativeDecimalValue` | lib/execution_segment.go:91 | every "-i.f" is accepted and reads as -(i + f / 10^|f|) |
| `RatText.FractionValue` | lib/execution_segment.go:91 | every "n/d" without leading zeros and with d > 0 reads as the fraction n/d itself, whether or not it is in lowest terms |
| `RatText.PlusDecimalValue` | lib/execution_segment.go:91 | a '+' before decimal text "i.f" leaves the value read unchanged |
| `RatText.IntegerValue` | lib/execution_segment.go:91 | every run of one or more digits, with no sign, '+' or '-' before it and leading zeros allowed, reads as that whole number with the sign applied |
| `RatText.SignedFractionValue` | lib/execution_segment.go:91 | every "n/d" without leading zeros and with d > 0, with no sign, '+' or '-' before it, reads as n/d with the sign applied |
| `RatText.DigitsJoin` | lib/execution_segment.go:91 | the digits of a decimal read as one mantissa: value(i + f) = value(i) * 10^|f| + value(f) |
| `RatText.RatString` | lib/execution_segment.go:140 | prints the lowest-terms form: digits with an optional '-', ending in a digit, with a '/' exactly when the reduced denominator is not 1 |
| `RatText.RatStringParses` | lib/execution_segment.go:140 | a fraction printed as RatString reads back as the same fraction in lowest terms |
| `RatText.CanonicalIntegerPrints` | lib/execution_segment.go:91 | digits without sign or leading zeros read as that whole number, and printing the number gives the same text back |
| `Rationals.Reduce` | lib/execution_segment.go:140 | the lowest-terms form RatString prints has the same value and is reduced |
| `Rationals.ReduceReduced` | lib/execution_segment.go:140 | a fraction already in lowest terms is printed as it is |
| `Rationals.ReducedUnique` | lib/execution_segment.go:140 | two lowest-terms fractions of the same value are the same fraction, so a value prints one way only |
| `SegmentText.StringToRat` | lib/execution_segment.go:83-96 | text ending in '%' succeeds exactly when the rest is an integer; other text succeeds exactly when it is a rational; errors name the percentage or value case; results are rationals |
| `SegmentText.PercentIsHundredths` | lib/execution_segment.go:84-89 | "N%" reads as N/100 for every integer N |
| `SegmentText.PercentNeedsInteger` | lib/execution_segment.go:85-88 | a non-integer before '%' ("12.5%") is rejected as an invalid percentage |
| `SegmentText.StringToRatReadsRatString` | lib/execution_segment.go:91-95 | a printed fraction reads back as its value |
| `SegmentText.StringToRatReadsDecimal` | lib/execution_segment.go:91-95 | decimal text "i.f" reads as i + f / 10^|f| |
| `SegmentText.ParseSegment` | lib/execution_segment.go:112-131 | every segment read from text is an explicit, valid and printable segment; the result for each path is fixed by `SegmentText.ReadRange`, `SegmentText.ReadShorthand`, `SegmentText.RangeStartFails` and `SegmentText.RangeEndFails` |
| `SegmentText.ReadRange` | lib/execution_segment.go:115-131 | when both bounds of "A:B" read, the result is NewExecutionSegment of the two values, errors included |
| `SegmentText.ReadShorthand` | lib/execution_segment.go:113-131 | when text without ':' reads as a number, the result is NewExecutionSegment from 0 to that number |
| `SegmentText.RangeStartFails` | lib/execution_segment.go:115-120 | a start bound that does not read fails the whole text with that bound's error, whatever follows the ':' |
| `SegmentText.RangeEndFails` | lib/execution_segment.go:123-126 | a start bound that reads followed by an end bound that does not fails with the end bound's error |
| `SegmentText.NegativeStartExample` | lib/execution_segment.go:128-130 | "-1/2:1" reads its start as -1/2 and then fails the range check with that start as payload |
| `SegmentText.ShorthandStartsAtZero` | lib/execution_segment.go:113-121 | text without ':' reads exactly as "0:" followed by that text, errors included |
| `SegmentText.RangeExamples` | lib/execution_segment.go:107-108 | "1/2:3/4", "0.5:0.75", "50%:75%" and "2/4:75%" all read as (1/2, 3/4] |
| `SegmentText.ShorthandExamples` | lib/execution_segment.go:109-110 | "20%", "0.2" and "1/5" all read as (0, 1/5] |
| `SegmentText.ExecutionSegment.constructor` | lib/execution_segment.go:44-51 | a receiver holding the given from, to and length |
| `SegmentText.ExecutionSegment.UnmarshalText` | lib/execution_segment.go:112-134 | succeeds exactly when the text reads as a segment, and then the receiver holds that segment; on an error the receiver keeps its old value and the error is the first failing step's |
| `SegmentText.String` | lib/execution_segment.go:136-141 | nil prints as "0:1"; an explicit segment's text is pinned down by `SegmentText.StringOfFractions` |
| `SegmentText.StringOfFractions` | lib/execution_segment.go:136-141 | an explicit segment prints as the RatString of any fractions holding its bounds, joined by ':'; the text depends on the bounds' values alone |
| `SegmentText.StringExample` | lib/execution_segment.go:136-141 | (1/2, 3/4] prints as "1/2:3/4" |
| `SegmentText.MarshalText` | lib/execution_segment.go:145-150 | nil encodes as no bytes; other segments as their String |
| `SegmentText.StringRoundTrip` | lib/execution_segment.go:112-141 | reading the printed form of a valid segment gives it back (nil as an explicit (0, 1]), Equal to the original |
| `SegmentText.FormatParseFormat` | lib/execution_segment.go:112-141 | printing, reading and printing again yields the first printed text |
| `SegmentText.ReparsePrinted` | lib/execution_segment.go:112-141 | printing what was read and reading it again gives the same segment |
| `SegmentText.MarshalRoundTrip` | lib/execution_segment.go:145-150 | a non-nil valid segment survives MarshalText and reading back |
| `SegmentText.MarshalWholeIsLost` | lib/execution_segment.go:145-148 | the nil segment's empty encoding does not read back: empty text is an invalid value |
| `Scaling.Trunc` | lib/execution_segment.go:242 | QuoRem's quotient: the integer toward zero within distance 1 of the value |
| `Scaling.RoundUp` | lib/execution_segment.go:240-248 | negative values are truncated toward zero, like QuoRem's quotient; from -1/2 up the result is the nearest integer, halves going up |
| `Scaling.RoundUpIsRound` | lib/execution_segment.go:240-248 | roundUp rounds to the nearest integer, halves up, for every value >= -1/2 |
| `Scaling.RoundUpNegative` | lib/execution_segment.go:242-247 | below -1/2 roundUp truncates instead: roundUp(-3/4) is 0, not -1 |
| `Scaling.Ceil` | lib/execution_segment.go:242-247 | the least integer at or above the value |
| `Scaling.RoundUpNonPositive` | lib/execution_segment.go:240-248 | at or below zero roundUp is the ceiling: QuoRem's quotient truncates toward zero, which there means upward, and the remainder is never positive, so the quotient is never raised |
| `Scaling.TimesIsProduct` | lib/execution_segment.go:264-268 | the amount at a bound is value * bound |
| `Scaling.Scale` | lib/execution_segment.go:250-273 | nil keeps the whole amount; for a valid segment and value >= 0 the share is the rounded amount at `to` minus the rounded amount at `from`; for value < 0 it is the amount at `to` rounded up minus the amount at `from` rounded up; amounts computed by `Times` |
| `Scaling.ScaleRoundsEnds` | lib/execution_segment.go:250-273 | for value >= 0, Scale is round(value * to) - round(value * from), as the comment at lines 256-262 derives; the nil segment gives value |
| `Scaling.ScaleCeilsEnds` | lib/execution_segment.go:250-273 | for value < 0, Scale is ceil(value * to) - ceil(value * from): both roundUp calls see amounts at or below zero |
| `Scaling.ScaleBounds` | lib/execution_segment.go:250-273 | for value >= 0 a share lies between 0 and value |
| `Scaling.ScaleBoundsNegative` | lib/execution_segment.go:250-273 | for value < 0 a share lies between value and 0 |
| `Scaling.ScaleRespectsEqual` | lib/execution_segment.go:252-273 | segments Equal judges equal (nil and (0, 1] included) scale every amount to the same share |
| `Scaling.ScaleOfFullRange` | lib/execution_segment.go:252-255 | an explicit (0, 1] keeps every amount, like the nil segment |
| `Scaling.ScaleSumTelescopes` | lib/execution_segment.go:34-43 | over segments laid end to end from a to b, the shares of value >= 0 add up to round(value * b) - round(value * a) |
| `Scaling.ScaleSumTelescopesNegative` | lib/execution_segment.go:34-43 | over segments laid end to end from a to b, the shares of value < 0 add up to ceil(value * b) - ceil(value * a) |
| `Scaling.ScaleSumOfWholeRun` | lib/execution_segment.go:34-43 | for every amount, of either sign, segments covering (0, 1] share out exactly value: nothing lost, nothing counted twice |
| `Scaling.ScaleSumOfCover` | lib/execution_segment.go:162-193 | for every amount, of either sign, segments covering a segment, such as Split's parts, share out exactly that segment's own share |
| `Scaling.ScaleThirdsExample` | lib/execution_segment.go:35-37 | thirds of 10 are 3, 4 and 3 |
| `Scaling.ScaleThirdsNegativeExample` | lib/execution_segment.go:250-273 | thirds of -10 are -3, -3 and -4: not the mirror image of the shares of 10, yet they still add up to -10 |
| `Scaling.InPlaceScaleRat` | lib/execution_segment.go:275-283 | multiplies the argument object by the length and returns that same object; nil leaves it unchanged |
| `Scaling.CopyScaleRat` | lib/execution_segment.go:285-292 | returns a new object holding value * length and leaves the argument alone; nil returns the argument object itself |
| `Scaling.ScaleRat` | lib/execution_segment.go:275-292 | nil keeps the amount; a valid segment's share of a rational amount is (to - from) * value |
| `Scaling.ScaleRatComposes` | lib/execution_segment.go:278-292 | scaling by a sub-segment is scaling by the child, then by the parent |
| `Scaling.ScaleRatBounds` | lib/execution_segment.go:278-292 | a valid segment's share of a non-negative rational lies between 0 and the whole |
| `Scaling.ScaleRatSumTelescopes` | lib/execution_segment.go:34-43 | over segments laid end to end from a to b, the rational shares add up to (b - a) * value |

## Left out

- `FloatLength` (`lib/execution_segment.go:154-160`) is left out. It converts the length to floating point for display only.
- `vendor/github.com/chromedp/cdproto/autofill/autofill.go` is not part of this model. It wraps browser protocol calls and has nothing to do with segments.
- Rational text follows a restricted grammar. Accepted forms:
  - an optionally signed integer;
  - a decimal with digits on both sides of the point;
  - a fraction `n/d` with no leading zeros and d > 0.

  Not modelled: exponents, base prefixes, underscores, `.5` and `5.`, and octal reading of a leading zero in a fraction.
- Error messages are error kinds (`Segments.Error`); the `FloatString(2)` formatting of Go's messages is left out.
- `String` and `MarshalText` are ghost and require bounds that are quotients of integers (`Printable`). A `real` cannot be taken apart into numerator and denominator by executable code. Every segment read from text is printable (`ParseSegment`).
- Integers are unbounded. `int64` overflow, `Int64()` truncation and the `int64` type of `numParts` are left out.
- Segments and rationals are values. Sharing of `big.Rat` pointers between segments, the `zeroRat`/`oneRat` globals, and the in-place denominator mutation at line 175 are not modelled. That mutation is modelled as exact division by numParts.
- `*es = *segment` at line 132 is modelled as overwriting the receiver's three fields. The panic when `UnmarshalText` runs on a nil receiver is not modelled.
- `Scale` computes value * bound through `Times`, which is repeated addition, and its own contract is written with `Times`. `Scaling.TimesIsProduct` proves `Times` equal to the product, and `Scaling.ScaleRoundsEnds`, `Scaling.ScaleCeilsEnds`, `Scaling.ScaleSumTelescopes` and `Scaling.ScaleSumTelescopesNegative` state their results with the product.
