# Rationals and their ranges, modelled in Dafny

This project models a small Kotlin library for exact fractions and the ranges and progressions
built on them.

- A `Rational` is a pair of arbitrary-precision integers.
- The constructor rejects a zero denominator. Otherwise it stores the pair in canonical form: common factors divided out and the sign on the numerator.
- The library adds, subtracts, multiplies, divides, negates and compares rationals.
- It prints a rational as `n` or `n/d` and parses such text back.
- `a..b` builds a `RationalRange`. Its step is 1 over the common denominator of the two ends.
- A `RationalProgression` has a first element, a last element and a non-zero step. Its iterator adds the step until it meets the last element.
- The same progression, range and iterator structure exists for arbitrary-precision integers (`BigIntegerProgression`, `BigIntegerRange`).

Files:

- `failures.dfy`: the exceptions the library throws, as an `Error` datatype, plus `Result` and `Option`.
- `numbers.dfy`: integer facts the proofs need. These cover Euclidean division, the gcd (`BigInteger.gcd` on magnitudes) and powers of ten.
- `decimal.dfy`: decimal text for integers. This covers printing a `BigInteger` and parsing it back (`String.toBigInteger`).
- `rational.dfy`, module `Rationals`: the `Rational` class and the top-level functions of `Rational.kt`.
  - A `Rational` is a value, a datatype whose `Valid()` is the canonical form.
  - `Value` maps it to the real number it stands for. That is how every arithmetic contract is stated.
  - The loop of `checkDivsByTenTimes` and the local reassignments of `getSimplified`, which calls it, are methods: `CheckDivsByTenTimes` and `GetSimplified`.
- `integer_range.dfy`, module `IntegerRanges`: `BigIntegerRange.kt`.
  - Progressions and ranges are values.
  - `Elements` lists the values iterating a progression yields.
  - The iterator is a class whose `NextBigInteger` updates `hasNext` and `next` in place.
  - `ForEach` drives the iterator in a loop and is proved to see exactly `Elements`.
- `rational_range.dfy`, module `RationalRanges`: `RationalRange.kt`.
  - It has the same structure as the integer module.
  - A rational progression's iteration is described by walking from `first` in whole steps, with `Walk` and `ReachesIn`.
  - `Reachable` says that `last` is a whole number of steps from `first`.
  - `fromClosedRange` stores a corrected last element, `GridLastElement`: the last value on the step grid not beyond `end`, in both directions. It is the integer rule of `BigIntegerRange.kt` applied to numerators over a common denominator. So every progression it builds is reachable (`GridLastReachable`), and so is every range, whose `end` is on the grid (`RangeLastIsEnd`).

Errors are values: `Make` and `Div` return `Err(InvalidDenominator)` where the constructor throws `IllegalArgumentException`. A progression with a zero step is `Err(ZeroStep)`. An exhausted iterator returns `Err(NoSuchElement)`.

## Model

| member | source | states |
|---|---|---|
| Rationals.CheckDivsByTenTimes | Rationals/Task/src/rationals/Rational.kt:88-96 | the factor is the largest power of ten dividing both numerator and denominator; the flag is true exactly when that factor exceeds 1 |
| Rationals.GetSimplified | Rationals/Task/src/rationals/Rational.kt:72-86 | the pair returned equals the gcd-only reduction `Reduced`, so stripping powers of ten first never changes the result |
| Rationals.Reduced | Rationals/Task/src/rationals/Rational.kt:80-85 | the reduced pair has coprime magnitudes, a non-zero denominator and the same ratio as the input |
| Rationals.StripCommonFactor | Rationals/Task/src/rationals/Rational.kt:76-79 | dividing numerator and denominator by a common factor first leaves the reduction unchanged |
| Rationals.Canonicalize | Rationals/Task/src/rationals/Rational.kt:14-16 | the stored pair is canonical (positive denominator, coprime) and stands for n/d; zero is stored as 0/1 |
| Rationals.Make | Rationals/Task/src/rationals/Rational.kt:10-17 | a zero denominator is an `InvalidDenominator` error; any other yields a canonical pair with value n/d |
| Rationals.Create | Rationals/Task/src/rationals/Rational.kt:10-17 | running the constructor's steps (zero check, getSimplified, sign fix) yields exactly `Make` |
| Rationals.CanonicalUnique | Rationals/Task/src/rationals/Rational.kt:10-17 | two canonical pairs with the same value are the same pair |
| Rationals.MakeScaled | Rationals/Task/src/rationals/Rational.kt:10-17 | constructing from (n·k)/(d·k) gives the same Rational as n/d |
| Rationals.CanonicalizeCanonical | Rationals/Task/src/rationals/Rational.kt:10-17 | reconstructing from an already canonical pair returns that pair (idempotence) |
| Rationals.StructuralEqualityIsValueEquality | Rationals/Task/src/rationals/Rational.kt:20-21 | for canonical pairs, componentwise equality holds exactly when the values are equal |
| Rationals.Equals | Rationals/Task/src/rationals/Rational.kt:20-21 | equals is true exactly when the two Rationals stand for the same number |
| Rationals.FactorPairs | Rationals/Task/src/rationals/Rational.kt:117-122 | both factors are positive and scale the two denominators to the same value |
| Rationals.Align | Rationals/Task/src/rationals/Rational.kt:102-115 | the mismatch exception is never thrown; both scaled pairs share a positive denominator (a.den if equal, else a.den·b.den) and keep their values |
| Rationals.Plus | Rationals/Task/src/rationals/Rational.kt:36-42 | the result is canonical and its value is the sum of the values |
| Rationals.Minus | Rationals/Task/src/rationals/Rational.kt:44-50 | the result is canonical and its value is the difference of the values |
| Rationals.Times | Rationals/Task/src/rationals/Rational.kt:52-53 | the result is canonical and its value is the product of the values |
| Rationals.Div | Rationals/Task/src/rationals/Rational.kt:55-56 | dividing by a zero-numerator Rational is an `InvalidDenominator` error; otherwise the result is canonical with value the quotient |
| Rationals.Neg | Rationals/Task/src/rationals/Rational.kt:58 | the result is canonical and its value is the negation |
| Rationals.NegIsDirect | Rationals/Task/src/rationals/Rational.kt:58 | negating a canonical pair just negates its numerator; no reduction happens |
| Rationals.NegInvolution | Rationals/Task/src/rationals/Rational.kt:58 | unaryMinus applied twice gives the original Rational |
| Rationals.CompareTo | Rationals/Task/src/rationals/Rational.kt:60-67 | the result is -1, 0 or 1; negative exactly when the first value is smaller, positive exactly when larger, zero exactly for equal Rationals |
| Rationals.CompareAntisymmetric | Rationals/Task/src/rationals/Rational.kt:60-67 | swapping the operands negates compareTo |
| Rationals.CompareTransitive | Rationals/Task/src/rationals/Rational.kt:60-67 | compareTo's order is transitive, strictly if either step is strict |
| Rationals.PlusZero | Rationals/Task/src/rationals/Rational.kt:36-42 | adding 0/1 gives the same Rational back |
| Rationals.MinusSelf | Rationals/Task/src/rationals/Rational.kt:44-50 | a Rational minus itself is 0/1 |
| Rationals.TimesOne | Rationals/Task/src/rationals/Rational.kt:52-53 | multiplying by 1/1 gives the same Rational back |
| Rationals.DivSelf | Rationals/Task/src/rationals/Rational.kt:55-56 | a non-zero Rational divided by itself is 1/1; zero divided by itself is an error |
| Rationals.Normalized | Rationals/Task/src/rationals/Rational.kt:28-34 | a pair n/n prints as "1"; otherwise the text is the reduced pair, and NormalizedParses shows it parses back to n/d; for canonical pairs ToString and ReducedCanonical show the text is "numerator/denominator" unchanged |
| Rationals.NormalizedParses | Rationals/Task/src/rationals/Rational.kt:28-34 | whatever getNormalized prints for n/d, toRational reads back as the Rational the constructor makes of n/d |
| Rationals.ToString | Rationals/Task/src/rationals/Rational.kt:25-34 | a canonical Rational prints as its numerator when the denominator is 1, otherwise as "numerator/denominator" |
| Rationals.ReducedCanonical | Rationals/Task/src/rationals/Rational.kt:28-34 | on a canonical pair other than n/1, getNormalized neither hits its n == d case nor changes the pair |
| Rationals.IndexOf | Rationals/Task/src/rationals/Rational.kt:125 | -1 exactly when the character is absent; otherwise the position of its first occurrence |
| Rationals.ToRational | Rationals/Task/src/rationals/Rational.kt:124-130 | every Rational parsed is canonical; text without exactly one '/' parses as a whole integer over 1 or fails; text with one '/' whose numerator or denominator part is not an integer fails with `MalformedNumber` |
| Rationals.ToRationalOfFraction | Rationals/Task/src/rationals/Rational.kt:128-129 | "num/den" with two decimal integers parses to what the constructor builds from them (including the zero-denominator error) |
| Rationals.ToRationalManySlashes | Rationals/Task/src/rationals/Rational.kt:125-126 | text with more than one '/' is parsed whole and rejected as malformed |
| Rationals.ToStringRoundTrip | Rationals/Task/src/rationals/Rational.kt:124-130 | parsing the printed text of any canonical Rational gives that Rational back |
| Rationals.DemoSumAndDifference | Rationals/Task/src/rationals/Rational.kt:138-146 | 1/2 + 1/3 = 5/6 and 1/2 - 1/3 = 1/6 |
| Rationals.DemoProductAndQuotient | Rationals/Task/src/rationals/Rational.kt:147-162 | 1/2 · 1/3 = 1/6, (1/2) / (1/3) = 3/2, -(1/2) = -1/2 and 1/2 < 2/3 |
| Rationals.DemoPrint | Rationals/Task/src/rationals/Rational.kt:157-158 | 2/1 prints as "2" and -2/4 prints as "-1/2" |
| Rationals.DemoParse | Rationals/Task/src/rationals/Rational.kt:159 | "117/1098" parses to 13/122 |
| Rationals.DemoParsePrint | Rationals/Task/src/rationals/Rational.kt:159 | 13/122 prints as "13/122" |
| Rationals.DemoLargeReduction | Rationals/Task/src/rationals/Rational.kt:170 | 2000000000/4000000000 and 1/2 construct the same Rational |
| IntegerRanges.DifferenceModulo | Rationals/Task/src/rationals/BigIntegerRange.kt:104-108 | the result lies in [0, c) and is congruent to a - b modulo c |
| IntegerRanges.ProgressionLastElement | Rationals/Task/src/rationals/BigIntegerRange.kt:98-102 | a zero step is an error; with start already at or past end the result is end; otherwise it is the last value of start + k·step not beyond end, within one step of end |
| IntegerRanges.IsEmpty | Rationals/Task/src/rationals/BigIntegerRange.kt:38 | first > last for a positive step, first < last otherwise; a progression whose ends meet is never empty, and ElementsSpan shows empty holds exactly when iteration yields nothing |
| IntegerRanges.FromClosedRange | Rationals/Task/src/rationals/BigIntegerRange.kt:11-28 | a zero step is rejected; otherwise first and step are kept, emptiness is start past end in the step's direction, and a non-empty last lies between start and end within one step of end |
| IntegerRanges.LastIsReached | Rationals/Task/src/rationals/BigIntegerRange.kt:98-100 | last is first plus a whole number of steps |
| IntegerRanges.ElementsUncons | Rationals/Task/src/rationals/BigIntegerRange.kt:129-138 | after yielding first, what remains is the progression from first + step, still valid and non-empty |
| IntegerRanges.ElementsSpan | Rationals/Task/src/rationals/BigIntegerRange.kt:30-38 | iteration yields nothing exactly when isEmpty; otherwise it starts at first, ends at last, is strictly monotone in the step's direction and stays between them |
| IntegerRanges.AsProgression | Rationals/Task/src/rationals/BigIntegerRange.kt:64 | a range is a valid progression with step 1 |
| IntegerRanges.MakeRange | Rationals/Task/src/rationals/BigIntegerRange.kt:63-67 | a range's start is its first and its endInclusive is its last |
| IntegerRanges.Contains | Rationals/Task/src/rationals/BigIntegerRange.kt:76 | contains holds exactly for the values iteration yields |
| IntegerRanges.RangeIsEmpty | Rationals/Task/src/rationals/BigIntegerRange.kt:83 | the range's isEmpty agrees with the progression's and holds exactly when iteration yields nothing |
| IntegerRanges.EndExclusive | Rationals/Task/src/rationals/BigIntegerRange.kt:71-74 | the contained values are exactly those from first up to but excluding endExclusive |
| IntegerRanges.IntProgressionIterator.constructor | Rationals/Task/src/rationals/BigIntegerRange.kt:121-125 | the iterator will yield exactly the progression's elements; hasNext starts true exactly when it is non-empty |
| IntegerRanges.IntProgressionIterator.HasNext | Rationals/Task/src/rationals/BigIntegerRange.kt:127 | true exactly when values remain |
| IntegerRanges.IntProgressionIterator.NextBigInteger | Rationals/Task/src/rationals/BigIntegerRange.kt:129-138 | returns the next remaining value and drops it; once exhausted it fails with NoSuchElement and changes nothing |
| IntegerRanges.ForEach | Rationals/Task/src/rationals/BigIntegerRange.kt:30 | a loop over the iterator terminates and sees exactly the progression's elements |
| RationalRanges.Walk | Rationals/Task/src/rationals/RationalRange.kt:129 | n whole steps from x: n canonical values, the first being x |
| RationalRanges.ReachesAhead | Rationals/Task/src/rationals/RationalRange.kt:129 | adding a positive step never decreases the value, a negative one never increases it, strictly after any step |
| RationalRanges.ReachesUnique | Rationals/Task/src/rationals/RationalRange.kt:125-131 | the number of steps from x to a given last is unique, so the iterator meets finalElement once |
| RationalRanges.WalkSpan | Rationals/Task/src/rationals/RationalRange.kt:123-132 | the walk from x to last starts at x, ends at last and is strictly monotone and bounded by them |
| RationalRanges.LastElementAsWritten | Rationals/Task/src/rationals/RationalRange.kt:98-102 | the source as written: a zero step is an error; a positive step gives end; a negative step gives start |
| RationalRanges.GridLastElement | Rationals/Task/src/rationals/RationalRange.kt:98-102 | corrected onto the step grid as BigIntegerRange.kt:98-100 does for integers: a zero step is an error; with start at or past end the result is end; otherwise it lies between start and end, within one step of end |
| RationalRanges.GridLastReachable | Rationals/Task/src/rationals/RationalRange.kt:98-102 | a progression whose last element is the corrected one is reachable, so its iterator stops |
| RationalRanges.GridLastOnGrid | Rationals/Task/src/rationals/RationalRange.kt:98-102 | when end is a whole number of steps from start, the corrected last element is end itself |
| RationalRanges.OnGridProgression | Rationals/Task/src/rationals/RationalRange.kt:10-27 | when end is a whole number of steps from start, fromClosedRange keeps end as last |
| RationalRanges.StepWalk | Rationals/Task/src/rationals/RationalRange.kt:129 | from m/d, adding s/d k times reaches (m + k·s)/d |
| RationalRanges.ReachesFunctional | Rationals/Task/src/rationals/RationalRange.kt:129 | n steps from a value end at one value only |
| RationalRanges.ElementsOfWalk | Rationals/Task/src/rationals/RationalRange.kt:123-132 | a progression whose last is n steps from first is reachable and iterates the n + 1 values of that walk |
| RationalRanges.IsEmpty | Rationals/Task/src/rationals/RationalRange.kt:37 | with a positive step, empty exactly when first's value exceeds last's; with a negative step, when it is below |
| RationalRanges.FromClosedRange | Rationals/Task/src/rationals/RationalRange.kt:10-27 | a step with numerator 0 is rejected; otherwise first and step are kept, last is the corrected `GridLastElement`, the progression is reachable, and emptiness is start past end in the step's direction |
| RationalRanges.StepCount | Rationals/Task/src/rationals/RationalRange.kt:123-132 | last is reached from first in that many steps |
| RationalRanges.Elements | Rationals/Task/src/rationals/RationalRange.kt:29 | every value iteration yields is canonical |
| RationalRanges.ElementsSpan | Rationals/Task/src/rationals/RationalRange.kt:29-37 | iteration yields nothing exactly when isEmpty; otherwise it starts at first, ends at last, is strictly monotone and bounded by them |
| RationalRanges.FindStep | Rationals/Task/src/rationals/RationalRange.kt:94-96 | the step is 1/start.den when the denominators agree and 1/(start.den·end.den) otherwise, so it is always positive |
| RationalRanges.RangeReachable | Rationals/Task/src/rationals/RationalRange.kt:63-64 | in a range with first ≤ last, last is a whole number of findStep steps from first |
| RationalRanges.AsProgression | Rationals/Task/src/rationals/RationalRange.kt:63-67 | a range is a valid reachable progression with a positive step whose first and last are start and endInclusive |
| RationalRanges.RangeTo | Rationals/Task/src/rationals/Rational.kt:69 | a..b has first a and last b, and is the progression fromClosedRange(a, b, findStep(a, b)) |
| RationalRanges.RangeLastIsEnd | Rationals/Task/src/rationals/RationalRange.kt:63-67 | endInclusive is on the findStep grid, so the corrected last element of a range is endInclusive |
| RationalRanges.Contains | Rationals/Task/src/rationals/RationalRange.kt:76 | contains is inclusive at both ends and compares values |
| RationalRanges.RangeElementsContained | Rationals/Task/src/rationals/RationalRange.kt:76 | every value iteration yields is contained; a non-empty range yields both its ends |
| RationalRanges.RangeIsEmpty | Rationals/Task/src/rationals/RationalRange.kt:83 | empty exactly when first's value exceeds last's, in agreement with the progression's isEmpty |
| RationalRanges.RangeIsEmptyIteration | Rationals/Task/src/rationals/RationalRange.kt:83 | an empty range yields nothing and a non-empty one yields something |
| RationalRanges.EndExclusive | Rationals/Task/src/rationals/RationalRange.kt:71-74 | endExclusive is last + 1/start.den, canonical, and above every contained value |
| RationalRanges.RationalProgressionIterator.constructor | Rationals/Task/src/rationals/RationalRange.kt:115-119 | the iterator will yield exactly the progression's elements; hasNext starts true exactly when it is non-empty |
| RationalRanges.RationalProgressionIterator.HasNext | Rationals/Task/src/rationals/RationalRange.kt:121 | true exactly when values remain |
| RationalRanges.RationalProgressionIterator.NextRational | Rationals/Task/src/rationals/RationalRange.kt:123-132 | returns the next remaining value and drops it; once exhausted it fails with NoSuchElement and changes nothing |
| RationalRanges.ForEach | Rationals/Task/src/rationals/RationalRange.kt:29 | a loop over the iterator of a reachable progression terminates and sees exactly its elements |
| RationalRanges.InRangeSameDenominator | Rationals/Task/test/rationals/MyTestRationals.kt:87-93 | 2/5 is in 1/5..3/5 |
| RationalRanges.OutOfRangeSameDenominator | Rationals/Task/test/rationals/MyTestRationals.kt:95-101 | 4/5 is not in 1/5..3/5 |
| RationalRanges.InRangeDifferentDenominator | Rationals/Task/test/rationals/MyTestRationals.kt:103-109 | 1/2 is in 1/3..5/7 |
| RationalRanges.OutOfRangeDifferentDenominator | Rationals/Task/test/rationals/MyTestRationals.kt:111-117 | 8/9 is not in 1/3..4/7 |
| RationalRanges.HalfBetweenThirds | Rationals/Task/test/rationals/MyTestRationals.kt:128-139 | 1/2 is in 1/3..2/3 |
| RationalRanges.DownToAsWritten | Rationals/Task/src/rationals/RationalRange.kt:98-102 | as written, fromClosedRange(1, 0, -1/2) gets last 1 and iterates only [1] |
| RationalRanges.DownToCorrected | Rationals/Task/src/rationals/RationalRange.kt:98-102 | with the corrected last element, fromClosedRange(1, 0, -1/2) has last 0 and iterates [1, 1/2, 0] |
| RationalRanges.ReachesValue | Rationals/Task/src/rationals/RationalRange.kt:129 | after n steps the value has grown by n times the step |
| RationalRanges.UnreachableEnd | Rationals/Task/src/rationals/RationalRange.kt:123-132 | as written, fromClosedRange(0, 1, 2/3) keeps last 1 and is non-empty, yet 1 is no whole number of steps from 0, so the iterator never meets finalElement |
| RationalRanges.UnreachableEndCorrected | Rationals/Task/src/rationals/RationalRange.kt:123-132 | with the corrected last element, fromClosedRange(0, 1, 2/3) has last 2/3, is reachable and iterates [0, 2/3] |

## Left out

- Printing (`main`, `println`), `hashCode` and the `toString` of progressions and ranges produce text or hashes that nothing else uses. They are not modelled. The `main` outcomes are stated as the `Demo…` lemmas.
- `BigIntegerRange.EMPTY` is not modelled. It is a Kotlin `LongRange` and nothing in the core uses it.
- Progression and range `equals` are not modelled; neither is the Kotlin interface plumbing (`Iterable`, `ClosedRange`, `OpenEndRange`, `next()` forwarding).
- `Int.divBy` and `Long.divBy` are not modelled. They only widen to `BigInteger` before calling the constructor, which is `Make`.
- Arbitrary-precision integers are Dafny's unbounded `int`. Nothing in the core has a fixed width.
- `Rationals.ToRational`: only decimal digits with an optional sign are accepted. `BigInteger`'s other accepted forms, such as non-ASCII digits, are not modelled.
- `RationalRanges.RationalProgressionIterator.constructor` requires the progression to be reachable: empty, or with last a whole number of steps from first. The source accepts any progression. When last is not reachable (`UnreachableEnd`: 0 to 1 in steps of 2/3 with the as-written last element 1), the source's iterator never stops. That non-terminating run is not modelled. Every progression the corrected `FromClosedRange` builds is reachable (`GridLastReachable`), and so is every `RationalRange`.
- `RationalRanges.ForEach` carries the same reachability requirement, for the same reason.
- `IntegerRanges.IntProgressionIterator.constructor` requires a valid progression (non-zero step, last a whole number of steps from first). Every `BigIntegerProgression` has one, because its constructor computes last with `getProgressionLastElement`.
- `RationalRanges.FromClosedRange` uses the corrected last element `GridLastElement` (see Findings). The as-written rule is `RationalRanges.LastElementAsWritten`.

## Findings

| source | as written | input that shows it | evidently intended | confidence | as-written member | corrected member |
|---|---|---|---|---|---|---|
| Rationals/Task/src/rationals/RationalRange.kt:98-102 | a negative step makes the last element `start`, so a descending progression stops after its first value | `RationalProgression.fromClosedRange(1, 0, -1/2)` yields only 1 | the last element is the last value start + k·step not beyond `end` in both directions, as for BigInteger progressions; here that is 0, giving 1, 1/2, 0 (`DownToCorrected`) | medium, not executed | RationalRanges.DownToAsWritten | RationalRanges.GridLastElement |
| Rationals/Task/src/rationals/RationalRange.kt:123-132 | the iterator stops only when the current value equals the last element, and for a positive step that last element is `end` unadjusted (line 99) | `RationalProgression.fromClosedRange(0, 1, 2/3)` yields 0, 2/3, 4/3, 2, ... and `hasNext` stays true | the last element is moved back onto the step grid, to the last value not beyond `end`, so iteration stops there; every progression built that way is reachable (`GridLastReachable`), and 0..1 step 2/3 yields 0, 2/3 (`UnreachableEndCorrected`) | medium, not executed | RationalRanges.UnreachableEnd | RationalRanges.GridLastElement |
