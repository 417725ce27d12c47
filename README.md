# PH.Time in Dafny

This project models the core of PH.Time, a small C# library for times of day. It has three parts:

- the `Time` struct: hours, minutes and seconds, with a validated constructor, `MinValue`/`MaxValue`, `CompareTo`, `Equals` and the six operators, `GetMilliseconds`/`GetHashCode`, `ToString` and `TryParse`;
- the stepping extensions: `Next`/`Previous` by hour, minute or second, each reporting whether the step changed day;
- `TimeFactory`: builds arrays of evenly spaced times between two bounds.

Modules, one per concern:

- `Int32Arith` (`int32.dfy`): C#'s `int` as the subset type `int32`. `Wrap32` is the two's-complement wrap-around of unchecked arithmetic.
- `Text` (`text.dfy`): the .NET string operations `Time` relies on:
  - decimal rendering of an `int`;
  - `PadLeft`;
  - `Split` with `RemoveEmptyEntries`, related to `Join` by round-trip lemmas;
  - `int.Parse`, written as `ParseInt32`, which returns `None` where .NET throws.
- `PHTime` (`time.dfy`), for `Time.cs`:
  - `Time` is a struct, copied on assignment, so it is a datatype of three `int32` fields.
  - The public setters check nothing, so any three `int32` values form a `Time`. `Valid` says when they are in range.
  - The exceptions are the cases of the `Error` datatype. A throwing operation returns `Result<T>`.
  - `GetMilliseconds` keeps its C# shape: a method that accumulates into `millis`, wrapping at every step.
- `TimeExtensions` (`time_extensions.dfy`), for `TimeExtensions.cs`:
  - The source builds a `DateTime` on 1970-01-01 from the fields, adds the unit, and reads the fields and the day back.
  - Here that `DateTime` is its offset in seconds from midnight. The time of day is the offset modulo 86400, and the day changed when the offset left [0, 86400).
  - The `DateTime` constructor throws for fields out of range, which gives `Err(UnrepresentableDateTime)`.
- `TimeFactory` (`time_factory.dfy`), for `TimeFactory.cs`:
  - The three builders are methods that grow a sequence `l`.
  - Their shared `while` loop is the method `CollectSteps`. It is proved equal to the recursive function `StepRun`, which has a closed form, `IsStepRun`.
  - Each builder is proved equal to the function `TimeArray`. The order, bounds, length and extremes properties are lemmas about `TimeArray`.

Worked examples: `MaxValueNextSecond`, `MinValuePreviousSecond`, `HourWrapsAtMidnight`, `CarryIntoHour` and `BorrowFromHour` are stated on literal times. The unit-by-unit vectors from midnight, the 24-hour array, the 86400-second array and the two-minute array are each proved over parameters fixed only by their second of day. A short lemma then applies each one to `MinValue`, `MaxValue` or Time(0, 2, 0).

Where the code and its documentation disagree, the model follows the code:

- The setters do not validate.
- `TryParse` with three segments reads `spl[3]` (see Findings).
- `BuildTimeArrayBySteps` only throws.
- The tests that expect otherwise are not reproduced: setters throwing, `TryParse("12:13:14")` succeeding, and step counts from `BuildTimeArrayBySteps`.

## Model

| member | source | states |
|---|---|---|
| Int32Arith.Wrap32 | src/PH.Time/PH.Time/Time.cs:113-116 | The int32 an unchecked C# computation yields: congruent to the exact value modulo 2^32, and equal to it when it fits. |
| Int32Arith.WrapCongruent | src/PH.Time/PH.Time/Time.cs:113-116 | Values that differ by a multiple of 2^32 wrap to the same int32. |
| Int32Arith.WrapAdd | src/PH.Time/PH.Time/Time.cs:114-115 | Wrapping the operands of `+=` first does not change the wrapped sum. |
| Int32Arith.WrapMul | src/PH.Time/PH.Time/Time.cs:113-114 | Wrapping a factor first does not change the wrapped product. |
| Text.NatToString | src/PH.Time/PH.Time/Time.cs:192-194 | `$"{n}"` of a natural number is at least one decimal digit, exactly one digit iff n < 10, and has no leading zero when n > 0. |
| Text.IntToString | src/PH.Time/PH.Time/Time.cs:192-194 | `$"{n}"` of an int: a '-' before the digits of a negative value. No ensures of its own; see `ParseIntToString` and `TwoDigits`. |
| Text.PadLeft | src/PH.Time/PH.Time/Time.cs:192-194 | `PadLeft(width, c)` has length max(len, width), ends with the original string, and is `c` before it. |
| Text.SplitFrom | src/PH.Time/PH.Time/Time.cs:220 | Every segment of `Split(..., RemoveEmptyEntries)` is non-empty and holds no separator. |
| Text.Split | src/PH.Time/PH.Time/Time.cs:220 | `Split(new[] {sep}, RemoveEmptyEntries)`. No ensures of its own; see the ensures of `SplitFrom`, and `SplitJoin`, `JoinSplit` and `SplitFromEmpty`. |
| Text.SplitJoin | src/PH.Time/PH.Time/Time.cs:220 | For every list of non-empty, separator-free words, splitting their join gives the list back. |
| Text.JoinSplit | src/PH.Time/PH.Time/Time.cs:220 | For every string, joining its segments gives the string with its leading, trailing and repeated separators removed (`Squeeze`). |
| Text.SqueezeKeepsWordChars | src/PH.Time/PH.Time/Time.cs:220 | `Squeeze` removes separators only: the other characters stay, in their order. |
| Text.SplitSqueeze | src/PH.Time/PH.Time/Time.cs:220 | A string and its squeezed form split into the same segments. |
| Text.SplitFromEmpty | src/PH.Time/PH.Time/Time.cs:220 | `Split` returns no segment iff the string holds nothing but separators. |
| Text.TrimStartSpec | src/PH.Time/PH.Time/Time.cs:223 | The result is what is left of the string after its leading characters: every character removed is white space, and the result does not start with white space. |
| Text.TrimEndSpec | src/PH.Time/PH.Time/Time.cs:223 | The result is what is left of the string before its trailing characters: every character removed is white space, and the result does not end with white space. |
| Text.TrimNullsSpec | src/PH.Time/PH.Time/Time.cs:223 | The result is what is left of the string before its trailing characters: every character removed is '\0', and the result does not end with '\0'. |
| Text.ParseTrailingNull | src/PH.Time/PH.Time/Time.cs:223 | Appending '\0' to a string does not change what `int.Parse` returns for it. |
| Text.DigitsValueOfNatToString | src/PH.Time/PH.Time/Time.cs:192-194 | The digits that `$"{n}"` renders read back as `n`. |
| Text.ParseIntToString | src/PH.Time/PH.Time/Time.cs:223 | `int.Parse($"{n}")` gives `n` for every int32, negative ones included. |
| Text.ParseInt32 | src/PH.Time/PH.Time/Time.cs:223 | `int.Parse`, with `None` for its exceptions. No ensures of its own; see `ParseIntToString`, `ParseDigits`, `ParseNegativeDigits` and `ParseTrailingNull`. |
| Text.ParseSigned | src/PH.Time/PH.Time/Time.cs:223 | The sign and digits that `int.Parse` reads once the surrounding white space is trimmed. No ensures of its own; see `ParseDigits` and `ParseNegativeDigits`. |
| Text.ParseNegativeDigits | src/PH.Time/PH.Time/Time.cs:223 | `int.Parse` of '-' and digits whose value fits is the negated value. |
| Text.ParseDigits | src/PH.Time/PH.Time/Time.cs:223 | `int.Parse` of digits whose value fits is that value. |
| Text.TwoDigits | src/PH.Time/PH.Time/Time.cs:192-194 | A field value in [0, 99] padded to width 2 is exactly its tens digit and its units digit. |
| Text.ParseTwoDigits | src/PH.Time/PH.Time/Time.cs:223-226 | `int.Parse` of a zero-padded two-digit field gives the value back. |
| Text.ParsePair | src/PH.Time/PH.Time/Time.cs:223 | Any two decimal digit characters parse to ten times the first digit plus the second. |
| Text.SplitTwo | src/PH.Time/PH.Time/Time.cs:220 | Splitting "a:b" (non-empty, colon-free words) gives [a, b]. |
| Text.SplitThree | src/PH.Time/PH.Time/Time.cs:220 | Splitting "a:b:c" gives [a, b, c]. |
| PHTime.PartOfCode | src/PH.Time/PH.Time/Time.cs:8-21 | The cast `(TimePart)code` is `Hours`, `Minutes` or `Seconds` iff the code is 0, 1 or 2, and otherwise an undefined part that keeps the code. |
| PHTime.Valid | src/PH.Time/PH.Time/Time.cs:50-70 | The ranges the constructor checks: hours 0..23, minutes and seconds 0..59. No ensures of its own; see `Create` and `MinMaxBounds`. |
| PHTime.CompareInt | src/PH.Time/PH.Time/Time.cs:84-96 | `Int32.CompareTo` on one field. No ensures of its own; see the ensures of `CompareTo`. |
| PHTime.Create | src/PH.Time/PH.Time/Time.cs:50-70 | Succeeds iff all three fields are in range, and then holds exactly the arguments. Otherwise it fails on hours, else minutes, else seconds. |
| PHTime.MinMaxBounds | src/PH.Time/PH.Time/Time.cs:73-77 | `MinValue` and `MaxValue` are what the constructor builds from (0,0,0) and (23,59,59). Every valid time lies between them. |
| PHTime.CompareTo | src/PH.Time/PH.Time/Time.cs:82-97 | The result is -1, 0 or 1. It is 0 iff the values are equal, and -1 iff (Hours, Minutes, Seconds) is lexicographically smaller. |
| PHTime.Equals | src/PH.Time/PH.Time/Time.cs:133-146 | Field-by-field equality is equality of the values. |
| PHTime.Eq | src/PH.Time/PH.Time/Time.cs:148-151 | `==` is `Equals`. No ensures of its own; see `Equals` and `OperatorLaws`. |
| PHTime.Neq | src/PH.Time/PH.Time/Time.cs:152-155 | `!=` is the negation of `Equals`. No ensures of its own; see `OperatorLaws` and `AllDifferIffAbsent`. |
| PHTime.Lt | src/PH.Time/PH.Time/Time.cs:157-160 | `<` is `CompareTo == -1`. No ensures of its own; see `OperatorLaws`, `LtTransitive` and `CompareToMatchesSecondsOfDay`. |
| PHTime.Le | src/PH.Time/PH.Time/Time.cs:161-165 | `<=` is `CompareTo < 1`. No ensures of its own; see `OperatorLaws`, `LeAntisymmetric` and `CompareToMatchesSecondsOfDay`. |
| PHTime.Gt | src/PH.Time/PH.Time/Time.cs:166-169 | `>` is `CompareTo == 1`. No ensures of its own; see `OperatorLaws` and `TimeArrayFails`. |
| PHTime.Ge | src/PH.Time/PH.Time/Time.cs:171-175 | `>=` is `CompareTo >= 0`. No ensures of its own; see `OperatorLaws`. |
| PHTime.CompareToLaws | src/PH.Time/PH.Time/Time.cs:82-97 | `CompareTo` is antisymmetric and transitive, for both `<` and `<=`. |
| PHTime.OperatorLaws | src/PH.Time/PH.Time/Time.cs:148-175 | `<=` is `<` or `==`; `>=` is not `<`; `>` is `<` reversed; `!=` is not `==`; exactly one of `<`, `==`, `>` holds. |
| PHTime.LtTransitive | src/PH.Time/PH.Time/Time.cs:157-160 | `<` is transitive. |
| PHTime.LeAntisymmetric | src/PH.Time/PH.Time/Time.cs:161-165 | `a <= b` and `b <= a` give `a == b`. |
| PHTime.SortedPermutationsEqual | src/PH.Time/PH.Time.XUnitTest/UnitTest1.cs:122-137 | Any two ascending arrangements of the same times are identical, so sorting by `CompareTo` has only one outcome. |
| PHTime.GetMilliseconds | src/PH.Time/PH.Time/Time.cs:111-117 | The accumulated int is the exact h·3600000 + m·60000 + s·1000 wrapped to 32 bits. For a valid time it is the exact value, in [0, 86399000]. |
| PHTime.Millis | src/PH.Time/PH.Time/Time.cs:113-115 | The exact millisecond count h·3600000 + m·60000 + s·1000. No ensures of its own; see `GetMilliseconds`, `MillisRange` and `MillisInjective`. |
| PHTime.MillisWrapped | src/PH.Time/PH.Time/Time.cs:113-115 | Wrapping after every step of the three assignments equals wrapping the exact sum once. |
| PHTime.MillisRange | src/PH.Time/PH.Time/Time.cs:111-117 | A valid time's milliseconds lie in [0, 86399000]. |
| PHTime.GetHashCode | src/PH.Time/PH.Time/Time.cs:101-107 | The hash is the milliseconds. |
| PHTime.CompareToMatchesMillis | src/PH.Time/PH.Time/Time.cs:82-117 | For valid times, `CompareTo` equals the comparison of the milliseconds, so the milliseconds are strictly monotone. |
| PHTime.MillisInjective | src/PH.Time/PH.Time/Time.cs:111-146 | For valid times, equal milliseconds iff `Equals`. |
| PHTime.MillisCollideOutOfRange | src/PH.Time/PH.Time/Time.cs:32-42 | Through the unchecked setters 00:60:00 and 01:00:00 have the same milliseconds, so validity is needed above. |
| PHTime.FieldOfValid | src/PH.Time/PH.Time/Time.cs:192-194 | Each field of a valid time renders as its two decimal digits. |
| PHTime.Field | src/PH.Time/PH.Time/Time.cs:192-194 | `$"{v}".PadLeft(2, '0')`. No ensures of its own; see `FieldOfValid`, `TwoDigits` and `ParseTwoDigits`. |
| PHTime.ToString | src/PH.Time/PH.Time/Time.cs:190-206 | `ToString(format)`. No ensures of its own; see `ToStringLayout`, `ShortFormSplits` and `TryParseShortRoundTrip`. |
| PHTime.ToStringDefault | src/PH.Time/PH.Time/Time.cs:182-185 | `ToString()` is `ToString("T")`. No ensures of its own; see `ToStringDefaultLayout`, `LongFormSplits` and `TryParseRejectsLongForm`. |
| PHTime.ToStringLayout | src/PH.Time/PH.Time/Time.cs:190-206 | "t" renders "HH:MM" (5 characters). Any other format renders "HH:MM:SS" (8 characters). Each field is two digits that read as its value. |
| PHTime.ToStringDefaultLayout | src/PH.Time/PH.Time/Time.cs:182-185 | `ToString()` renders "HH:MM:SS". |
| PHTime.TryParse | src/PH.Time/PH.Time/Time.cs:215-233 | On failure the out value is `MinValue`. On success it is a valid time with seconds 0. |
| PHTime.TryParseSucceeds | src/PH.Time/PH.Time/Time.cs:215-233 | Success iff there are 2 or at least 4 segments and the first two parse to an in-range hour and minute. The result is then Time(h, m, 0). |
| PHTime.TryParseRejectsSegmentCount | src/PH.Time/PH.Time/Time.cs:221-226 | Fewer than two segments, or exactly three, give (false, MinValue). |
| PHTime.TryParseTwoSegments | src/PH.Time/PH.Time/Time.cs:226-227 | Two numeric in-range segments give (true, Time(h, m, 0)). |
| PHTime.ShortFormSplits | src/PH.Time/PH.Time/Time.cs:200-201 | The "t" rendering splits into the two padded fields. |
| PHTime.LongFormSplits | src/PH.Time/PH.Time/Time.cs:202-204 | The default rendering splits into the three padded fields. |
| PHTime.TryParseShortRoundTrip | src/PH.Time/PH.Time/Time.cs:215-233 | `TryParse(t.ToString("t"))` is (true, Time(t.Hours, t.Minutes, 0)) for every valid `t`. |
| PHTime.TryParseRejectsLongForm | src/PH.Time/PH.Time/Time.cs:221-223 | As written, `TryParse(t.ToString())` is (false, MinValue) for every valid `t`. |
| PHTime.TryParseIntended | src/PH.Time/PH.Time/Time.cs:215-233 | The corrected parser reads seconds from `spl[2]`. Failure gives `MinValue`; success gives a valid time. |
| PHTime.TryParseIntendedRoundTrip | src/PH.Time/PH.Time/Time.cs:221-223 | The corrected parser inverts both renderings: the long one exactly, the short one with seconds 0. |
| PHTime.IntendedLongForm | src/PH.Time/PH.Time/Time.cs:221-223 | The corrected parser gives (true, t) on `t.ToString()`. |
| PHTime.IntendedShortForm | src/PH.Time/PH.Time/Time.cs:226-227 | The corrected parser gives (true, Time(h, m, 0)) on `t.ToString("t")`. |
| TimeExtensions.FromSecondsOfDay | src/PH.Time/PH.Time/TimeExtensions.cs:94-97 | The fields a `DateTime` shows n seconds after midnight form the one valid time with that second of day. |
| TimeExtensions.SecondsOfDayInjective | src/PH.Time/PH.Time/TimeExtensions.cs:94-97 | A valid time is determined by its second of day. |
| TimeExtensions.TimeOfDayFields | src/PH.Time/PH.Time/TimeExtensions.cs:94-97 | Hour n/3600, minute n/60%60 and second n%60 are in range and add back up to n. |
| TimeExtensions.DayOfOffset | src/PH.Time/PH.Time/TimeExtensions.cs:72-73 | The flag `AddSeconds` computes in place of `dt1.Day != dt0.Day`, the Euclidean quotient `offset / 86400 != 0`, holds iff the offset leaves [0, 86400). |
| TimeExtensions.SecondsOfDay | src/PH.Time/PH.Time/TimeExtensions.cs:49-50 | The second of the day a `DateTime` built from the fields shows. No ensures of its own; see `SecondsOfDayRange`, `SecondsOfDayInjective` and `FromSecondsOfDay`. |
| TimeExtensions.GetTime | src/PH.Time/PH.Time/TimeExtensions.cs:94-101 | Copying an in-range triple never throws. It equals the constructor's result and keeps the three values. |
| TimeExtensions.AddSeconds | src/PH.Time/PH.Time/TimeExtensions.cs:69-76 | For a shift of less than a day either way, it fails with the `DateTime` error iff the time is invalid. Otherwise the result is valid, its second of day is (s + delta) mod 86400, and the day flag is set iff s + delta leaves [0, 86400). |
| TimeExtensions.AddSecondsRoundTrip | src/PH.Time/PH.Time/TimeExtensions.cs:47-92 | Adding then subtracting a step shorter than a day gives the time back, and the reverse order does too. Both report the same day change. |
| TimeExtensions.CompareToMatchesSecondsOfDay | src/PH.Time/PH.Time/Time.cs:82-97 | For valid times, `<` and `<=` are the order of the seconds of day. |
| TimeExtensions.NextHour | src/PH.Time/PH.Time/TimeExtensions.cs:86-92 | Hours become (h + 1) mod 24, minutes and seconds stay, and the flag is set iff h = 23. |
| TimeExtensions.NextMinute | src/PH.Time/PH.Time/TimeExtensions.cs:78-84 | Below 59 the minutes increase and nothing else changes. At 59 it is `NextHour` with minutes 0. |
| TimeExtensions.NextSecond | src/PH.Time/PH.Time/TimeExtensions.cs:69-76 | Below 59 the seconds increase. At 59 it is `NextMinute` with seconds 0. |
| TimeExtensions.PreviousHour | src/PH.Time/PH.Time/TimeExtensions.cs:62-68 | Hours become h - 1, or 23 from 0. The other fields stay, and the flag is set iff h = 0. |
| TimeExtensions.PreviousMinute | src/PH.Time/PH.Time/TimeExtensions.cs:55-61 | Above 0 the minutes decrease. At 0 it is `PreviousHour` with minutes 59. |
| TimeExtensions.PreviousSecond | src/PH.Time/PH.Time/TimeExtensions.cs:47-54 | Above 0 the seconds decrease. At 0 it is `PreviousMinute` with seconds 59. |
| TimeExtensions.Next | src/PH.Time/PH.Time/TimeExtensions.cs:14-26 | Fails iff the time is invalid. Otherwise it is valid with second of day (s + unit) mod 86400, and `onNextDay` is set iff s + unit >= 86400. |
| TimeExtensions.Previous | src/PH.Time/PH.Time/TimeExtensions.cs:33-45 | Fails iff the time is invalid. Otherwise it is valid with second of day (s - unit) mod 86400, and `onPreviousDay` is set iff s - unit < 0. |
| TimeExtensions.StepSeconds | src/PH.Time/PH.Time/TimeExtensions.cs:14-45 | The seconds of the unit each part steps by: 3600 for `Hours`, 60 for `Minutes`, 1 for anything else. No ensures of its own; see `Next` and `Previous`. |
| TimeExtensions.StepRoundTrip | src/PH.Time/PH.Time/TimeExtensions.cs:14-45 | From a valid time, `Previous(Next(t))` is `t` and `Next(Previous(t))` is `t`, by every part. The backward day flag equals the forward one. |
| TimeExtensions.StepOrder | src/PH.Time/PH.Time/TimeExtensions.cs:14-45 | Every step is valid. Without a day change `Next` is later and `Previous` earlier; with one, the other way round. |
| TimeExtensions.NextOrder | src/PH.Time/PH.Time/TimeExtensions.cs:14-26 | The `Next` half of `StepOrder`. |
| TimeExtensions.PreviousOrder | src/PH.Time/PH.Time/TimeExtensions.cs:33-45 | The `Previous` half of `StepOrder`. |
| TimeExtensions.UnitStepWithinDay | src/PH.Time/PH.Time/TimeExtensions.cs:14-26 | Below its maximum, the stepped field is incremented alone, with no day change. |
| TimeExtensions.MaxValueNextSecond | src/PH.Time/PH.Time.XUnitTest/UnitTest1.cs:150-187 | `MaxValue.NextSecond` is (00:00:00, true). |
| TimeExtensions.MinValuePreviousSecond | src/PH.Time/PH.Time.XUnitTest/UnitTest1.cs:215-230 | `MinValue.Previous(Seconds)` is (23:59:59, true). |
| TimeExtensions.HourWrapsAtMidnight | src/PH.Time/PH.Time/TimeExtensions.cs:86-92 | 23:00:00 stepped by hours is (00:00:00, true). |
| TimeExtensions.CarryIntoHour | src/PH.Time/PH.Time.XUnitTest/UnitTest1.cs:147-182 | 09:59:59.NextSecond is (10:00:00, false). |
| TimeExtensions.HourFromMidnight | src/PH.Time/PH.Time/TimeExtensions.cs:86-92 | From second 0, one hour later is (01:00:00, false). |
| TimeExtensions.MinuteFromMidnight | src/PH.Time/PH.Time/TimeExtensions.cs:78-84 | From second 0, one minute later is (00:01:00, false). |
| TimeExtensions.SecondFromMidnight | src/PH.Time/PH.Time/TimeExtensions.cs:69-76 | From second 0, one second later is (00:00:01, false). |
| TimeExtensions.StepsFromMinValue | src/PH.Time/PH.Time.XUnitTest/UnitTest1.cs:165-207 | MinValue.Next by hours, minutes and seconds gives 01:00:00, 00:01:00 and 00:00:01, each with flag false. |
| TimeExtensions.DayBounds | src/PH.Time/PH.Time/Time.cs:73-77 | `MinValue` is second 0 of the day and `MaxValue` second 86399. |
| TimeExtensions.BorrowFromHour | src/PH.Time/PH.Time.XUnitTest/UnitTest1.cs:218-236 | From 09:00:00, one hour back is (08:00:00, false) and one minute back is (08:59:00, false). |
| TimeFactory.BuildTimeArrayBySteps | src/PH.Time/PH.Time/TimeFactory.cs:9-13 | Always fails with `NotImplementedException`. |
| TimeFactory.ThrowIfBeginIsGreaterThanEnd | src/PH.Time/PH.Time/TimeFactory.cs:143-149 | Throws the range error exactly when `start <= end` does not hold. |
| TimeFactory.StepRun | src/PH.Time/PH.Time/TimeFactory.cs:52-57 | What the `while` loop collects, as a recursive function. No ensures of its own; see `StepRunIsStepRun`, `StepRunCharacterized`, `StepRunOrdered` and `StepRunLength`. |
| TimeFactory.StepRunIsStepRun | src/PH.Time/PH.Time/TimeFactory.cs:52-57 | The loop's specification meets the closed form: each element is valid and below `end`, each lies one unit after the one before (the first one unit after `start`), and one more step would leave the day or reach `end`. |
| TimeFactory.IsStepRunUnique | src/PH.Time/PH.Time/TimeFactory.cs:52-57 | Only that run meets the closed form. |
| TimeFactory.StepRunCharacterized | src/PH.Time/PH.Time/TimeFactory.cs:52-57 | A sequence is the loop's run iff it meets the closed form. |
| TimeFactory.StepRunOffsets | src/PH.Time/PH.Time/TimeFactory.cs:52-57 | Element i lies (i + 1) units after `start`. |
| TimeFactory.StepRunOrdered | src/PH.Time/PH.Time/TimeFactory.cs:52-57 | The run rises strictly, and every element is valid, after `start` and below `end`. |
| TimeFactory.StepRunUnfold | src/PH.Time/PH.Time/TimeFactory.cs:53-56 | One loop iteration: the run is empty when the step changes day or is not below `end`, else it is that step followed by the run from it. |
| TimeFactory.NextAdvances | src/PH.Time/PH.Time/TimeFactory.cs:52-56 | A step that stays on the same day is valid and exactly one unit later. |
| TimeFactory.StepRunLength | src/PH.Time/PH.Time/TimeFactory.cs:52-57 | Towards a valid `end`, the run has one element per whole unit strictly between `start` and `end`. |
| TimeFactory.CollectSteps | src/PH.Time/PH.Time/TimeFactory.cs:52-57 | The `while` loop fails iff `start` is invalid, and otherwise collects exactly the run. It terminates because, until the day changes, the second of day strictly rises below 86400. |
| TimeFactory.Except | src/PH.Time/PH.Time/TimeFactory.cs:65 | LINQ `first.Except(second)`. No ensures of its own; see `ExceptIsSetDifference` and `ExceptDropsLast`. |
| TimeFactory.ExceptFrom | src/PH.Time/PH.Time/TimeFactory.cs:65 | `Except` with the set of elements already excluded or emitted. No ensures of its own; see `ExceptFromSpec` and `ExceptFromDropsLast`. |
| TimeFactory.ExceptFromSpec | src/PH.Time/PH.Time/TimeFactory.cs:65 | For every list and set, an element is in the result iff it is in the list and not in the set, and no element occurs twice in the result. |
| TimeFactory.ExceptFromDropsLast | src/PH.Time/PH.Time/TimeFactory.cs:65 | LINQ `Except` on distinct elements, with only the last one excluded, removes that one and keeps the order. |
| TimeFactory.ExceptIsSetDifference | src/PH.Time/PH.Time/TimeFactory.cs:65 | An element is in `first.Except(second)` iff it is in `first` and not in `second`, and no element occurs twice in the result. |
| TimeFactory.ExceptDropsLast | src/PH.Time/PH.Time/TimeFactory.cs:65 | For a strictly increasing list `l`, `l.Except(new[]{last})` is `l` without its last element. |
| TimeFactory.ExceptDropsLastOfRun | src/PH.Time/PH.Time/TimeFactory.cs:65 | The same for the list the hour builder holds at that point. |
| TimeFactory.AllDifferIffAbsent | src/PH.Time/PH.Time/TimeFactory.cs:60 | `l.All(a => a != end)` holds iff `end` does not occur in `l`. |
| TimeFactory.BuildTimeArrayByHours | src/PH.Time/PH.Time/TimeFactory.cs:43-73 | Returns `TimeArray(start, end, Hours, includeExtremes)`, failure cases included. |
| TimeFactory.BuildTimeArrayByMinutes | src/PH.Time/PH.Time/TimeFactory.cs:81-105 | Returns `TimeArray(start, end, Minutes, includeExtremes)`. |
| TimeFactory.BuildTimeArrayBySeconds | src/PH.Time/PH.Time/TimeFactory.cs:113-137 | Returns `TimeArray(start, end, Seconds, includeExtremes)`. |
| TimeFactory.BuildTimeArray | src/PH.Time/PH.Time/TimeFactory.cs:22-35 | `Minutes` goes to the minute builder, `Seconds` to the second builder, and every other part to the hour builder. |
| TimeFactory.ArrayPart | src/PH.Time/PH.Time/TimeFactory.cs:25-33 | The unit the switch builds by: `Minutes` and `Seconds` as named, any other part by hours. No ensures of its own; see `BuildTimeArray`. |
| TimeFactory.WithExtremes | src/PH.Time/PH.Time/TimeFactory.cs:58-69 | The extremes rule applied to the collected list. No ensures of its own; see `WithExtremesEnds`, `ExtremesOrdered` and `TimeArrayExtremes`. |
| TimeFactory.TimeArray | src/PH.Time/PH.Time/TimeFactory.cs:43-137 | What every builder returns. No ensures of its own; the builder methods are proved equal to it, and `TimeArrayFails`, `TimeArrayOrdered`, `TimeArrayWithoutExtremes`, `TimeArrayExtremes` and `TimeArrayLength` state its properties. |
| TimeFactory.CollectedOrdered | src/PH.Time/PH.Time/TimeFactory.cs:46-57 | The list before `end` is looked at rises strictly. It holds valid times from `start` on, each other than `start` below `end`. |
| TimeFactory.TimeArrayFails | src/PH.Time/PH.Time/TimeFactory.cs:45 | A builder fails iff `start > end` (range error) or `start` is invalid (the `DateTime` error). |
| TimeFactory.ExtremesOrdered | src/PH.Time/PH.Time/TimeFactory.cs:58-69 | If the collected list rises strictly from `start` and stays below `end`, then after the extremes rule it still rises strictly and lies within [start, end]. |
| TimeFactory.TimeArrayOrdered | src/PH.Time/PH.Time/TimeFactory.cs:46-73 | Every array rises strictly and lies within [start, end]. Its elements are valid times, except possibly `end`. |
| TimeFactory.TimeArrayWithoutExtremes | src/PH.Time/PH.Time/TimeFactory.cs:52-57 | Without the extremes, the array is the run: `start` plus k units for k = 1, 2, ..., each below `end` and on the same day, up to the first that is not. |
| TimeFactory.SameHourRunEmpty | src/PH.Time/PH.Time/TimeFactory.cs:52-53 | By hours from a `start` in the hour of `end`, the loop collects nothing. |
| TimeFactory.TimeArrayExtremes | src/PH.Time/PH.Time/TimeFactory.cs:58-69 | With the extremes, the array ends with `end` and every earlier element is below it, so `end` occurs once. It starts with `start`, unless it is built by hours from a `start` before `end` in the same hour. |
| TimeFactory.WithExtremesEnds | src/PH.Time/PH.Time/TimeFactory.cs:58-69 | The extremes rule on a run strictly between `start` and `end` ends with `end` and starts with `start` except in that same-hour case. |
| TimeFactory.TimeArraySameBounds | src/PH.Time/PH.Time.XUnitTest/UnitTest1.cs:264-279 | `start == end` gives `[start]` with the extremes and `[]` without. |
| TimeFactory.HoursSharedHourDropsStart | src/PH.Time/PH.Time/TimeFactory.cs:58-69 | By hours, a `start` before `end` in the same hour gives just `[end]`: `start` is removed. |
| TimeFactory.HoursOfDay | src/PH.Time/PH.Time/TimeFactory.cs:43-73 | By hours from second 0 to second 86399, there are 24 elements, 01:00:00 at index 1 and `end` at index 23. |
| TimeFactory.TimeArrayHoursOfDay | src/PH.Time/PH.Time.XUnitTest/UnitTest1.cs:249-272 | `BuildTimeArray(MinValue, MaxValue)` has 24 elements, with 01:00:00 at [1] and 23:59:59 at [23]. |
| TimeFactory.TimeArrayLength | src/PH.Time/PH.Time/TimeFactory.cs:81-137 | By minutes or seconds between valid `start < end`, there is one element per whole unit strictly between them, plus two with the extremes. |
| TimeFactory.SecondsOfWholeDay | src/PH.Time/PH.Time/TimeFactory.cs:113-137 | By seconds from second 0 to second 86399 with the extremes, there are 86400 elements. |
| TimeFactory.TimeArraySecondsOfDay | src/PH.Time/PH.Time.XUnitTest/UnitTest1.cs:251-274 | `BuildTimeArray(MinValue, MaxValue, Seconds, true)` has 86400 elements. |
| TimeFactory.FirstTwoMinutes | src/PH.Time/PH.Time/TimeFactory.cs:81-105 | By minutes from second 0 to second 120 without the extremes, the array is exactly the time at second 60. |
| TimeFactory.TimeArrayTwoMinutes | src/PH.Time/PH.Time.XUnitTest/UnitTest1.cs:246-268 | `BuildTimeArray(MinValue, 00:02:00, Minutes, false)` is `[00:01:00]`. |
| TimeFactory.TimeArrayBoundsExamples | src/PH.Time/PH.Time.XUnitTest/UnitTest1.cs:254-279 | Reversed bounds fail with the range error. `MinValue` to itself by seconds gives `[MinValue]`, or `[]` without the extremes. |
| TimeExtensions.NextUnitIsAdd | src/PH.Time/PH.Time/TimeExtensions.cs:14-26 | Helper that expands the definitions, used where `Next` is well-formed: the dispatch sends `Hours` to `NextHour`, `Minutes` to `NextMinute` and anything else to `NextSecond`. Each adds its unit's seconds. |
| TimeExtensions.PreviousUnitIsAdd | src/PH.Time/PH.Time/TimeExtensions.cs:33-45 | Helper that expands the definitions: the same for `Previous`, subtracting. |
| TimeExtensions.NextIsAddSeconds | src/PH.Time/PH.Time/TimeExtensions.cs:14-45 | Helper that expands the definitions: `Next` and `Previous` add and subtract their unit's seconds. |

## Left out

- `System.DateTime` and `DateTimeOffset` are not modelled beyond one day on 1970-01-01. `AddSeconds` reduces the offset modulo 86400 and compares days, which is what `DateTime` does for the shifts of at most an hour that the source makes. It takes only shifts of less than a day. `GetTime` copies an in-range triple.
- ParseInt32: `int.Parse` and `$"{v}"` take their signs from the current culture. The model fixes them to '-' and '+'. A culture whose `NegativeSign` or `PositiveSign` is different is not modelled, either when parsing or when rendering negative fields. Everything else in `NumberStyles.Integer` is modelled: white space U+0009..U+000D and U+0020 on both sides, ASCII digits, and trailing '\0' characters.
- `Equals(object)` is left out: it only unboxes and delegates to `Equals(Time)`, and the model has no boxing.
- JSON serialization, `InternalsVisibleTo` and the test harness are not modelled; they are plumbing.
- `TimePart.cs` is not modelled separately. It declares the same enum as `Time.cs`, and the model has one `TimePart`. Its `Undefined` case stands for any integer cast to the enum outside the three names. `Undefined(0)`, `Undefined(1)` and `Undefined(2)` have no C# counterpart: `PartOfCode` never returns them, and the operations treat them like every other undefined part.
- Setter validation is not modelled, because the setters are plain auto-properties that check nothing. Any `Time` value is allowed, and `Valid` states the ranges where operations need them.
- `Time.Parse`, `GetShortTime` and `IFormattable` formatting (`{t:G}`, `{t:t}`) are not modelled: the source does not define them. Only the tests use them.
- BuildTimeArrayBySteps: the source body only throws `NotImplementedException`, so the model always fails with `NotImplemented`. The behaviour its tests expect is not modelled.
- The constructor and `TryParse` are functions that return a value. The constructor's property assignments and the overwritten `out` parameter of `TryParse` are values, not in-place updates, because `Time` is a struct copied on assignment.
- TryParse: a `null` argument is not modelled, because a Dafny `string` cannot be null. In C# the `NullReferenceException` is caught and gives (false, MinValue).
- The three builders share one loop method, `CollectSteps`, because the three C# loops differ only in the unit they step by. `List<Time>` is a sequence, and `ToArray()` returns it unchanged.
- The `null != last` test in the hour builder is not modelled: it is always true for a struct. The list it reads is never empty there, since `start` has been added.

## Findings

| source | as written | input that shows it | evidently intended | confidence | as-written member | corrected member |
|---|---|---|---|---|---|---|
| src/PH.Time/PH.Time/Time.cs:221-223 | With exactly three segments the seconds are read from `spl[3]`, past the end of the array. The `IndexOutOfRangeException` is caught and `TryParse` returns false. | "12:13:14" gives (false, 00:00:00); so does the long rendering of every valid time. | Seconds read from `spl[2]`, so "12:13:14" gives (true, 12:13:14) and `TryParse(t.ToString())` gives `t` back. | high, not executed | PHTime.TryParseRejectsLongForm | PHTime.TryParseIntendedRoundTrip |
