# NASA POWER weather-file pipeline, modelled in Dafny

`NasaService` (src/nasa/nasa.service.ts) builds a DSSAT-style weather file for a station
from two files downloaded from the NASA POWER service:

- **Hourly aggregation.** The hourly CSV file (`hourly.csv`) is read. Its nine-line preamble is dropped. For every date, the service counts the hours whose relative humidity at 2 m (`RH2M`) is at least 90 percent. The result is the `rh90Map` dictionary, keyed by `YYYYMMDD`.
- **Daily merge.** The daily ICASA file (`daily.WTH`) is copied line by line to `weather-files/<nasapid>.WTH`:
  - The column-header line (the one holding `@  DATE`) gets the title `    RH90` appended.
  - Every data line gets its date's count appended, right-justified to seven characters. A data line starts with a date in ordinal form `YYYYDDD`, which is converted to `YYYYMMDD` through JavaScript's `Date`.
  - Every other line is dropped.
- **Synchronisation.** `syncData` runs the above for station `example1`. It then replaces every `$WEATHER` with `*WEATHER` in the weather files.

The project models these transforms on the file contents:

- The two `forEach` loops are methods with loops. Each is proved against a specification function:
  - `AggregateHourly` against `HourlyCounts`.
  - `MergeDaily` against `MergedText`.
- Their callbacks are methods proved against per-line functions:
  - `CountLine` against `Tally` and `Classify`.
  - `MergeDailyLine` against `MergeLine`.
- The string, number and date primitives the code relies on are functions with contracts:
  - `split`, `join`, `trim`, `\s+`, `padStart`, `replace`
  - `parseFloat`, `parseInt` and `toString`
  - `new Date(y, 0, d)` and `toISOString`
- The lemmas state what the pipeline promises.

Modules:

- `Wrappers`: `Option`.
- `Text`: the JavaScript string primitives, and decimal digit text.
- `JsNumber`: `parseFloat`, exactly, on decimal text.
  - The result is a sign, a digit string and a power of ten, or NaN or Infinity.
  - The comparison `>= 90` is exact. Only binary64 rounding is not modelled.
- `Calendar`: the proleptic Gregorian calendar as `Date` uses it.
  - It includes the roll-over of day 366 of a common year, and the 1900 offset for years 0..99.
  - It includes the `toISOString` date text, with the six-digit year form beyond 9999.
- `HourlyAggregator`, `DailyMerger`, `Sanitizer`: the three transforms.
- `Pipeline`: the processing half of `fetchAndProcessData`, and `syncData`.

Behaviour the code has and the model keeps:

- **Four-field hourly lines are dropped.** A line such as `2001,01,01,95` is skipped, because the code needs a fifth field (`RH2M` is the fifth element of the destructured split). Only `YEAR,MO,DY,HR,RH2M` lines count.
- **Humidity text is read by `parseFloat`, then compared with 90.** Text without an exponent is decided by its integer part, so `89.9` does not qualify; `9e1` and `Infinity` do. An empty, non-numeric or negative field never qualifies. It still creates its date's key: at count 0 when the date is new, and at its current count otherwise.
- **A surviving column-title line makes a stray key.** If the hourly file's `YEAR,MO,DY,HR,RH2M` line falls after the nine dropped lines, it creates the key `YEARMODY` with count 0.
- **Whitespace-led daily lines are dropped.** A daily line that starts with white space has an empty first token, so it is dropped.
- **Keys beyond year 9999 do not match.** Day 366 of the common year 9999 gives the key `+01000001`, which no hourly line with a four-digit year produces (a line such as `+0100,00,01,0,95` would).

The host's time zone is assumed to be UTC or west of it. `new Date(y, 0, d)` is local midnight and `toISOString` reads UTC. East of UTC every key would be one day earlier.

## Model

| member | source | states |
|---|---|---|
| HourlyAggregator.AggregateHourly | src/nasa/nasa.service.ts:75-95 | the dictionary built from the lines after the nine-line preamble is `HourlyCounts` of those lines: exactly the dates of accepted lines, each mapped to its number of qualifying hours |
| HourlyAggregator.CountLine | src/nasa/nasa.service.ts:79-94 | one callback call updates the dictionary as `Tally` of the line's classification: a skipped line changes nothing |
| HourlyAggregator.CountHour | src/nasa/nasa.service.ts:93-94 | the two dictionary statements: an absent or zero entry is set to 0, then a qualifying hour adds 1 |
| HourlyAggregator.TallyHour | src/nasa/nasa.service.ts:93-94 | after an hour, its date's count is the previous count (0 when absent) plus 1 if it qualifies, and no other entry changes |
| HourlyAggregator.CountStep | src/nasa/nasa.service.ts:79-95 | one more row keeps the loop invariant: keys are the dates seen so far and each count is the qualifying hours seen so far |
| HourlyAggregator.HourlyRows | src/nasa/nasa.service.ts:75 | definition: the file split on `\n`, first nine lines dropped; meaning stated by `PreambleSkipped` |
| HourlyAggregator.ParseHourlyLine | src/nasa/nasa.service.ts:80-90 | an accepted line is not blank, its YEAR, MO and DY are non-empty, and no field holds a comma; which record it gives is stated by `WellFormedLineAccepted`, `ExtraFieldsAccepted` and the `...Skipped` lemmas |
| HourlyAggregator.Classify | src/nasa/nasa.service.ts:84-94 | definition: nothing for a skipped line, else the date key and `parseFloat(RH2M) >= 90`; meaning stated by `LineTally` and the examples |
| HourlyAggregator.HourlyCounts | src/nasa/nasa.service.ts:76-95 | definition: every date key of an accepted row, mapped to its qualifying hours; meaning stated by `AggregateHourly`, `KeysAreAcceptedDates` and `QualifyingHoursCountsRows` |
| HourlyAggregator.Tally | src/nasa/nasa.service.ts:93-94 | definition: the two dictionary statements on one row; meaning stated by `TallyHour` and `LineTally` |
| HourlyAggregator.PreambleSkipped | src/nasa/nasa.service.ts:75 | after nine lines, the rows walked are exactly the lines of the rest of the file |
| HourlyAggregator.WellFormedLineAccepted | src/nasa/nasa.service.ts:84-90 | a `YEAR,MO,DY,HR,RH2M` line with non-empty date fields is accepted with exactly those fields, the humidity being the fifth |
| HourlyAggregator.FewFieldsSkipped | src/nasa/nasa.service.ts:84-90 | a line with fewer than five comma fields is skipped |
| HourlyAggregator.ExtraFieldsAccepted | src/nasa/nasa.service.ts:84-90 | fields after the fifth are ignored: the line is accepted with the same record |
| HourlyAggregator.EmptyYearSkipped | src/nasa/nasa.service.ts:87-90 | a line with an empty YEAR is skipped |
| HourlyAggregator.EmptyMonthSkipped | src/nasa/nasa.service.ts:87-90 | a line with an empty MO is skipped |
| HourlyAggregator.EmptyDaySkipped | src/nasa/nasa.service.ts:87-90 | a line with an empty DY is skipped |
| HourlyAggregator.LineTally | src/nasa/nasa.service.ts:79-94 | a skipped line leaves the dictionary unchanged; an accepted line sets its date to the previous count (0 when absent) plus 1 if it qualifies, and changes nothing else |
| HourlyAggregator.NaNHumidityCreatesKey | src/nasa/nasa.service.ts:92-94 | an accepted line whose humidity is NaN creates its date's key and leaves its count as it was |
| HourlyAggregator.KeysAreAcceptedDates | src/nasa/nasa.service.ts:92-93 | a key is present iff some accepted row carries that date |
| HourlyAggregator.KeyPresentIffAccepted | src/nasa/nasa.service.ts:92-93 | a key is present iff its number of accepted rows is positive |
| HourlyAggregator.QualifyingAtMostAccepted | src/nasa/nasa.service.ts:93-94 | a date's count never exceeds its number of accepted rows |
| HourlyAggregator.QualifyingHoursCountsRows | src/nasa/nasa.service.ts:94 | the count equals the size of the set of row positions that carry the date and qualify |
| HourlyAggregator.QualifyingHoursAbsent | src/nasa/nasa.service.ts:93-94 | a date with no accepted row has no qualifying hour |
| HourlyAggregator.RowStep | src/nasa/nasa.service.ts:79-94 | one more row adds only its own date, and raises only that date's count, by exactly 1 when it qualifies |
| HourlyAggregator.HumidHourExample | src/nasa/nasa.service.ts:84-94 | `2001,1,1,0,95` counts one hour for key `20010101` |
| HourlyAggregator.DryHourExample | src/nasa/nasa.service.ts:84-94 | `2001,1,1,0,89.9` creates key `20010101` without counting |
| JsNumber.ParseFloat | src/nasa/nasa.service.ts:94 | definition: `parseFloat` on the text, exactly; meaning stated by the `JsNumber` lemmas below |
| JsNumber.AtLeast | src/nasa/nasa.service.ts:94 | definition: the exact comparison `>= 90`, false for NaN; meaning stated by `IntegerTextAtLeast`, `DecimalTextAtLeast` and `NegativeNeverAtLeast` |
| JsNumber.EmptyIsNaN | src/nasa/nasa.service.ts:94 | `parseFloat("")` is NaN |
| JsNumber.NonNumericIsNaN | src/nasa/nasa.service.ts:94 | text that after white space starts with neither a sign, a digit, a point nor `I` parses to NaN |
| JsNumber.NegativeNeverAtLeast | src/nasa/nasa.service.ts:94 | a humidity whose text starts with `-` never reaches a positive bound |
| JsNumber.IntegerTextAtLeast | src/nasa/nasa.service.ts:94 | for digits followed by a non-digit other than `.`, `e` or `E`, the value reaches the bound iff the digits do |
| JsNumber.DecimalTextAtLeast | src/nasa/nasa.service.ts:94 | for `i.f` without exponent, the value reaches the bound iff the integer part does |
| JsNumber.FractionTextValue | src/nasa/nasa.service.ts:94 | `i.f` parses to the integer `if` scaled by 10 to the minus the length of `f` |
| JsNumber.ScientificTextValue | src/nasa/nasa.service.ts:94 | digits `i`, then `e`, then digits `e` parse to the value of `i` times 10 to the power of the value of `e` |
| JsNumber.ExponentReachesNinety | src/nasa/nasa.service.ts:94 | `9e1` qualifies although its integer prefix is 9 |
| JsNumber.InfinityForms | src/nasa/nasa.service.ts:94 | `Infinity` qualifies and `-Infinity` does not |
| Text.IsBlank | src/nasa/nasa.service.ts:80 | definition: `!line.trim()`, the line is empty or all white space |
| Text.TrimStart | src/nasa/nasa.service.ts:94 | the result is a suffix, everything dropped is white space, and it does not start with white space |
| Text.FirstToken | src/nasa/nasa.service.ts:114-116 | the first `\s+` token is a prefix without white space that ends the line or is followed by white space |
| Text.Split | src/nasa/nasa.service.ts:75 | there is at least one piece, no piece holds the separator, and joining the pieces gives the text back |
| Text.Join | src/nasa/nasa.service.ts:148 | definition: the pieces with the separator between them; `Split` is its inverse (`SplitJoin`) |
| Text.SplitJoin | src/nasa/nasa.service.ts:148 | splitting the joined pieces gives them back |
| Text.RemoveAll | src/nasa/nasa.service.ts:111 | no removed character is left, and text without it is unchanged |
| Text.RemoveAllAppend | src/nasa/nasa.service.ts:133 | removal distributes over concatenation, so the other characters keep their order |
| Text.PadStart | src/nasa/nasa.service.ts:92 | the result is max(width, length) long, ends with the text, and is fill before it: it never truncates |
| Text.DigitsValue | src/nasa/nasa.service.ts:120-121 | the value of decimal digit text is below 10 to the power of its length |
| Text.NatToString | src/nasa/nasa.service.ts:132 | `toString` of a count is non-empty decimal digits without a leading zero whose value is the count |
| Text.NatToStringOfDigits | src/nasa/nasa.service.ts:132 | digits without a leading zero are the `toString` of their value |
| Calendar.DateOfOrdinal | src/nasa/nasa.service.ts:126 | January 1 plus `n - 1` days is a valid date, of the same year or January 1 of the next |
| Calendar.OrdinalRoundTrip | src/nasa/nasa.service.ts:126 | within the year, day `n` converts to a date whose ordinal is `n` |
| Calendar.DateRoundTrip | src/nasa/nasa.service.ts:126 | every valid date is the conversion of its own ordinal |
| Calendar.CommonYearRollsOver | src/nasa/nasa.service.ts:126 | day 366 of a common year is January 1 of the next year |
| Calendar.OrdinalIsOffsetFromNewYear | src/nasa/nasa.service.ts:126 | the converted date is exactly `n - 1` days after January 1, counted in absolute day numbers |
| Calendar.DaysBeforeYearClosedForm | src/nasa/nasa.service.ts:126 | the days before year `y` follow the Gregorian closed form 365p + p/4 - p/100 + p/400 |
| Calendar.JsDateOfOrdinal | src/nasa/nasa.service.ts:126 | definition: `DateOfOrdinal` of the full year; meaning stated by `OrdinalIsOffsetFromNewYear` and `DailyMerger.TwoDigitYearsAreTwentiethCentury` |
| Calendar.IsoDateKey | src/nasa/nasa.service.ts:129 | definition: the first ten characters of the ISO text without dashes; meaning stated by `IsoDateKeyPadded` and `IsoDateKeyDigits` |
| Calendar.IsoDatePart | src/nasa/nasa.service.ts:129 | the `toISOString` date text is at least ten characters |
| Calendar.IsoDateKeyPadded | src/nasa/nasa.service.ts:129 | for years 0..9999 the key is the year padded to 4 digits, then the month and day padded to 2 |
| Calendar.IsoDateKeyDigits | src/nasa/nasa.service.ts:129 | for years 0..9999 the key is eight digits worth year * 10000 + month * 100 + day |
| DailyMerger.MergeLine | src/nasa/nasa.service.ts:109-145 | definition: the per-line outcome; meaning stated by `HeaderLineMerged`, `DataLineMerged`, `LeadingWhitespaceDropped`, `NonDateDropped` and `MergeOnlyAppends` |
| DailyMerger.CountField | src/nasa/nasa.service.ts:132 | definition: the count padded to seven; meaning stated by `CountFieldReadsBack` |
| DailyMerger.OrdinalKey | src/nasa/nasa.service.ts:119-129 | definition: `IsoDateKey` of `new Date(year, 0, day)`; meaning stated by `OrdinalKeyIsCalendarDate` and the examples |
| DailyMerger.MergeDaily | src/nasa/nasa.service.ts:104-148 | the output text is the kept lines, in input order, joined by line feeds |
| DailyMerger.MergeDailyLine | src/nasa/nasa.service.ts:109-145 | one callback call pushes exactly what `MergeLine` keeps of the line, and nothing when it drops it |
| DailyMerger.KeptStep | src/nasa/nasa.service.ts:109-145 | one more line appends its kept output, if any, to the lines kept so far |
| DailyMerger.KeptAppend | src/nasa/nasa.service.ts:109 | keeping distributes over concatenation |
| DailyMerger.MergedLinesAppend | src/nasa/nasa.service.ts:109-145 | the output keeps input order: merging a + b is merging a then merging b; each line yields at most one output line |
| DailyMerger.OutputLinesReadBack | src/nasa/nasa.service.ts:148 | reading the written file back line by line gives exactly the kept lines |
| DailyMerger.MergeOnlyAppends | src/nasa/nasa.service.ts:110-134 | a kept line is the input without `\r`, followed by at least seven characters free of line breaks |
| DailyMerger.CountFieldReadsBack | src/nasa/nasa.service.ts:132 | the column is at least 7 wide: blanks, then the decimal count; an absent and a zero entry both read 0 |
| DailyMerger.HeaderLineMerged | src/nasa/nasa.service.ts:110-112 | any line holding `@  DATE` is kept, `\r`-free, with `    RH90` appended |
| DailyMerger.DataLineMerged | src/nasa/nasa.service.ts:114-137 | a line `YYYYDDD` + white space is kept with its date's column iff the year is positive and the day is in 1..366 |
| DailyMerger.LeadingWhitespaceDropped | src/nasa/nasa.service.ts:114-119 | a non-header line that starts with white space is dropped |
| DailyMerger.NonDateDropped | src/nasa/nasa.service.ts:119-140 | a non-header line whose first token is not seven digits is dropped |
| DailyMerger.OrdinalKeyIsCalendarDate | src/nasa/nasa.service.ts:119-129 | for years 1..9999 (day 366 of 9999 aside), the key is eight digits encoding the calendar date of `new Date(year, 0, day)` |
| DailyMerger.TwoDigitYearsAreTwentiethCentury | src/nasa/nasa.service.ts:126 | years 1..99 are read as 1901..1999: their key is that of year 1900 + year |
| DailyMerger.CommonYearDay366Example | src/nasa/nasa.service.ts:120-129 | `2001366` is looked up under `20020101` |
| DailyMerger.TwoDigitYearExample | src/nasa/nasa.service.ts:120-129 | `0001001` is looked up under `19010101` |
| DailyMerger.YearTenThousandExample | src/nasa/nasa.service.ts:120-129 | `9999366` is looked up under `+01000001` |
| Sanitizer.SanitizeMarksOccurrences | src/nasa/nasa.service.ts:171 | the result is the input with `*` exactly where a `$WEATHER` starts and unchanged elsewhere |
| Sanitizer.NoPlaceholderLeft | src/nasa/nasa.service.ts:171 | no `$WEATHER` is left |
| Sanitizer.UnchangedWithoutPlaceholder | src/nasa/nasa.service.ts:171 | text without `$WEATHER` is unchanged |
| Sanitizer.SanitizeIdempotent | src/nasa/nasa.service.ts:171 | sanitizing twice is sanitizing once |
| Sanitizer.OnlyDollarChanges | src/nasa/nasa.service.ts:171 | only a `$` ever changes, and only into `*` |
| Sanitizer.SanitizeWeather | src/nasa/nasa.service.ts:171 | the rewrite keeps the length |
| Pipeline.ProcessStagedFiles | src/nasa/nasa.service.ts:47-148 | the file written is `<nasapid>.WTH` and holds the daily file merged with the hourly counts |
| Pipeline.SyncData | src/nasa/nasa.service.ts:162-176 | station `example1`'s file is written, sanitized, holds no `$WEATHER`, and the fixed message is returned |
| Pipeline.ResyncChangesNothing | src/nasa/nasa.service.ts:168-173 | sanitizing the synchronised file again changes nothing |
| Pipeline.DataLineGetsItsCount | src/nasa/nasa.service.ts:92-134 | a valid data line gets, right-justified to 7, the number of qualifying hours its date has in the hourly file |
| Pipeline.HourlyAndDailyKeysAgree | src/nasa/nasa.service.ts:92-129 | for four-digit years the hourly key of a date equals the key its daily line is looked up under |
| Pipeline.RolloverReadsNextYear | src/nasa/nasa.service.ts:120-134 | the line for day 366 of 2001 receives the count of 2002-01-01 |

## Left out

- HTTP requests and URL construction are not modelled: the downloads, the stream piping to the staging files, and `endDate` from the clock (lines 39-72). The staged files are inputs of type `string`.
- File reads and writes, the directory listing and directory creation are not modelled (lines 30-36, 75, 104, 148, 168-173). Each file is a string. `syncData`'s loop over every file in `weather-files` is modelled only for the file it just wrote. For any file, `Sanitizer.SanitizeWeather` states what the loop writes back.
- `try`/`catch` and `console` logging are not modelled: they only log. A warning is modelled as "line dropped".
- `parseFloat`'s binary64 rounding is not modelled. A literal whose rounding lands exactly on 90 from below, such as `89.99999999999999999`, qualifies in JavaScript but not in the exact model.
- Time zones east of UTC are not modelled; the model fixes the host at UTC or west of it.
- Dictionary keys that coincide with `Object.prototype` members (`toString`, `__proto__`, ...) are not modelled. They are plain keys here.
- JavaScript strings are sequences of UTF-16 code units; here they are sequences of Unicode scalar values. `length`, `padStart` and `slice` count code units, so text with characters beyond U+FFFF pads and slices differently. The provider's files are ASCII.
- The hourly file is read at line 75 outside any `try`. When it is missing, `fetchAndProcessData` and so `syncData` reject: no message is returned and nothing is sanitized. The model takes the file's text as given and has no missing-file case.
- Counts above 2^53 are not modelled: there, JavaScript's `+= 1` and `toString` stop being exact.
- `cropShape`, the controller (src/nasa/nasa.controller.ts) and the module wiring (src/app.module.ts) are not part of this model: they hold no pipeline logic.
- DailyMerger.OrdinalKeyIsCalendarDate: leaves out day 366 of year 9999, whose key `+01000001` is `YearTenThousandExample`.
- Pipeline.HourlyAndDailyKeysAgree: proved only for four-digit years, the only ones whose year text the hourly file writes without padding.
