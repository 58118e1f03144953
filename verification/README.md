# Cell-value formatter of duckdb-wasm, in Dafny

This project models the cell formatter of `packages/duckdb-wasm/src/format.ts`. The formatter turns one decoded
Apache Arrow cell and its field metadata into the value a table shows. The model covers the following parts.

- `mapColumnData`: the ordered chain of type tests.
- `formatDecimal`: fixed-point decimals.
- `parseInterval` and `formatInterval`: year/month phrases and `pandas.interval` brackets.
- `convertTimestampToSeconds`: scaling time values by the Arrow `TimeUnit`.
- `formatPeriodFromFreq`, `formatPeriod`, `PERIOD_TYPE_FORMATTERS`, `formatWeeks` and `formatQuarter`: pandas
  period frequencies.
- `formatObject`: the `JSON.parse(JSON.stringify(x, replacer))` round trip.
- `mapStructRowData`: rewriting every schema field of every row.

Modules, one per concern:

| module | file | what it holds |
|---|---|---|
| `Outcomes` | outcomes.dfy | `Option`, and `Result` (`Ok` or `Throw(message)`) for code that throws |
| `Text` | text.dfy | digit strings, `String(bigint)` and its inverse, the JavaScript `split`, `padStart`, `slice`, `trimEnd`, `join` |
| `JsValues` | js_values.dfy | JavaScript numbers and values, `Number.isSafeInteger`, `Boolean(x)`, property lookup |
| `TimeUnits` | time_units.dfy | `convertTimestampToSeconds` |
| `Foreign` | foreign.dfy | `Host`: the date-fns renderers, `Date` methods, Arrow's `bigNumToString` and float printing as uninterpreted functions; `String(x)` |
| `Types` | types.dfy | the field: the set of type predicates it satisfies, scale, unit, time zone, extension metadata, children |
| `Decimal` | decimal.dfy | `formatDecimal` as written and as intended, and a reader for decimal strings |
| `Interval` | interval.dfy | `parseInterval`, its reader, and the pandas bracket text |
| `Period` | period.dfy | the period-frequency formatters |
| `JsonNormal` | json_normal.dfy | `formatObject` |
| `Format` | format.dfy | `mapColumnData` and the formatters it calls |
| `Rows` | rows.dfy | `mapStructRowData` |

Every date-fns rendering, `String(date)`, `Date.prototype.toJSON` and Arrow's big-number conversion is a function
field of a `Host` value passed in. A thrown exception is the `Throw` outcome, carrying the message the code builds.
date-fns raises `RangeError("Invalid time value")` when it formats an invalid date. The model handles this in two ways.

- A date cell is checked directly. `new Date(t)` is valid exactly when `t` is finite and within ±8.64e15 ms
  (`ValidTime`), and an invalid one makes the cell throw.
- The period and time renderers compute their date inside date-fns (`addWeeks`, `setDay`, `addQuarters`, the unit
  scaling). Their `Host` fields return `None` for an invalid date, and the model turns `None` into the `RangeError`
  throw. Which durations give an invalid date is left to the host.

So each property holds for every host whose renderers fail only in this way.

The model follows the code in these places, where a reader might expect otherwise:

- Interval plurals: the code adds the `s` only for counts greater than 1, so negative counts are singular.
- `formatObject` always omits a property whose value is `undefined`. It omits `null` and invalid dates only for
  struct fields; for other fields it keeps `null`. A whole value that is `undefined` makes `JSON.parse` throw.
- Throwing is not limited to period and duration columns:
  - `formatWeeks` throws on a bad anchor;
  - date-fns throws on an invalid date: in a date column, or in a period or time rendering;
  - `formatObject` throws on `undefined`;
  - a `pandas.interval` field without metadata throws, and so does a cell whose `toJSON` cannot be read: anything
    but a struct row, a list cell or a valid `Date`. A list cell or a valid `Date` has no bounds and prints
    "null, null" in its brackets.
- `mapStructRowData` writes into the decoded row. The row keeps its own keys and their order, including keys not
  in the schema. A schema field the row lacks is appended.
- `formatDecimal` pads the numeral before removing the sign (see Findings).

## Model

| member | source | states |
|---|---|---|
| Decimal.FormatDecimalAsWritten | packages/duckdb-wasm/src/format.ts:346-360 | as written, with scale 0 the result is `String(value)` unchanged: padding to width 0 does nothing |
| Decimal.FormatDecimalShape | packages/duckdb-wasm/src/format.ts:362-377 | corrected rendering (see Findings): every corrected rendering is `[-]whole[.frac]`: '-' exactly for negative values, a non-empty digit whole part, at most `scale` fractional digits never ending in '0', and the point only when there is a fraction |
| Decimal.FormatDecimalRoundTrip | packages/duckdb-wasm/src/format.ts:346-377 | corrected rendering (see Findings): reading the corrected rendering back at the same scale gives the unscaled integer, for every integer and every scale |
| Decimal.PartsValue | packages/duckdb-wasm/src/format.ts:372-375 | splitting off the last `scale` digits (whole part "0" when none remain, trailing zeros trimmed) keeps the value: whole * 10^scale + frac re-extended is the value of the digits |
| Decimal.DecimalExamples | packages/duckdb-wasm/src/format.ts:346-377 | as written and corrected alike, 12345 at scale 3 is "12.345", 12000 at scale 3 is "12", 0 at scale 0 is "0" |
| Decimal.AsWrittenReadBack | packages/duckdb-wasm/src/format.ts:350-377 | reading the as-written rendering back at its scale gives the value when the scale is 0, the value is non-negative or its digits fill the scale; ten times the value when a negative numeral is one digit short; nothing readable when it is shorter still |
| Decimal.AsWrittenAgreement | packages/duckdb-wasm/src/format.ts:350-370 | the code as written and the intended rendering agree exactly when the scale is 0, the value is non-negative, or the numeral without its sign has at least `scale` digits |
| Decimal.AsWrittenCounterexamples | packages/duckdb-wasm/src/format.ts:350-370 | as written, -5 at scale 3 renders "0.0-5" and -12 at scale 3 renders "-0.12", which reads back as -120; the intended renderings are "-0.005" and "-0.012" |
| Interval.IntervalPhraseWords | packages/duckdb-wasm/src/format.ts:401-414 | the words of the phrase: a "count noun" pair for each non-zero component, years before months; the noun is plural exactly when the count exceeds 1; two zeros give "0 months" |
| Interval.IntervalRoundTrip | packages/duckdb-wasm/src/format.ts:401-414 | the phrase determines the (years, months) pair: reading it back gives the pair again |
| Interval.ZeroIntervalOnly | packages/duckdb-wasm/src/format.ts:413 | "0 months" is produced for the all-zero pair and no other |
| Interval.PandasIntervalText | packages/duckdb-wasm/src/format.ts:472-478 | the text opens with '[' exactly when `closed` is "both" or "left", else '('; closes with ']' exactly when it is "both" or "right", else ')'; between them the two bounds joined by ", " |
| Format.PandasIntervalCell | packages/duckdb-wasm/src/format.ts:460-478 | a `pandas.interval` cell formats its left and right bound through the first and second child fields and brackets them as `closed` says |
| Format.PandasMissingBound | packages/duckdb-wasm/src/format.ts:460-478 | for any struct row: with no child fields both bounds are formatted without field information; with one child field the right bound is; a null or missing left bound prints "null" whenever the cell formats; a row with neither bound prints "null, null" in its brackets |
| Format.FormatIntervalThrows | packages/duckdb-wasm/src/format.ts:419-482 | `formatInterval` throws exactly for a `pandas.interval` field without metadata, a cell whose `toJSON` cannot be called or read (not a struct row, a list cell or a valid `Date`), or a bound whose child formatting throws |
| Format.ListCellInterval | packages/duckdb-wasm/src/format.ts:460-478 | a list cell in a `pandas.interval` column does not throw: its `toJSON` array has no bounds, so it prints "null, null" in the brackets `closed` calls for |
| Format.PeriodChildThrows | packages/duckdb-wasm/src/format.ts:472-476 | any present left bound, a period's big integer included, goes through `mapColumnData` under a period-typed child field; unless that field is also a date, time or datetime column it throws "Period type is not supported yet" (format.ts:604-607), so the whole interval cell throws |
| Format.ArrowIntervalCell | packages/duckdb-wasm/src/format.ts:419-423 | an Arrow interval cell holding (years, months) prints the year/month phrase, which reads back to the same pair |
| TimeUnits.ConvertTimestampToSeconds | packages/duckdb-wasm/src/format.ts:171-206 | seconds and unknown units give the value unchanged; milli, micro and nano units divide by 10^3, 10^6, 10^9; the division is a big-integer one, truncating toward zero, exactly when the value is a big integer beyond 2^53 - 1 |
| TimeUnits.TruncDivMeaning | packages/duckdb-wasm/src/format.ts:198-203 | `timestamp / BigInt(unit)` yields the multiple of the divisor nearest the value on the side of zero |
| TimeUnits.TruncatedQuotientUnique | packages/duckdb-wasm/src/format.ts:198-203 | only one quotient has that property, so the truncating quotient is fully determined |
| Format.TimeCellScaling | packages/duckdb-wasm/src/format.ts:258-264 | a time cell is scaled from `Number(x)` by the field's unit (seconds when absent), so the big-integer truncation is never reached from the dispatch; the cell is the clock text, or the `RangeError` when that date is invalid |
| Period.FreqPartsMeaning | packages/duckdb-wasm/src/format.ts:488 | `split('-', 2)`: the name is everything before the first '-'; a parameter is present exactly when there is a '-' and runs from it to the next '-' or the end |
| Period.FreqPartsOfName | packages/duckdb-wasm/src/format.ts:488 | a suffix starting with '-' leaves a dash-free name intact |
| Period.PeriodFallbacks | packages/duckdb-wasm/src/format.ts:491-502 | an unknown frequency name, or a duration that is not a safe integer, yields `String(duration)` without throwing |
| Period.PeriodFromFreqThrows | packages/duckdb-wasm/src/format.ts:484-504 | `formatPeriodFromFreq` throws exactly for a known frequency on a safe duration when the weekly anchor is missing or not one of SUN..SAT, or the date it renders is invalid; the latter throws the `RangeError` |
| Period.WeeklyRange | packages/duckdb-wasm/src/format.ts:108-127 | "W-<day>" on a safe week number renders the range from six days before the anchor day to the anchor day, or throws the `RangeError` when either date is invalid |
| Period.WeekdayIndex | packages/duckdb-wasm/src/format.ts:112-113 | the index of a day name in SUN..SAT, -1 exactly when it is not one of them |
| Period.DeprecatedAliases | packages/duckdb-wasm/src/format.ts:141-156 | A, H, T, S and L behave like Y, h, min, s and ms under every parameter |
| Period.QuarterNumber | packages/duckdb-wasm/src/format.ts:129-134 | the quarter printed is always 1 to 4, one more than the duration modulo 4, after the year; an invalid date throws the `RangeError` |
| Period.QuarterExample | packages/duckdb-wasm/src/format.ts:129-134 | period 0 at frequency "Q" is "1970Q1" when the calendar puts quarter 0 in 1970 |
| Period.FormatPeriodThrows | packages/duckdb-wasm/src/format.ts:506-533 | `formatPeriod` throws exactly on `pandas.period` metadata without a frequency, or when `formatPeriodFromFreq` fails on the frequency |
| JsonNormal.FormatObject | packages/duckdb-wasm/src/format.ts:542-572 | the round trip throws exactly when the whole value is omitted; a result is JSON-safe; outside struct mode a JSON-safe value comes back unchanged |
| JsonNormal.PlainFormatIdempotent | packages/duckdb-wasm/src/format.ts:568-571 | outside struct mode the value comes back unchanged exactly when it is JSON-safe, and formatting twice equals formatting once |
| JsonNormal.NormalizeOmits | packages/duckdb-wasm/src/format.ts:547-563 | a value is omitted exactly when it is undefined, or in struct mode null or an invalid date |
| JsonNormal.NormalizeSafe | packages/duckdb-wasm/src/format.ts:547-571 | everything that comes back is JSON-safe: big integers have become numbers, dates strings, non-finite numbers null |
| JsonNormal.NormalizedEntriesFromInput | packages/duckdb-wasm/src/format.ts:547-563 | every property of the result is the normalized form of an input property that is not omitted, and there are no more of them |
| JsonNormal.InputEntriesKept | packages/duckdb-wasm/src/format.ts:547-563 | every input property that is not omitted is in the result with its value normalized |
| JsonNormal.StructRowKeys | packages/duckdb-wasm/src/format.ts:543-564 | in struct mode an object never throws and keeps only keys whose value was neither null nor undefined |
| JsonNormal.TypedArrayAsObject | packages/duckdb-wasm/src/format.ts:568-571 | a typed array comes back as an object whose keys read back to the indices 0, 1, … holding the elements |
| Format.MapColumnData | packages/duckdb-wasm/src/format.ts:585-641 | null or undefined gives null; without a field the result never throws and is null exactly for null or undefined |
| Format.MapColumnField | packages/duckdb-wasm/src/format.ts:585-588 | null or undefined gives null under every field |
| Format.SelectedIsFirst | packages/duckdb-wasm/src/format.ts:585-641 | the branch taken is the first in the fixed order whose test passes: its test passes and every earlier test fails |
| Format.MapColumnFieldByBranch | packages/duckdb-wasm/src/format.ts:585-641 | the rendering of each of the thirteen branches, including `String(x)` when no test matches; a decimal cell uses `formatDecimal` as written, a date cell throws the `RangeError` on an invalid date |
| Format.MapColumnFieldThrows | packages/duckdb-wasm/src/format.ts:585-641 | a cell throws exactly for period and duration branches, a date cell holding an invalid date, a time cell whose clock date is invalid, an interval cell that `formatInterval` cannot format, and an object cell that is omitted whole |
| Format.InvalidDateCell | packages/duckdb-wasm/src/format.ts:266-287 | a date cell throws the `RangeError` exactly when `new Date` of its time value is invalid, and otherwise is the date-fns rendering |
| Format.PlainColumnsIdempotent | packages/duckdb-wasm/src/format.ts:622-641 | for number, boolean, text and non-struct object columns, formatting the result again changes nothing |
| Format.DecimalCell | packages/duckdb-wasm/src/format.ts:617-620 | a decimal cell is a string; read back at the field's scale it gives what the as-written rendering denotes: the integer the limbs denote, except for short negative numerals (see Findings) |
| Format.DecimalCellCounterexample | packages/duckdb-wasm/src/format.ts:617-620 | a decimal cell denoting -12 at scale 3 prints "-0.12", which reads back as -120 thousandths |
| Format.AbsentFieldIsBareField | packages/duckdb-wasm/src/format.ts:585-641 | without a field a cell renders as under a field that passes no type test |
| Rows.MapRows | packages/duckdb-wasm/src/format.ts:647-655 | the rows in order, one per input row, each with the schema applied; the result fails exactly when some row does |
| Rows.MapStructRowData | packages/duckdb-wasm/src/format.ts:644-656 | the same for `mapColumnData` as the cell formatter |
| Rows.ApplySchemaThrows | packages/duckdb-wasm/src/format.ts:648-650 | with distinct field names a row fails exactly when the formatter fails on one of its schema cells |
| Rows.ApplySchemaValues | packages/duckdb-wasm/src/format.ts:648-650 | with distinct field names each schema field holds its formatted cell and every other property keeps its value |
| Rows.ApplySchemaKeys | packages/duckdb-wasm/src/format.ts:648-650 | the row's own keys keep their order, and the only keys added after them are schema fields the row lacked |
| Rows.RepeatedFieldComposes | packages/duckdb-wasm/src/format.ts:648-650 | a field named twice is formatted twice, the second time from the first result |
| Rows.MissingCellBecomesNull | packages/duckdb-wasm/src/format.ts:649 | a schema field missing from the row is added at the end holding null |
| Rows.AssignGet | packages/duckdb-wasm/src/format.ts:649 | after `row[k] = v`, `row[k]` is `v` and every other key reads as before |
| Rows.AssignKeys | packages/duckdb-wasm/src/format.ts:649 | assigning an existing key keeps the keys and their order; assigning a new key appends it |
| Rows.StructRowsFormatted | packages/duckdb-wasm/src/format.ts:644-656 | with distinct field names the rows fail exactly when some cell throws; otherwise the row count is kept, every schema field holds `mapColumnData` of its cell and other properties are unchanged |

## Left out

- `console.warn` calls: logging only, with no effect on results.
- date-fns and `@date-fns/tz`: `dateFormat`, `addWeeks`, `setDay`, `addQuarters`, `fromUnixTime`, `TZDateMini` and `transpose` are uninterpreted functions of `Host`.
- `formatMs`, `formatSec`, `formatMin`, `formatHours`, `formatDay`, `formatMonth` and `formatYear`: these only call date-fns, so they are one uninterpreted `periodCalendar`.
- `formatDate`, `formatTime` and `formatDatetime`: only their test and their call into date-fns are modelled.
- Rounding of IEEE doubles: numbers are reals.
  - `Number(bigint)` beyond 2^53 is not rounded.
  - The float division of `convertTimestampToSeconds` is kept symbolic as `Divided(n, divisor)`.
  - `String(x)` for non-integral numbers is uninterpreted.
- `formatFloat` and `formatDuration`: the dispatch never calls them, and they rest on `Intl.NumberFormat` and date-fns.
- `util.bigNumToString(new util.BN(limbs))`: uninterpreted `bigNum`, read as the integer it denotes.
- Lookup of `PERIOD_TYPE_FORMATTERS` by any name: in JavaScript, names from `Object.prototype` such as "toString" would also be found. Only the fourteen table names are modelled.
- The `Math.floor(date.getMonth() / 3)` of `formatQuarter`: the month index is taken as `3 * duration` modulo 12, which is the calendar fact that `addQuarters` from January gives.
- Decimal.FormatDecimalAsWritten: a negative decimal scale is not modelled, because the field's scale is a natural number. `field.type.scale || 0` would keep a negative scale, and the slices at format.ts:369-370 would then cut at `-scale > 0`.
- Format.FormatInterval: extension metadata that is the valid JSON `null` is not modelled. Destructuring `closed` from `null` at format.ts:465 throws a TypeError, and the model's metadata is always an object.
- Period.FormatPeriod: extension metadata that is the valid JSON `null` is not modelled. Destructuring `freq` from `null` at format.ts:531 throws a TypeError, and the model's metadata is always an object.
- `JSON.parse` of the extension metadata: the field carries the parsed `closed` and `freq`, each present only when it is a string. Metadata that is not valid JSON is not modelled.
- `parseInterval` on a value that is not an `Int32Array`: reading `arr[0]` of a string or other object is not modelled. Such a cell is taken as an empty array.
- JSON key order for integer-like keys, and duplicate keys in an object: objects are ordered lists of properties read by first match.
- Which period and time durations give an invalid date: the calendar arithmetic is the host's, so the model says only that an invalid date throws the `RangeError`.
- The type predicates of `./types`: these are not part of this model. A field carries the set of predicates it satisfies.
- `packages/duckdb-wasm/src/duckdb.ts`, the drizzle adapter, the migrator, the playground and the build and lint configuration: these are connection I/O, wrappers and tooling outside the formatter.
- Format.MapColumnField: states "null or undefined gives null" in one direction only, because a NaN in an object column also comes back as null.

## Findings

| source | as written | input that shows it | evidently intended | confidence | as-written member | corrected member |
|---|---|---|---|---|---|---|
| packages/duckdb-wasm/src/format.ts:350-370 | `padStart(scale, '0')` runs on the numeral including its '-', and only then is the sign removed | value -5 at scale 3 gives "0.0-5"; value -12 at scale 3 gives "-0.12" (read back: -120 thousandths) | remove the sign first and pad only the digits: "-0.005" and "-0.012" | high, not executed | Decimal.AsWrittenCounterexamples | Decimal.FormatDecimalRoundTrip |

`Decimal.FormatDecimalAsWritten` is the code as written. `Decimal.AsWrittenAgreement` proves that it differs from
the corrected `Decimal.FormatDecimal` exactly on negative values whose numeral has fewer digits than the scale, and
`Decimal.AsWrittenReadBack` says what the as-written text reads back to. The dispatch (`Format.MapColumnField`)
follows the code and calls the as-written rendering; `Format.DecimalCellCounterexample` shows the discrepancy at
cell level. The corrected `Decimal.FormatDecimal` carries the intended round trip, `Decimal.FormatDecimalRoundTrip`.
