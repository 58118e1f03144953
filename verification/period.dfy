/** pandas period rendering (packages/duckdb-wasm/src/format.ts,
    `formatPeriodFromFreq`, `PERIOD_TYPE_FORMATTERS`, `formatWeeks`,
    `formatQuarter` and `formatPeriod`). */
module Period {
  import opened Outcomes
  import opened Text
  import opened JsValues
  import opened Foreign
  import opened Types

  /** `const [freqName, freqParam] = freq.split('-', 2)`: the pieces before
      the first and second '-'; the parameter is absent without a '-'. */
  function FreqParts(freq: string): (string, Option<string>) {
    var parts := Split(freq, '-');
    (parts[0], if |parts| >= 2 then Some(parts[1]) else None)
  }

  /** The frequency table, deprecated aliases included. */
  function Alias(name: string): Option<PeriodUnit> {
    match name
    case "L" => Some(Millis)
    case "ms" => Some(Millis)
    case "S" => Some(Secs)
    case "s" => Some(Secs)
    case "T" => Some(Mins)
    case "min" => Some(Mins)
    case "H" => Some(Hours)
    case "h" => Some(Hours)
    case "D" => Some(Days)
    case "M" => Some(Months)
    case "W" => Some(Weeks)
    case "Q" => Some(Quarters)
    case "Y" => Some(Years)
    case "A" => Some(Years)
    case _ => None
  }

  const WEEKDAY_SHORT: seq<string> := ["SUN", "MON", "TUE", "WED", "THU", "FRI", "SAT"]

  /** `WEEKDAY_SHORT.indexOf(day)`, -1 when absent. */
  function WeekdayIndex(day: string): (i: int)
    ensures -1 <= i < |WEEKDAY_SHORT|
    ensures i >= 0 ==> WEEKDAY_SHORT[i] == day
    ensures i < 0 <==> day !in WEEKDAY_SHORT
  {
    if day == "SUN" then 0
    else if day == "MON" then 1
    else if day == "TUE" then 2
    else if day == "WED" then 3
    else if day == "THU" then 4
    else if day == "FRI" then 5
    else if day == "SAT" then 6
    else -1
  }

  /** `formatWeeks(duration, freqParam)`: the week ending on the anchor day,
      as `start/end`; throws when the anchor is missing, empty or unknown,
      and when date-fns meets an invalid date (the start is rendered first). */
  function FormatWeeks(duration: int, param: Option<string>, host: Host): Result<string> {
    if param.None? || param.value == "" then Throw("Frequency \"W\" requires parameter")
    else
      var day := WeekdayIndex(param.value);
      if day < 0 then
        Throw("Invalid value: " + param.value
              + ". Supported values: [\"SUN\",\"MON\",\"TUE\",\"WED\",\"THU\",\"FRI\",\"SAT\"]")
      else match (Rendered(host.weekDay(duration, day - 6)), Rendered(host.weekDay(duration, day)))
        case (Throw(e), _) => Throw(e)
        case (_, Throw(e)) => Throw(e)
        case (Ok(start), Ok(end)) => Ok(start + "/" + end)
  }

  /** `formatQuarter(duration)`: the year of the date `duration` quarters
      after 1970-01-01 and the quarter `floor(month / 3) + 1`, where that
      date's month index is `3 * duration` modulo 12. */
  function FormatQuarter(duration: int, host: Host): Result<string> {
    var month := (3 * duration) % 12;
    match Rendered(host.quarterYear(duration))
    case Throw(e) => Throw(e)
    case Ok(year) => Ok(year + "Q" + IntToString(month / 3 + 1))
  }

  /** `PERIOD_TYPE_FORMATTERS[unit](duration, freqParam)`. */
  function RenderPeriod(unit: PeriodUnit, duration: int, param: Option<string>, host: Host): Result<string> {
    match unit
    case Weeks => FormatWeeks(duration, param, host)
    case Quarters => FormatQuarter(duration, host)
    case _ => Rendered(host.periodCalendar(unit, duration))
  }

  /** `formatPeriodFromFreq(duration, freq)`. */
  function FormatPeriodFromFreq(duration: Timestamp, freq: string, host: Host): Result<string> {
    var (name, param) := FreqParts(freq);
    match Alias(name)
    case None => Ok(TimestampToString(duration, host))
    case Some(unit) =>
      var n := ToNumber(duration);
      if !IsSafeInteger(n) then Ok(TimestampToString(duration, host))
      else RenderPeriod(unit, n.r.Floor, param, host)
  }

  /** `formatPeriod(duration, field)`: reads the frequency from the
      `pandas.period` extension metadata; any missing piece of metadata falls
      back to `String(duration)`, except a metadata object without a string
      `freq`, on which `freq.split` throws. One TypeError message stands for
      both an absent `freq` (reading `split` of `undefined`) and one that is
      not a string. */
  function FormatPeriod(duration: Timestamp, field: Option<Field>, host: Host): Result<string> {
    if field.None? then Ok(TimestampToString(duration, host))
    else
      var ext := field.value.extension;
      if ext.name.None? || ext.metadata.None? then Ok(TimestampToString(duration, host))
      else if ext.name.value != "pandas.period" then Ok(TimestampToString(duration, host))
      else match ext.metadata.value.freq
        case None => Throw("TypeError: freq.split is not a function")
        case Some(freq) => FormatPeriodFromFreq(duration, freq, host)
  }

  // Properties

  lemma SplitHead(s: string, sep: char)
    ensures Split(s, sep)[0] == s[..IndexOf(s, sep)]
    ensures IndexOf(s, sep) < |s| ==>
              |Split(s, sep)| >= 2 && Split(s, sep)[1] == Split(s[IndexOf(s, sep) + 1..], sep)[0]
  {
  }

  /** The name is everything before the first '-'; the parameter, present
      exactly when there is a '-', runs from there to the next '-' or the end. */
  lemma FreqPartsMeaning(freq: string)
    ensures var (name, param) := FreqParts(freq);
            && '-' !in name
            && (param.None? <==> '-' !in freq)
            && (param.None? ==> freq == name)
            && (param.Some? ==>
                  && '-' !in param.value
                  && |name| + 1 + |param.value| <= |freq|
                  && freq[..|name| + 1 + |param.value|] == name + "-" + param.value
                  && (|name| + 1 + |param.value| < |freq| ==> freq[|name| + 1 + |param.value|] == '-'))
  {
    var i := IndexOf(freq, '-');
    FreqPartsSlices(freq);
    IndexOfFree(freq, '-');
    if i < |freq| {
      var rest := freq[i + 1..];
      var j := IndexOf(rest, '-');
      IndexOfFree(rest, '-');
      SliceAround(freq, i, j);
      assert [freq[i]] == "-";
      if i + 1 + j < |freq| {
        assert freq[i + 1 + j] == rest[j];
      }
    } else {
      assert freq[..i] == freq;
    }
  }

  /** The two parts as slices of the frequency string. */
  lemma FreqPartsSlices(freq: string)
    ensures var i := IndexOf(freq, '-');
            FreqParts(freq)
            == if i < |freq| then (freq[..i], Some(freq[i + 1..][..IndexOf(freq[i + 1..], '-')]))
               else (freq, None)
  {
    var i := IndexOf(freq, '-');
    SplitHead(freq, '-');
    if i < |freq| {
      SplitHead(freq[i + 1..], '-');
    } else {
      assert freq[..i] == freq;
    }
  }

  /** A suffix starting at a '-' does not change the name. */
  lemma FreqPartsOfName(name: string, suffix: string)
    requires '-' !in name && (suffix == "" || suffix[0] == '-')
    ensures FreqParts(name + suffix).0 == name
    ensures FreqParts(name + suffix).1 == if suffix == "" then None else Some(Split(suffix[1..], '-')[0])
  {
    var s := name + suffix;
    if suffix == "" {
      assert s == name;
      SplitNoSeparator(name, '-');
    } else {
      assert s == name + ['-'] + suffix[1..];
      SplitFirst(name, '-', suffix[1..]);
    }
  }

  /** The fallbacks: an unknown frequency name, or a duration that is not a
      safe integer, yields `String(duration)` and never throws. */
  lemma PeriodFallbacks(duration: Timestamp, freq: string, host: Host)
    requires Alias(FreqParts(freq).0).None? || !IsSafeInteger(ToNumber(duration))
    ensures FormatPeriodFromFreq(duration, freq, host) == Ok(TimestampToString(duration, host))
  {
  }

  /** A weekly anchor `formatWeeks` rejects: missing, empty or not one of SUN..SAT. */
  predicate BadWeekAnchor(param: Option<string>) {
    param.None? || param.value !in WEEKDAY_SHORT
  }

  /** date-fns meets an invalid date when rendering `n` units after the base
      date; for weeks this is reached only once the anchor is accepted. */
  predicate DateOutOfRange(unit: PeriodUnit, n: int, param: Option<string>, host: Host) {
    match unit
    case Weeks =>
      && !BadWeekAnchor(param)
      && (host.weekDay(n, WeekdayIndex(param.value) - 6).None? || host.weekDay(n, WeekdayIndex(param.value)).None?)
    case Quarters => host.quarterYear(n).None?
    case _ => host.periodCalendar(unit, n).None?
  }

  /** The frequency names a unit of the table, the duration is a safe
      integer, and then either the weekly anchor is bad or the date is out
      of range. */
  predicate PeriodFails(duration: Timestamp, freq: string, host: Host) {
    var (name, param) := FreqParts(freq);
    && Alias(name).Some? && IsSafeInteger(ToNumber(duration))
    && ((Alias(name) == Some(Weeks) && BadWeekAnchor(param))
        || DateOutOfRange(Alias(name).value, ToNumber(duration).r.Floor, param, host))
  }

  /** `formatPeriodFromFreq` throws exactly in two cases: a weekly frequency
      on a safe duration whose anchor day is missing or not one of SUN..SAT,
      and a known frequency on a safe duration whose date date-fns finds
      invalid; the latter throws the `RangeError`. */
  lemma PeriodFromFreqThrows(duration: Timestamp, freq: string, host: Host)
    ensures FormatPeriodFromFreq(duration, freq, host).Throw? <==> PeriodFails(duration, freq, host)
    ensures var (name, param) := FreqParts(freq);
            PeriodFails(duration, freq, host) && !(Alias(name) == Some(Weeks) && BadWeekAnchor(param))
            ==> FormatPeriodFromFreq(duration, freq, host) == Throw(INVALID_TIME)
  {
  }

  /** A valid weekly frequency yields the range from six days before the
      anchor day to the anchor day of the `duration`-th week, or the
      `RangeError` when either date is invalid. */
  lemma WeeklyRange(weeks: int, day: nat, host: Host)
    requires -MAX_SAFE_INTEGER <= weeks <= MAX_SAFE_INTEGER
    requires day < |WEEKDAY_SHORT|
    ensures FormatPeriodFromFreq(BigIntStamp(weeks), "W-" + WEEKDAY_SHORT[day], host)
            == match (host.weekDay(weeks, day - 6), host.weekDay(weeks, day))
               case (Some(start), Some(end)) => Ok(start + "/" + end)
               case _ => Throw(INVALID_TIME)
  {
    WeeklyFreqParts(day);
    BigIntSafeRange(weeks);
    assert (weeks as real).Floor == weeks;
    assert WeekdayIndex(WEEKDAY_SHORT[day]) == day;
    assert Alias("W") == Some(Weeks);
  }

  lemma WeeklyFreqParts(day: nat)
    requires day < |WEEKDAY_SHORT|
    ensures FreqParts("W-" + WEEKDAY_SHORT[day]) == ("W", Some(WEEKDAY_SHORT[day]))
  {
    WeekdaysDashFree();
    NameAndParameter("W", WEEKDAY_SHORT[day]);
    assert "W" + "-" + WEEKDAY_SHORT[day] == "W-" + WEEKDAY_SHORT[day];
  }

  lemma WeekdaysDashFree()
    ensures forall i :: 0 <= i < |WEEKDAY_SHORT| ==> '-' !in WEEKDAY_SHORT[i]
  {
  }

  /** A dash-free name and parameter joined by '-' split back apart. */
  lemma NameAndParameter(name: string, param: string)
    requires '-' !in name && '-' !in param
    ensures FreqParts(name + "-" + param) == (name, Some(param))
  {
    assert name + "-" + param == name + ['-'] + param;
    SplitFirst(name, '-', param);
    SplitNoSeparator(param, '-');
  }

  /** Two dash-free names for the same unit format alike under any parameter. */
  lemma SameUnitSameText(duration: Timestamp, a: string, b: string, suffix: string, host: Host)
    requires '-' !in a && '-' !in b && Alias(a) == Alias(b)
    requires suffix == "" || suffix[0] == '-'
    ensures FormatPeriodFromFreq(duration, a + suffix, host) == FormatPeriodFromFreq(duration, b + suffix, host)
  {
    FreqPartsOfName(a, suffix);
    FreqPartsOfName(b, suffix);
  }

  /** The deprecated names and their replacements have no '-' and share a unit. */
  lemma AliasNames()
    ensures '-' !in "A" && '-' !in "Y" && Alias("A") == Alias("Y")
    ensures '-' !in "H" && '-' !in "h" && Alias("H") == Alias("h")
    ensures '-' !in "T" && '-' !in "min" && Alias("T") == Alias("min")
    ensures '-' !in "S" && '-' !in "s" && Alias("S") == Alias("s")
    ensures '-' !in "L" && '-' !in "ms" && Alias("L") == Alias("ms")
  {
    var min, ms := "min", "ms";
    assert forall i :: 0 <= i < |min| ==> min[i] != '-';
    assert forall i :: 0 <= i < |ms| ==> ms[i] != '-';
  }

  /** The deprecated aliases behave exactly like the names they stand for,
      whatever parameter follows them. */
  lemma DeprecatedAliases(duration: Timestamp, suffix: string, host: Host)
    requires suffix == "" || suffix[0] == '-'
    ensures FormatPeriodFromFreq(duration, "A" + suffix, host) == FormatPeriodFromFreq(duration, "Y" + suffix, host)
    ensures FormatPeriodFromFreq(duration, "H" + suffix, host) == FormatPeriodFromFreq(duration, "h" + suffix, host)
    ensures FormatPeriodFromFreq(duration, "T" + suffix, host) == FormatPeriodFromFreq(duration, "min" + suffix, host)
    ensures FormatPeriodFromFreq(duration, "S" + suffix, host) == FormatPeriodFromFreq(duration, "s" + suffix, host)
    ensures FormatPeriodFromFreq(duration, "L" + suffix, host) == FormatPeriodFromFreq(duration, "ms" + suffix, host)
  {
    AliasNames();
    SameUnitSameText(duration, "A", "Y", suffix, host);
    SameUnitSameText(duration, "H", "h", suffix, host);
    SameUnitSameText(duration, "T", "min", suffix, host);
    SameUnitSameText(duration, "S", "s", suffix, host);
    SameUnitSameText(duration, "L", "ms", suffix, host);
  }

  /** The quarter printed is always 1 to 4: one more than the number of
      quarters past the last full year. */
  lemma QuarterNumber(duration: int, host: Host)
    ensures var q := (3 * duration) % 12 / 3 + 1;
            && 1 <= q <= 4 && q == duration % 4 + 1
            && FormatQuarter(duration, host)
               == match host.quarterYear(duration)
                  case Some(year) => Ok(year + "Q" + IntToString(q))
                  case None => Throw(INVALID_TIME)
  {
    var k, r := duration / 4, duration % 4;
    assert 3 * duration == 12 * k + 3 * r;
    ModTwelve(k, 3 * r);
  }

  lemma ModTwelve(k: int, m: int)
    requires 0 <= m < 12
    ensures (12 * k + m) % 12 == m
  {
  }

  /** Period 0 at frequency 'Q' is "1970Q1" when the calendar puts quarter 0
      in 1970. */
  lemma QuarterExample(host: Host)
    requires host.quarterYear(0) == Some("1970")
    ensures FormatPeriodFromFreq(NumberStamp(Finite(0.0)), "Q", host) == Ok("1970Q1")
  {
    SplitNoSeparator("Q", '-');
    assert FreqParts("Q") == ("Q", None);
    assert IsSafeInteger(Finite(0.0)) && (0.0).Floor == 0;
    assert (3 * 0) % 12 / 3 + 1 == 1;
    assert IntToString(1) == "1";
    assert FormatQuarter(0, host) == Ok("1970" + "Q" + "1");
    assert "1970" + "Q" + "1" == "1970Q1";
    assert Alias("Q") == Some(Quarters);
    assert ToNumber(NumberStamp(Finite(0.0))) == Finite(0.0);
  }

  /** `formatPeriod` throws exactly on `pandas.period` metadata without a
      frequency, or when `formatPeriodFromFreq` fails on the frequency. */
  lemma FormatPeriodThrows(duration: Timestamp, field: Option<Field>, host: Host)
    ensures FormatPeriod(duration, field, host).Throw?
            <==> && field.Some? && field.value.extension.name == Some("pandas.period")
                 && field.value.extension.metadata.Some?
                 && var freq := field.value.extension.metadata.value.freq;
                    freq.None? || PeriodFails(duration, freq.value, host)
  {
    if field.Some? && field.value.extension.metadata.Some? {
      var freq := field.value.extension.metadata.value.freq;
      if freq.Some? {
        PeriodFromFreqThrows(duration, freq.value, host);
      }
    }
  }
}
