/** Behaviour the formatter borrows from outside code it cannot see: the
    date-fns calendar renderers, `Date` methods, Apache Arrow's big-number
    conversion and the engine's float printing. Each is an uninterpreted
    function carried in a `Host` value, so every statement about the
    formatter holds whatever those functions do. date-fns `format` raises
    `RangeError("Invalid time value")` on an invalid date; a renderer whose
    date is computed inside date-fns returns `None` for that case. */
module Foreign {
  import opened Outcomes
  import opened Text
  import opened JsValues
  import opened TimeUnits

  /** The calendar units of the pandas period-frequency table. */
  datatype PeriodUnit = Millis | Secs | Mins | Hours | Days | Months | Weeks | Quarters | Years

  datatype Host = Host(
    /** `String(x)` for a finite number that is not an integer below 1e21. */
    realToString: real -> string,
    /** `String(d)` for a `Date` with the given time value. */
    dateToString: Number -> string,
    /** `String(x)` for an array or a struct row. */
    containerToString: Value -> string,
    /** `Date.prototype.toJSON` for a valid time value. */
    dateToJson: real -> string,
    /** `util.bigNumToString(new util.BN(x))`, read as the integer it denotes. */
    bigNum: Value -> int,
    /** `dateFormat(d, 'yyyy-MM-dd')` in `formatDate`, for a valid time value. */
    formatDate: Number -> string,
    /** `formatTime`: the clock rendering of `fromUnixTime(seconds)`. */
    formatClock: Seconds -> Option<string>,
    /** `transpose(new TZDateMini(d, timezone?), Date)`: the naive instant. */
    naiveInstant: (Number, Option<string>) -> Number,
    /** `formatMs`, `formatSec`, `formatMin`, `formatHours`, `formatDay`,
        `formatMonth` and `formatYear`: the date of the n-th unit after 1970-01-01. */
    periodCalendar: (PeriodUnit, int) -> Option<string>,
    /** `dateFormat(setDay(addWeeks(BASE_DATE, weeks), day), 'yyyy-MM-dd')`. */
    weekDay: (int, int) -> Option<string>,
    /** `dateFormat(addQuarters(BASE_DATE, quarters), 'yyyy')`. */
    quarterYear: int -> Option<string>
  )

  /** The message of the `RangeError` date-fns raises for an invalid date. */
  const INVALID_TIME: string := "RangeError: Invalid time value"

  /** A date-fns rendering: the text, or the `RangeError` for an invalid date. */
  function Rendered(text: Option<string>): (r: Result<string>)
    ensures r.Ok? <==> text.Some?
    ensures r.Ok? ==> r.value == text.value
    ensures r.Throw? ==> r.message == INVALID_TIME
  {
    match text
    case Some(t) => Ok(t)
    case None => Throw(INVALID_TIME)
  }

  /** `String(n)` for a number: integers below 1e21 print as plain numerals. */
  function NumberToString(n: Number, host: Host): string {
    match n
    case NaN => "NaN"
    case Infinity => "Infinity"
    case NegInfinity => "-Infinity"
    case Finite(r) =>
      if r.Floor as real == r && -1000000000000000000000.0 < r < 1000000000000000000000.0
      then IntToString(r.Floor)
      else host.realToString(r)
  }

  /** `String(t)` for a number or a big integer. */
  function TimestampToString(t: Timestamp, host: Host): string {
    match t
    case NumberStamp(n) => NumberToString(n, host)
    case BigIntStamp(i) => IntToString(i)
  }

  /** `String(x)` (equally a template-literal interpolation `${x}`). */
  function JsString(v: Value, host: Host): string {
    match v
    case Undefined => "undefined"
    case Null => "null"
    case Bool(b) => if b then "true" else "false"
    case Num(n) => NumberToString(n, host)
    case BigInt(i) => IntToString(i)
    case Str(s) => s
    case DateObj(t) => host.dateToString(t)
    case Int32s(ws) => Join(seq(|ws|, k requires 0 <= k < |ws| => IntToString(ws[k])), ",")
    case Arr(_) => host.containerToString(v)
    case Obj(_) => host.containerToString(v)
  }

  /** A safe integer prints exactly as its big-integer counterpart. */
  lemma SafeIntegerString(n: Number, host: Host)
    requires IsSafeInteger(n)
    ensures NumberToString(n, host) == IntToString(n.r.Floor)
  {
  }
}
