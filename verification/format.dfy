/** The cell formatter `mapColumnData` and the `formatInterval`,
    `formatDate`, `formatTime` and `formatDatetime` it dispatches to
    (packages/duckdb-wasm/src/format.ts). */
module Format {
  import opened Outcomes
  import opened Text
  import opened JsValues
  import opened TimeUnits
  import opened Foreign
  import opened Types
  import opened Decimal
  import opened Interval
  import opened JsonNormal

  /** `formatDate(x)`: `yyyy-MM-dd` for a date-like value, else `String(x)`;
      date-fns throws the `RangeError` when the date is invalid. */
  function FormatDate(x: Value, host: Host): Result<string> {
    if !IsDateLike(x) then Ok(JsString(x, host))
    else if ValidTime(TimeOf(x)) then Ok(host.formatDate(TimeOf(x)))
    else Throw(INVALID_TIME)
  }

  /** `formatTime(t, field)`: the clock rendering of the timestamp scaled to
      seconds by the field's unit, seconds when the unit is missing. */
  function FormatTime(t: Timestamp, unit: Option<int>, host: Host): Result<string> {
    Rendered(host.formatClock(ConvertTimestampToSeconds(t, unit.GetOr(SECOND))))
  }

  /** A rendered text as a string value, a throw passed on. */
  function AsText(r: Result<string>): Result<Value> {
    match r
    case Ok(s) => Ok(Str(s))
    case Throw(e) => Throw(e)
  }

  /** `if (timezone)`: only a non-empty zone name is passed on. */
  function ZoneArgument(timezone: Option<string>): Option<string> {
    if timezone.Some? && timezone.value != "" then timezone else None
  }

  /** `formatDatetime(x, field)`: the naive instant of a date-like value,
      read in the field's time zone when it has one; null otherwise. */
  function FormatDatetime(x: Value, timezone: Option<string>, host: Host): Value {
    if IsDateLike(x) then DateObj(host.naiveInstant(TimeOf(x), ZoneArgument(timezone)))
    else Null
  }

  /** `(x as StructRow).toJSON()` followed by reading `left` and `right`: a
      struct row gives its properties, a list cell gives an array and a
      valid `Date` a string, neither with such properties, an invalid `Date`
      gives `null`, which cannot be read, and any other value has no
      `toJSON` to call. */
  function PandasBounds(x: Value): Result<(Value, Value)> {
    match x
    case Obj(es) => Ok((Get(es, "left"), Get(es, "right")))
    case Arr(_) => Ok((Undefined, Undefined))
    case DateObj(t) =>
      if ValidTime(t) then Ok((Undefined, Undefined))
      else Throw("TypeError: Cannot read properties of null (reading 'left')")
    case _ => Throw("TypeError: x.toJSON is not a function")
  }

  /** `mapColumnData(x)` without field information: null stays null, anything
      else is printed. */
  function MapWithoutField(x: Value, host: Host): (r: Result<Value>)
    ensures r.Ok?
    ensures IsNullish(x) <==> r.value == Null
    ensures !IsNullish(x) ==> r.value.Str?
  {
    if IsNullish(x) then Ok(Null) else Ok(Str(JsString(x, host)))
  }

  /** `formatInterval(x, field)`. */
  function FormatInterval(x: Value, f: Field, host: Host): (r: Result<Value>)
    ensures r.Ok? ==> r.value.Str?
    decreases f, 0
  {
    if f.arrowInterval then Ok(Str(ParseInterval(if x.Int32s? then x.words else [])))
    else if f.extension.name == Some("pandas.interval") then
      if f.extension.metadata.None? then Throw("SyntaxError: \"undefined\" is not valid JSON")
      else match PandasBounds(x)
        case Throw(e) => Throw(e)
        case Ok((left, right)) =>
          var l := if |f.children| > 0 then MapColumnField(left, f.children[0], host) else MapWithoutField(left, host);
          var rt := if |f.children| > 1 then MapColumnField(right, f.children[1], host) else MapWithoutField(right, host);
          if l.Throw? then Throw(l.message)
          else if rt.Throw? then Throw(rt.message)
          else Ok(Str(PandasIntervalText(f.extension.metadata.value.closed,
                                         JsString(l.value, host), JsString(rt.value, host))))
    else Ok(Str(JsString(x, host)))
  }

  /** `mapColumnData(x, field)` for a present field: the first type test the
      cell and field pass decides the rendering. */
  function MapColumnField(x: Value, f: Field, host: Host): (r: Result<Value>)
    ensures IsNullish(x) ==> r == Ok(Null)
    decreases f, 1
  {
    if IsNullish(x) then Ok(Null)
    else if IsDateLike(x) && DateKind in f.kinds then AsText(FormatDate(x, host))
    else if x.BigInt? && TimeKind in f.kinds then AsText(FormatTime(NumberStamp(NumberOfBigInt(x.i)), f.unit, host))
    else if IsDateLike(x) && DatetimeKind in f.kinds then Ok(FormatDatetime(x, f.timezone, host))
    else if PeriodKind in f.kinds then Throw("Period type is not supported yet")
    else if IntervalKind in f.kinds then FormatInterval(x, f, host)
    else if DurationKind in f.kinds then Throw("Duration type is not supported yet")
    else if DecimalKind in f.kinds then Ok(Str(FormatDecimalAsWritten(host.bigNum(x), f.scale)))
    else if FloatKind in f.kinds && IsFiniteNumber(x) then Ok(x)
    else if IntegerKind in f.kinds then Ok(x)
    else if ObjectKind in f.kinds || ListKind in f.kinds then FormatObject(x, f.isStruct, host)
    else if BooleanKind in f.kinds then Ok(Bool(Truthy(x)))
    else Ok(Str(JsString(x, host)))
  }

  /** `mapColumnData(x, field)`. */
  function MapColumnData(x: Value, field: Option<Field>, host: Host): (r: Result<Value>)
    ensures IsNullish(x) ==> r == Ok(Null)
    ensures field.None? ==> r.Ok? && (r.value == Null <==> IsNullish(x))
  {
    match field
    case None => MapWithoutField(x, host)
    case Some(f) => MapColumnField(x, f, host)
  }

  // The dispatch order as an explicit list

  /** The branches of `mapColumnData`, one per type test. */
  datatype Branch =
    | NullBranch | DateBranch | TimeBranch | DatetimeBranch | PeriodBranch | IntervalBranch
    | DurationBranch | DecimalBranch | FloatBranch | IntegerBranch | ObjectBranch | BooleanBranch
    | StringBranch

  /** The order in which `mapColumnData` tries its branches. */
  const ORDER: seq<Branch> := [
    NullBranch, DateBranch, TimeBranch, DatetimeBranch, PeriodBranch, IntervalBranch,
    DurationBranch, DecimalBranch, FloatBranch, IntegerBranch, ObjectBranch, BooleanBranch,
    StringBranch
  ]

  /** The test guarding a branch, on its own. */
  predicate Applies(b: Branch, x: Value, f: Field) {
    match b
    case NullBranch => IsNullish(x)
    case DateBranch => IsDateLike(x) && DateKind in f.kinds
    case TimeBranch => x.BigInt? && TimeKind in f.kinds
    case DatetimeBranch => IsDateLike(x) && DatetimeKind in f.kinds
    case PeriodBranch => PeriodKind in f.kinds
    case IntervalBranch => IntervalKind in f.kinds
    case DurationBranch => DurationKind in f.kinds
    case DecimalBranch => DecimalKind in f.kinds
    case FloatBranch => FloatKind in f.kinds && IsFiniteNumber(x)
    case IntegerBranch => IntegerKind in f.kinds
    case ObjectBranch => ObjectKind in f.kinds || ListKind in f.kinds
    case BooleanBranch => BooleanKind in f.kinds
    case StringBranch => true
  }

  /** The place of a branch in `ORDER`. */
  function Position(b: Branch): (i: nat)
    ensures i < |ORDER| && ORDER[i] == b
  {
    match b
    case NullBranch => 0
    case DateBranch => 1
    case TimeBranch => 2
    case DatetimeBranch => 3
    case PeriodBranch => 4
    case IntervalBranch => 5
    case DurationBranch => 6
    case DecimalBranch => 7
    case FloatBranch => 8
    case IntegerBranch => 9
    case ObjectBranch => 10
    case BooleanBranch => 11
    case StringBranch => 12
  }

  /** The branch `mapColumnData` takes, read off its `if` chain. */
  function Selected(x: Value, f: Field): Branch {
    if IsNullish(x) then NullBranch
    else if IsDateLike(x) && DateKind in f.kinds then DateBranch
    else if x.BigInt? && TimeKind in f.kinds then TimeBranch
    else if IsDateLike(x) && DatetimeKind in f.kinds then DatetimeBranch
    else if PeriodKind in f.kinds then PeriodBranch
    else if IntervalKind in f.kinds then IntervalBranch
    else if DurationKind in f.kinds then DurationBranch
    else if DecimalKind in f.kinds then DecimalBranch
    else if FloatKind in f.kinds && IsFiniteNumber(x) then FloatBranch
    else if IntegerKind in f.kinds then IntegerBranch
    else if ObjectKind in f.kinds || ListKind in f.kinds then ObjectBranch
    else if BooleanKind in f.kinds then BooleanBranch
    else StringBranch
  }

  // Properties

  /** The branch taken is the first one in `ORDER` whose test passes: its
      own test passes and every test before it fails. */
  lemma SelectedIsFirst(x: Value, f: Field)
    ensures Applies(Selected(x, f), x, f)
    ensures forall i :: 0 <= i < Position(Selected(x, f)) ==> !Applies(ORDER[i], x, f)
  {
  }

  /** The rendering is the one of the first branch in `ORDER` whose test
      passes. */
  lemma MapColumnFieldByBranch(x: Value, f: Field, host: Host)
    ensures var r := MapColumnField(x, f, host);
            match Selected(x, f)
            case NullBranch => r == Ok(Null)
            case DateBranch =>
              r == if ValidTime(TimeOf(x)) then Ok(Str(host.formatDate(TimeOf(x)))) else Throw(INVALID_TIME)
            case TimeBranch =>
              r == (match host.formatClock(ConvertTimestampToSeconds(NumberStamp(NumberOfBigInt(x.i)), f.unit.GetOr(SECOND)))
                    case Some(clock) => Ok(Str(clock))
                    case None => Throw(INVALID_TIME))
            case DatetimeBranch => r == Ok(DateObj(host.naiveInstant(TimeOf(x), ZoneArgument(f.timezone))))
            case PeriodBranch => r == Throw("Period type is not supported yet")
            case IntervalBranch => r == FormatInterval(x, f, host)
            case DurationBranch => r == Throw("Duration type is not supported yet")
            case DecimalBranch => r == Ok(Str(FormatDecimalAsWritten(host.bigNum(x), f.scale)))
            case FloatBranch => r == Ok(x)
            case IntegerBranch => r == Ok(x)
            case ObjectBranch => r == FormatObject(x, f.isStruct, host)
            case BooleanBranch => r == Ok(Bool(Truthy(x)))
            case StringBranch => r == Ok(Str(JsString(x, host)))
  {
    var b := Selected(x, f);
    if b in {NullBranch, DateBranch, TimeBranch, DatetimeBranch} {
      EarlyBranches(x, f, host);
    } else if b in {PeriodBranch, DurationBranch} {
      UnsupportedBranches(x, f, host);
    } else if b in {IntervalBranch, DecimalBranch} {
      MiddleBranches(x, f, host);
    } else {
      LateBranches(x, f, host);
    }
  }

  lemma EarlyBranches(x: Value, f: Field, host: Host)
    requires Selected(x, f) in {NullBranch, DateBranch, TimeBranch, DatetimeBranch}
    ensures var r := MapColumnField(x, f, host);
            match Selected(x, f)
            case NullBranch => r == Ok(Null)
            case DateBranch =>
              r == if ValidTime(TimeOf(x)) then Ok(Str(host.formatDate(TimeOf(x)))) else Throw(INVALID_TIME)
            case TimeBranch =>
              r == (match host.formatClock(ConvertTimestampToSeconds(NumberStamp(NumberOfBigInt(x.i)), f.unit.GetOr(SECOND)))
                    case Some(clock) => Ok(Str(clock))
                    case None => Throw(INVALID_TIME))
            case DatetimeBranch => r == Ok(DateObj(host.naiveInstant(TimeOf(x), ZoneArgument(f.timezone))))
            case _ => true
  {
  }

  lemma UnsupportedBranches(x: Value, f: Field, host: Host)
    requires Selected(x, f) in {PeriodBranch, DurationBranch}
    ensures var r := MapColumnField(x, f, host);
            match Selected(x, f)
            case PeriodBranch => r == Throw("Period type is not supported yet")
            case DurationBranch => r == Throw("Duration type is not supported yet")
            case _ => true
  {
  }

  lemma MiddleBranches(x: Value, f: Field, host: Host)
    requires Selected(x, f) in {IntervalBranch, DecimalBranch}
    ensures var r := MapColumnField(x, f, host);
            match Selected(x, f)
            case IntervalBranch => r == FormatInterval(x, f, host)
            case DecimalBranch => r == Ok(Str(FormatDecimalAsWritten(host.bigNum(x), f.scale)))
            case _ => true
  {
    if Selected(x, f) == IntervalBranch {
      IntervalBranchCell(x, f, host);
    } else {
      var text := DecimalCellText(x, f, host);
    }
  }

  lemma IntervalBranchCell(x: Value, f: Field, host: Host)
    requires Selected(x, f) == IntervalBranch
    ensures MapColumnField(x, f, host) == FormatInterval(x, f, host)
  {
  }

  lemma LateBranches(x: Value, f: Field, host: Host)
    requires Selected(x, f) in {FloatBranch, IntegerBranch, ObjectBranch, BooleanBranch, StringBranch}
    ensures var r := MapColumnField(x, f, host);
            match Selected(x, f)
            case FloatBranch => r == Ok(x)
            case IntegerBranch => r == Ok(x)
            case ObjectBranch => r == FormatObject(x, f.isStruct, host)
            case BooleanBranch => r == Ok(Bool(Truthy(x)))
            case StringBranch => r == Ok(Str(JsString(x, host)))
            case _ => true
  {
  }

  /** A cell throws exactly for period and duration columns, for a date
      that is invalid, for a time date-fns cannot render, for an interval
      cell `formatInterval` fails on, and for an object column whose value
      serializes to nothing. */
  lemma MapColumnFieldThrows(x: Value, f: Field, host: Host)
    ensures MapColumnField(x, f, host).Throw? <==>
              match Selected(x, f)
              case DateBranch => !ValidTime(TimeOf(x))
              case TimeBranch =>
                host.formatClock(ConvertTimestampToSeconds(NumberStamp(NumberOfBigInt(x.i)), f.unit.GetOr(SECOND))).None?
              case PeriodBranch => true
              case IntervalBranch => IntervalFails(x, f, host)
              case DurationBranch => true
              case ObjectBranch => Dropped(x, f.isStruct)
              case _ => false
  {
    MapColumnFieldByBranch(x, f, host);
    if Selected(x, f) == IntervalBranch {
      FormatIntervalThrows(x, f, host);
    }
  }

  /** A date cell whose time value `new Date` cannot hold, NaN included,
      throws the `RangeError` of date-fns. */
  lemma InvalidDateCell(x: Value, f: Field, host: Host)
    requires Selected(x, f) == DateBranch
    ensures MapColumnField(x, f, host).Throw? <==> !ValidTime(TimeOf(x))
    ensures !ValidTime(TimeOf(x)) ==> MapColumnField(x, f, host) == Throw(INVALID_TIME)
    ensures ValidTime(TimeOf(x)) ==> MapColumnField(x, f, host) == Ok(Str(host.formatDate(TimeOf(x))))
  {
    EarlyBranches(x, f, host);
  }

  /** Whether `(x as StructRow).toJSON()` can be read: a struct row, a list
      cell (whose JSON array has no bounds) or a valid `Date` (whose JSON
      string has none either). */
  predicate BoundsReadable(x: Value) {
    x.Obj? || x.Arr? || (x.DateObj? && ValidTime(x.time))
  }

  /** `formatInterval` fails: on a `pandas.interval` field (that is not an
      Arrow interval) whose metadata is missing, whose cell cannot be read
      for bounds, or whose first or second child field throws on the
      corresponding bound. */
  predicate IntervalFails(x: Value, f: Field, host: Host) {
    && !f.arrowInterval && f.extension.name == Some("pandas.interval")
    && (|| f.extension.metadata.None?
        || !BoundsReadable(x)
        || (x.Obj? && |f.children| > 0 && MapColumnField(Get(x.entries, "left"), f.children[0], host).Throw?)
        || (x.Obj? && |f.children| > 1 && MapColumnField(Get(x.entries, "right"), f.children[1], host).Throw?))
  }

  /** When `formatInterval` throws. */
  lemma FormatIntervalThrows(x: Value, f: Field, host: Host)
    ensures FormatInterval(x, f, host).Throw? <==> IntervalFails(x, f, host)
  {
    if f.arrowInterval || f.extension.name != Some("pandas.interval") || f.extension.metadata.None? {
    } else if x.Obj? {
      StructRowIntervalThrows(x.entries, f, host);
    } else {
      UnreadableIntervalThrows(x, f, host);
    }
  }

  lemma StructRowIntervalThrows(es: seq<Entry>, f: Field, host: Host)
    requires !f.arrowInterval && f.extension.name == Some("pandas.interval") && f.extension.metadata.Some?
    ensures FormatInterval(Obj(es), f, host).Throw? <==> IntervalFails(Obj(es), f, host)
  {
    assert PandasBounds(Obj(es)) == Ok((Get(es, "left"), Get(es, "right")));
  }

  lemma UnreadableIntervalThrows(x: Value, f: Field, host: Host)
    requires !f.arrowInterval && f.extension.name == Some("pandas.interval") && f.extension.metadata.Some?
    requires !x.Obj?
    ensures FormatInterval(x, f, host).Throw? <==> !BoundsReadable(x)
  {
    if x.Arr? {
      ListCellInterval(x.items, f, host);
    } else if x.DateObj? && ValidTime(x.time) {
      assert PandasBounds(x) == Ok((Undefined, Undefined));
    }
  }

  /** A list cell in a `pandas.interval` column does not throw: its JSON
      array has no `left` or `right`, so both bounds print "null". */
  lemma ListCellInterval(items: seq<Value>, f: Field, host: Host)
    requires !f.arrowInterval && f.extension.name == Some("pandas.interval") && f.extension.metadata.Some?
    ensures FormatInterval(Arr(items), f, host)
            == Ok(Str(PandasIntervalText(f.extension.metadata.value.closed, "null", "null")))
  {
    assert PandasBounds(Arr(items)) == Ok((Undefined, Undefined));
  }

  /** A `pandas.interval` whose left child is a period column throws, as
      period cells are not supported: any present left bound, a period's
      big integer included, reaches the period test unless the child is also
      a date, time or datetime column. */
  lemma PeriodChildThrows(es: seq<Entry>, f: Field, host: Host)
    requires !f.arrowInterval && f.extension.name == Some("pandas.interval")
    requires |f.children| > 0 && PeriodKind in f.children[0].kinds
    requires DateKind !in f.children[0].kinds && TimeKind !in f.children[0].kinds
    requires DatetimeKind !in f.children[0].kinds
    requires !IsNullish(Get(es, "left"))
    ensures FormatInterval(Obj(es), f, host).Throw?
  {
    FormatIntervalThrows(Obj(es), f, host);
  }

  /** An arrow interval cell holding (years, months) prints a phrase that
      reads back to the same pair. */
  lemma ArrowIntervalCell(years: int, months: int, f: Field, host: Host)
    requires f.arrowInterval && IntervalKind in f.kinds && PeriodKind !in f.kinds
    ensures MapColumnField(Int32s([years, months]), f, host) == Ok(Str(ParseInterval([years, months])))
    ensures ReadIntervalPhrase(MapColumnField(Int32s([years, months]), f, host).value.s) == Some((years, months))
  {
    IntervalRoundTrip(years, months);
  }

  /** A `pandas.interval` row renders its bounds through the child fields and
      wraps them in the brackets `closed` calls for. */
  lemma PandasIntervalCell(left: Value, right: Value, f: Field, host: Host)
    requires !f.arrowInterval && f.extension.name == Some("pandas.interval") && f.extension.metadata.Some?
    requires |f.children| >= 2
    requires MapColumnField(left, f.children[0], host).Ok? && MapColumnField(right, f.children[1], host).Ok?
    ensures FormatInterval(Obj([Entry("left", left), Entry("right", right)]), f, host)
            == Ok(Str(PandasIntervalText(f.extension.metadata.value.closed,
                                         JsString(MapColumnField(left, f.children[0], host).value, host),
                                         JsString(MapColumnField(right, f.children[1], host).value, host))))
  {
    PairBounds(left, right);
  }

  lemma PairBounds(left: Value, right: Value)
    ensures PandasBounds(Obj([Entry("left", left), Entry("right", right)])) == Ok((left, right))
  {
    var es := [Entry("left", left), Entry("right", right)];
    assert Get(es, "left") == left;
    assert Get(es, "right") == right;
  }

  /** `String(mapColumnData(v))` without field information. */
  function BareText(v: Value, host: Host): (t: string)
    ensures IsNullish(v) ==> t == "null"
  {
    JsString(MapWithoutField(v, host).value, host)
  }

  /** A bound with no child field of its own is formatted without field
      information, and a missing or null bound prints "null" under any
      child field. */
  lemma PandasMissingBound(es: seq<Entry>, f: Field, host: Host)
    requires !f.arrowInterval && f.extension.name == Some("pandas.interval") && f.extension.metadata.Some?
    ensures var left, right := Get(es, "left"), Get(es, "right");
            var closed := f.extension.metadata.value.closed;
            |f.children| == 0
            ==> FormatInterval(Obj(es), f, host)
                == Ok(Str(PandasIntervalText(closed, BareText(left, host), BareText(right, host))))
    ensures var left, right := Get(es, "left"), Get(es, "right");
            var closed := f.extension.metadata.value.closed;
            |f.children| == 1
            ==> var l := MapColumnField(left, f.children[0], host);
                FormatInterval(Obj(es), f, host)
                == if l.Throw? then Throw(l.message)
                   else Ok(Str(PandasIntervalText(closed, JsString(l.value, host), BareText(right, host))))
    ensures var r := FormatInterval(Obj(es), f, host);
            IsNullish(Get(es, "left")) && r.Ok? ==> |r.value.s| >= 5 && r.value.s[1..5] == "null"
    ensures (forall j :: 0 <= j < |es| ==> es[j].key != "left" && es[j].key != "right")
            ==> FormatInterval(Obj(es), f, host)
                == Ok(Str(PandasIntervalText(f.extension.metadata.value.closed, "null", "null")))
  {
    NoChildBounds(es, f, host);
    OneChildBounds(es, f, host);
    if IsNullish(Get(es, "left")) {
      NullLeftText(es, f, host);
    }
    if forall j :: 0 <= j < |es| ==> es[j].key != "left" && es[j].key != "right" {
      GetMissing(es, "left");
      GetMissing(es, "right");
      NoBoundsText(es, f, host);
    }
  }

  lemma NoChildBounds(es: seq<Entry>, f: Field, host: Host)
    requires !f.arrowInterval && f.extension.name == Some("pandas.interval") && f.extension.metadata.Some?
    ensures var left, right := Get(es, "left"), Get(es, "right");
            var closed := f.extension.metadata.value.closed;
            |f.children| == 0
            ==> FormatInterval(Obj(es), f, host)
                == Ok(Str(PandasIntervalText(closed, BareText(left, host), BareText(right, host))))
  {
    assert PandasBounds(Obj(es)) == Ok((Get(es, "left"), Get(es, "right")));
  }

  lemma OneChildBounds(es: seq<Entry>, f: Field, host: Host)
    requires !f.arrowInterval && f.extension.name == Some("pandas.interval") && f.extension.metadata.Some?
    ensures var left, right := Get(es, "left"), Get(es, "right");
            var closed := f.extension.metadata.value.closed;
            |f.children| == 1
            ==> var l := MapColumnField(left, f.children[0], host);
                FormatInterval(Obj(es), f, host)
                == if l.Throw? then Throw(l.message)
                   else Ok(Str(PandasIntervalText(closed, JsString(l.value, host), BareText(right, host))))
  {
    assert PandasBounds(Obj(es)) == Ok((Get(es, "left"), Get(es, "right")));
  }

  lemma NoBoundsText(es: seq<Entry>, f: Field, host: Host)
    requires !f.arrowInterval && f.extension.name == Some("pandas.interval") && f.extension.metadata.Some?
    requires Get(es, "left") == Undefined && Get(es, "right") == Undefined
    ensures FormatInterval(Obj(es), f, host)
            == Ok(Str(PandasIntervalText(f.extension.metadata.value.closed, "null", "null")))
  {
    assert PandasBounds(Obj(es)) == Ok((Undefined, Undefined));
  }

  lemma NullLeftText(es: seq<Entry>, f: Field, host: Host)
    requires !f.arrowInterval && f.extension.name == Some("pandas.interval") && f.extension.metadata.Some?
    requires IsNullish(Get(es, "left"))
    ensures var r := FormatInterval(Obj(es), f, host);
            r.Ok? ==> |r.value.s| >= 5 && r.value.s[1..5] == "null"
  {
    if FormatInterval(Obj(es), f, host).Ok? {
      var rtext := NullLeftShape(es, f, host);
      var t := PandasIntervalText(f.extension.metadata.value.closed, "null", rtext);
      assert t[1..|t| - 1] == "null" + ", " + rtext;
      assert t[1..5] == t[1..|t| - 1][..4];
    }
  }

  /** A successful interval with a null left bound has "null" on the left. */
  lemma NullLeftShape(es: seq<Entry>, f: Field, host: Host) returns (rtext: string)
    requires !f.arrowInterval && f.extension.name == Some("pandas.interval") && f.extension.metadata.Some?
    requires IsNullish(Get(es, "left")) && FormatInterval(Obj(es), f, host).Ok?
    ensures FormatInterval(Obj(es), f, host) == Ok(Str(PandasIntervalText(f.extension.metadata.value.closed, "null", rtext)))
  {
    PandasRowCell(es, f, host);
    rtext := JsString(BoundCell(Get(es, "right"), f, 1, host).value, host);
  }

  /** `mapColumnData` on the bound an interval keeps at position `i`: through
      the `i`-th child field when there is one, without field information
      otherwise. */
  function BoundCell(v: Value, f: Field, i: nat, host: Host): (r: Result<Value>)
    ensures IsNullish(v) ==> r == Ok(Null)
  {
    if |f.children| > i then MapColumnField(v, f.children[i], host) else MapWithoutField(v, host)
  }

  lemma PandasRowCell(es: seq<Entry>, f: Field, host: Host)
    requires !f.arrowInterval && f.extension.name == Some("pandas.interval") && f.extension.metadata.Some?
    ensures var l := BoundCell(Get(es, "left"), f, 0, host);
            var rt := BoundCell(Get(es, "right"), f, 1, host);
            FormatInterval(Obj(es), f, host)
            == if l.Throw? then Throw(l.message)
               else if rt.Throw? then Throw(rt.message)
               else Ok(Str(PandasIntervalText(f.extension.metadata.value.closed,
                                              JsString(l.value, host), JsString(rt.value, host))))
  {
    assert PandasBounds(Obj(es)) == Ok((Get(es, "left"), Get(es, "right")));
  }

  /** Without field information a cell renders as under a field that passes
      no type test. */
  lemma AbsentFieldIsBareField(x: Value, f: Field, host: Host)
    requires f.kinds == {}
    ensures MapColumnData(x, None, host) == MapColumnField(x, f, host)
  {
  }

  /** A field that passes only the float, integer, boolean, object or list
      tests. */
  predicate PlainKinds(f: Field) {
    && DateKind !in f.kinds && TimeKind !in f.kinds && DatetimeKind !in f.kinds
    && PeriodKind !in f.kinds && IntervalKind !in f.kinds && DurationKind !in f.kinds
    && DecimalKind !in f.kinds
  }

  /** Formatting a formatted cell again changes nothing for the columns whose
      output is a plain value: numbers, booleans, text and plain objects. */
  lemma PlainColumnsIdempotent(x: Value, f: Field, host: Host)
    requires PlainKinds(f)
    requires !f.isStruct
    ensures var r := MapColumnField(x, f, host);
            r.Ok? ==> MapColumnField(r.value, f, host) == r
  {
    var b := Selected(x, f);
    if b == ObjectBranch {
      ObjectCellIdempotent(x, f, host);
    } else if b == BooleanBranch {
      BooleanCellIdempotent(x, f, host);
    } else if b == StringBranch {
      StringCellIdempotent(x, f, host);
    } else {
      KeptCellIdempotent(x, f, host);
    }
  }

  lemma ObjectCellIdempotent(x: Value, f: Field, host: Host)
    requires PlainKinds(f)
    requires !f.isStruct && Selected(x, f) == ObjectBranch
    ensures var r := MapColumnField(x, f, host);
            r.Ok? ==> MapColumnField(r.value, f, host) == r
  {
    var r := FormatObject(x, false, host);
    assert MapColumnField(x, f, host) == r;
    if r.Ok? {
      JsonRerun(r.value, f, host);
    }
  }

  lemma BooleanCellIdempotent(x: Value, f: Field, host: Host)
    requires PlainKinds(f)
    requires Selected(x, f) == BooleanBranch
    ensures var r := MapColumnField(x, f, host);
            r.Ok? ==> MapColumnField(r.value, f, host) == r
  {
    assert MapColumnField(x, f, host) == Ok(Bool(Truthy(x)));
    BooleanRerun(Truthy(x), f, host);
  }

  lemma StringCellIdempotent(x: Value, f: Field, host: Host)
    requires PlainKinds(f)
    requires Selected(x, f) == StringBranch
    ensures var r := MapColumnField(x, f, host);
            r.Ok? ==> MapColumnField(r.value, f, host) == r
  {
    assert MapColumnField(x, f, host) == Ok(Str(JsString(x, host)));
    StringRerun(JsString(x, host), f, host);
  }

  /** Null, finite-float and integer cells are returned as they are (null for
      undefined). */
  lemma KeptCellIdempotent(x: Value, f: Field, host: Host)
    requires PlainKinds(f)
    requires Selected(x, f) in {NullBranch, FloatBranch, IntegerBranch}
    ensures var r := MapColumnField(x, f, host);
            r.Ok? ==> MapColumnField(r.value, f, host) == r
  {
    if IsNullish(x) {
      assert MapColumnField(Null, f, host) == Ok(Null);
    } else {
      assert MapColumnField(x, f, host) == Ok(x);
    }
  }

  lemma BooleanRerun(b: bool, f: Field, host: Host)
    requires PlainKinds(f)
    requires IntegerKind !in f.kinds && ObjectKind !in f.kinds && ListKind !in f.kinds
    requires BooleanKind in f.kinds
    ensures MapColumnField(Bool(b), f, host) == Ok(Bool(b))
  {
  }

  lemma StringRerun(s: string, f: Field, host: Host)
    requires PlainKinds(f)
    requires IntegerKind !in f.kinds && ObjectKind !in f.kinds && ListKind !in f.kinds
    requires BooleanKind !in f.kinds
    ensures MapColumnField(Str(s), f, host) == Ok(Str(s))
  {
  }

  lemma JsonRerun(v: Value, f: Field, host: Host)
    requires JsonSafe(v) && !f.isStruct
    requires PlainKinds(f)
    requires IntegerKind !in f.kinds
    requires ObjectKind in f.kinds || ListKind in f.kinds
    ensures MapColumnField(v, f, host) == Ok(v)
  {
    JsonSafeFixed(v, host);
  }

  lemma JsonSafeFixed(v: Value, host: Host)
    requires JsonSafe(v)
    ensures FormatObject(v, false, host) == Ok(v)
  {
  }

  /** Time cells are big integers: their number is scaled by the field's
      unit (seconds when missing), so the big-integer truncation of
      `convertTimestampToSeconds` is never reached from here. */
  lemma TimeCellScaling(i: int, f: Field, host: Host)
    requires TimeKind in f.kinds
    ensures Selected(BigInt(i), f) == TimeBranch
    ensures var s := ConvertTimestampToSeconds(NumberStamp(NumberOfBigInt(i)), f.unit.GetOr(SECOND));
            !s.Truncated?
            && MapColumnField(BigInt(i), f, host)
               == (match host.formatClock(s)
                   case Some(clock) => Ok(Str(clock))
                   case None => Throw(INVALID_TIME))
  {
    MapColumnFieldByBranch(BigInt(i), f, host);
  }

  /** Decimal cells use `formatDecimal` as written: the string reads back
      to the integer the big number denotes when the scale is 0, the number
      is non-negative or its digits fill the scale; a negative number one
      digit short reads back ten times too large, and a shorter one does not
      read back at all. */
  lemma DecimalCell(x: Value, f: Field, host: Host)
    requires Selected(x, f) == DecimalBranch
    ensures MapColumnField(x, f, host).Ok? && MapColumnField(x, f, host).value.Str?
    ensures ParseDecimal(MapColumnField(x, f, host).value.s, f.scale) == AsWrittenReading(host.bigNum(x), f.scale)
  {
    var text := DecimalCellText(x, f, host);
    AsWrittenReadBack(host.bigNum(x), f.scale);
  }

  lemma DecimalCellText(x: Value, f: Field, host: Host) returns (text: string)
    requires Selected(x, f) == DecimalBranch
    ensures MapColumnField(x, f, host) == Ok(Str(text))
    ensures text == FormatDecimalAsWritten(host.bigNum(x), f.scale)
  {
    DecimalGuards(x, f);
    text := FormatDecimalAsWritten(host.bigNum(x), f.scale);
  }

  /** The tests `mapColumnData` makes before it reaches a decimal column. */
  lemma DecimalGuards(x: Value, f: Field)
    requires Selected(x, f) == DecimalBranch
    ensures !IsNullish(x) && !(IsDateLike(x) && DateKind in f.kinds) && !(x.BigInt? && TimeKind in f.kinds)
    ensures !(IsDateLike(x) && DatetimeKind in f.kinds)
    ensures PeriodKind !in f.kinds && IntervalKind !in f.kinds && DurationKind !in f.kinds
    ensures DecimalKind in f.kinds
  {
  }

  /** A decimal cell denoting -12 at scale 3 prints "-0.12", which reads back
      as -120 thousandths. */
  lemma DecimalCellCounterexample(x: Value, f: Field, host: Host)
    requires Selected(x, f) == DecimalBranch && host.bigNum(x) == -12 && f.scale == 3
    ensures MapColumnField(x, f, host) == Ok(Str("-0.12"))
    ensures ParseDecimal(MapColumnField(x, f, host).value.s, f.scale) == Some(-120)
  {
    MiddleBranches(x, f, host);
    AsWrittenCounterexamples();
  }
}
