/** JavaScript values as the formatter sees them: one decoded Arrow cell,
    or the display value produced for it. */
module JsValues {

  /** A JavaScript number. Finite numbers are modelled as reals; the rounding
      of IEEE doubles is not modelled. */
  datatype Number = Finite(r: real) | NaN | Infinity | NegInfinity

  /** `Number.MAX_SAFE_INTEGER`, that is 2^53 - 1. */
  const MAX_SAFE_INTEGER: int := 9007199254740991

  /** `Number.isSafeInteger(n)`. */
  predicate IsSafeInteger(n: Number) {
    n.Finite? && n.r.Floor as real == n.r && -MAX_SAFE_INTEGER <= n.r.Floor <= MAX_SAFE_INTEGER
  }

  /** The largest magnitude of a `Date` time value: 8.64e15 ms, 10^8 days. */
  const MAX_TIME_VALUE: real := 8640000000000000.0

  /** Whether `new Date(t)` is a valid date: the time clip keeps `t` only
      when it is finite and at most 8.64e15 in magnitude. A `Date` object's
      own time value has passed the same clip, so it is either NaN or in
      range; every test of a `Date`'s validity in this model is this one. */
  predicate ValidTime(t: Number) {
    t.Finite? && -MAX_TIME_VALUE <= t.r <= MAX_TIME_VALUE
  }

  /** `Number(b)` for a big integer. Below 2^53 in magnitude this is exact;
      above, the double rounding is abstracted away. */
  function NumberOfBigInt(i: int): Number {
    Finite(i as real)
  }

  /** A decoded cell or a formatted value. `Int32s` is an `Int32Array` or
      `Uint32Array` (decimal limbs, interval components); `Arr` is an Arrow
      list cell (a `Vector`, whose `toJSON` gives its items as an array) or
      a plain array; `Obj` is a plain object or a struct row in its `toJSON`
      form, with its keys in order. */
  datatype Value =
    | Undefined
    | Null
    | Bool(b: bool)
    | Num(n: Number)
    | BigInt(i: int)
    | Str(s: string)
    | DateObj(time: Number)  // a `Date`; valid exactly when `ValidTime(time)`
    | Int32s(words: seq<int>)
    | Arr(items: seq<Value>)
    | Obj(entries: seq<Entry>)

  datatype Entry = Entry(key: string, value: Value)

  /** `isNullOrUndefined(x)`. */
  predicate IsNullish(v: Value) {
    v.Null? || v.Undefined?
  }

  /** `Number.isFinite(x)`: true only for finite numbers (never for big integers). */
  predicate IsFiniteNumber(v: Value) {
    v.Num? && v.n.Finite?
  }

  /** `x instanceof Date || Number.isFinite(x)`. */
  predicate IsDateLike(v: Value) {
    v.DateObj? || IsFiniteNumber(v)
  }

  /** The time value of a date-like cell: the Date's own, or the number itself. */
  function TimeOf(v: Value): Number
    requires IsDateLike(v)
  {
    if v.DateObj? then v.time else v.n
  }

  /** `Boolean(x)`. */
  function Truthy(v: Value): bool {
    match v
    case Undefined => false
    case Null => false
    case Bool(b) => b
    case Num(n) => !(n.NaN? || n == Finite(0.0))
    case BigInt(i) => i != 0
    case Str(s) => s != ""
    case _ => true
  }

  /** `number | bigint`, the argument type of the time and period helpers. */
  datatype Timestamp = NumberStamp(n: Number) | BigIntStamp(i: int)

  /** `Number(t)`. */
  function ToNumber(t: Timestamp): Number {
    match t
    case NumberStamp(n) => n
    case BigIntStamp(i) => NumberOfBigInt(i)
  }

  /** A big integer is a safe integer after `Number(...)` exactly when its
      magnitude is at most 2^53 - 1 (rounding never carries a larger value
      back into range). */
  lemma BigIntSafeRange(i: int)
    ensures IsSafeInteger(NumberOfBigInt(i)) <==> -MAX_SAFE_INTEGER <= i <= MAX_SAFE_INTEGER
  {
    assert (i as real).Floor == i;
  }

  /** `obj[key]` on a plain object: the value of the first property with
      that key, `undefined` when there is none. */
  function Get(es: seq<Entry>, key: string): Value {
    if es == [] then Undefined
    else if es[0].key == key then es[0].value
    else Get(es[1..], key)
  }

  /** The value found is the one of the first property with the key. */
  lemma {:induction false} GetFirstMatch(es: seq<Entry>, key: string, k: nat)
    requires k < |es| && es[k].key == key
    requires forall j :: 0 <= j < k ==> es[j].key != key
    ensures Get(es, key) == es[k].value
  {
    if k > 0 {
      assert forall j :: 0 <= j < k - 1 ==> es[1..][j] == es[j + 1];
      GetFirstMatch(es[1..], key, k - 1);
    }
  }

  /** Without a property of that name, the lookup is `undefined`. */
  lemma {:induction false} GetMissing(es: seq<Entry>, key: string)
    requires forall j :: 0 <= j < |es| ==> es[j].key != key
    ensures Get(es, key) == Undefined
  {
    if es != [] {
      assert forall j :: 0 <= j < |es| - 1 ==> es[1..][j] == es[j + 1];
      GetMissing(es[1..], key);
    }
  }
}
