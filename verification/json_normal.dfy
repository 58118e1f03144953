/** `formatObject` (packages/duckdb-wasm/src/format.ts): a value sent through
    `JSON.parse(JSON.stringify(value, replacer))`. The round trip through JSON
    text is modelled directly as the value that comes back. */
module JsonNormal {
  import opened Outcomes
  import opened Text
  import opened JsValues
  import opened Foreign

  /** A value that JSON text can carry unchanged: no `undefined`, no big
      integer, no `Date`, no typed array, no non-finite number. */
  predicate JsonSafe(v: Value) {
    match v
    case Undefined => false
    case Null => true
    case Bool(_) => true
    case Num(n) => n.Finite?
    case BigInt(_) => false
    case Str(_) => true
    case DateObj(_) => false
    case Int32s(_) => false
    case Arr(items) => forall k :: 0 <= k < |items| ==> JsonSafe(items[k])
    case Obj(es) => forall k :: 0 <= k < |es| ==> JsonSafe(es[k].value)
  }

  /** Whether serialization omits the value: `undefined` always; in struct
      mode the replacer also turns `null`, and an invalid `Date` (whose
      `toJSON` gives `null` before the replacer sees it), into `undefined`. */
  predicate Dropped(v: Value, isStruct: bool) {
    v.Undefined? || (isStruct && (v.Null? || (v.DateObj? && !ValidTime(v.time))))
  }

  /** The elements of a typed array as JSON sees it: an object keyed by index. */
  function IndexEntries(ws: seq<int>): (es: seq<Entry>)
    ensures |es| == |ws|
    ensures forall k :: 0 <= k < |ws| ==> es[k] == Entry(IntToString(k), Num(Finite(ws[k] as real)))
  {
    seq(|ws|, k requires 0 <= k < |ws| => Entry(IntToString(k), Num(Finite(ws[k] as real))))
  }

  /** The value `JSON.parse` returns for `JSON.stringify(v, replacer)`, or
      `None` when the property is omitted. `Date.prototype.toJSON` runs
      first, then the replacer: a big integer becomes a number; in struct
      mode null and undefined become `undefined`. Non-finite numbers print as
      `null`; omitted array items print as `null`; omitted object properties
      disappear. */
  function Normalize(v: Value, isStruct: bool, host: Host): Option<Value>
    decreases v, 1
  {
    match v
    case Undefined => None
    case Null => if isStruct then None else Some(Null)
    case Bool(_) => Some(v)
    case Num(n) => Some(if n.Finite? then v else Null)
    case BigInt(i) => Some(Num(NumberOfBigInt(i)))
    case Str(_) => Some(v)
    case DateObj(t) =>
      if ValidTime(t) then Some(Str(host.dateToJson(t.r)))
      else if isStruct then None
      else Some(Null)
    case Int32s(ws) => Some(Obj(IndexEntries(ws)))
    case Arr(items) =>
      Some(Arr(seq(|items|, k requires 0 <= k < |items| => Normalize(items[k], isStruct, host).GetOr(Null))))
    case Obj(es) => Some(Obj(NormalizeEntries(es, isStruct, host)))
  }

  /** The properties of an object that survive, in order, each normalized. */
  function NormalizeEntries(es: seq<Entry>, isStruct: bool, host: Host): seq<Entry>
    decreases es, 0
  {
    if es == [] then []
    else
      var rest := NormalizeEntries(es[1..], isStruct, host);
      match Normalize(es[0].value, isStruct, host)
      case None => rest
      case Some(w) => [Entry(es[0].key, w)] + rest
  }

  /** `formatObject(x, field)`: struct mode when the column is a struct. A
      value whose serialization is omitted altogether leaves `JSON.parse`
      with `undefined`, which it rejects. */
  function FormatObject(x: Value, isStruct: bool, host: Host): (r: Result<Value>)
    ensures r.Throw? <==> Dropped(x, isStruct)
    ensures r.Ok? ==> JsonSafe(r.value)
    ensures !isStruct && JsonSafe(x) ==> r == Ok(x)
  {
    NormalizeOmits(x, isStruct, host);
    NormalizeSafe(x, isStruct, host);
    if !isStruct && JsonSafe(x) then NormalizeFixedPoint(x, host); Shape(x, isStruct, host)
    else Shape(x, isStruct, host)
  }

  function Shape(x: Value, isStruct: bool, host: Host): Result<Value> {
    match Normalize(x, isStruct, host)
    case None => Throw("SyntaxError: \"undefined\" is not valid JSON")
    case Some(v) => Ok(v)
  }

  // Properties

  /** A value is omitted exactly when it is dropped. */
  lemma NormalizeOmits(v: Value, isStruct: bool, host: Host)
    ensures Normalize(v, isStruct, host).None? <==> Dropped(v, isStruct)
  {
  }

  /** Whatever comes back from JSON is JSON-safe. */
  lemma {:induction false} NormalizeSafe(v: Value, isStruct: bool, host: Host)
    ensures Normalize(v, isStruct, host).Some? ==> JsonSafe(Normalize(v, isStruct, host).value)
    decreases v, 1
  {
    match v
    case Arr(items) =>
      var out := Normalize(v, isStruct, host).value.items;
      forall k | 0 <= k < |out|
        ensures JsonSafe(out[k])
      {
        NormalizeSafe(items[k], isStruct, host);
      }
    case Obj(es) =>
      NormalizeEntriesSafe(es, isStruct, host);
    case _ =>
  }

  lemma {:induction false} NormalizeEntriesSafe(es: seq<Entry>, isStruct: bool, host: Host)
    ensures forall k :: 0 <= k < |NormalizeEntries(es, isStruct, host)| ==>
              JsonSafe(NormalizeEntries(es, isStruct, host)[k].value)
    decreases es, 0
  {
    if es != [] {
      NormalizeSafe(es[0].value, isStruct, host);
      NormalizeEntriesSafe(es[1..], isStruct, host);
    }
  }

  /** Outside struct mode, a JSON-safe value comes back unchanged. */
  lemma {:induction false} NormalizeFixedPoint(v: Value, host: Host)
    requires JsonSafe(v)
    ensures Normalize(v, false, host) == Some(v)
    decreases v, 1
  {
    match v
    case Arr(items) =>
      var out := Normalize(v, false, host).value.items;
      forall k | 0 <= k < |items|
        ensures out[k] == items[k]
      {
        NormalizeFixedPoint(items[k], host);
      }
      assert out == items;
    case Obj(es) =>
      NormalizeEntriesFixedPoint(es, host);
    case _ =>
  }

  lemma {:induction false} NormalizeEntriesFixedPoint(es: seq<Entry>, host: Host)
    requires forall k :: 0 <= k < |es| ==> JsonSafe(es[k].value)
    ensures NormalizeEntries(es, false, host) == es
    decreases es, 0
  {
    if es != [] {
      NormalizeFixedPoint(es[0].value, host);
      NormalizeEntriesFixedPoint(es[1..], host);
      assert es == [Entry(es[0].key, es[0].value)] + es[1..];
    }
  }

  /** Outside struct mode the value comes back unchanged exactly when it is
      JSON-safe, and formatting twice is formatting once. */
  lemma PlainFormatIdempotent(x: Value, host: Host)
    ensures FormatObject(x, false, host) == Ok(x) <==> JsonSafe(x)
    ensures FormatObject(x, false, host).Ok? ==>
              FormatObject(FormatObject(x, false, host).value, false, host) == FormatObject(x, false, host)
  {
  }

  /** An input property with its value normalized (dropped values read as null). */
  function NormalizedEntry(e: Entry, isStruct: bool, host: Host): Entry {
    Entry(e.key, Normalize(e.value, isStruct, host).GetOr(Null))
  }

  lemma NormalizeEntriesCons(es: seq<Entry>, isStruct: bool, host: Host)
    requires es != []
    ensures var rest := NormalizeEntries(es[1..], isStruct, host);
            NormalizeEntries(es, isStruct, host)
            == (if Dropped(es[0].value, isStruct) then [] else [NormalizedEntry(es[0], isStruct, host)]) + rest
  {
    NormalizeOmits(es[0].value, isStruct, host);
  }

  /** `e` is the normalized form of a property of `es` that is not dropped. */
  predicate FromKeptEntry(e: Entry, es: seq<Entry>, isStruct: bool, host: Host) {
    exists j :: 0 <= j < |es| && !Dropped(es[j].value, isStruct) && e == NormalizedEntry(es[j], isStruct, host)
  }

  lemma FromKeptEntryTail(e: Entry, es: seq<Entry>, isStruct: bool, host: Host)
    requires es != [] && FromKeptEntry(e, es[1..], isStruct, host)
    ensures FromKeptEntry(e, es, isStruct, host)
  {
    var j :| 0 <= j < |es[1..]| && !Dropped(es[1..][j].value, isStruct)
             && e == NormalizedEntry(es[1..][j], isStruct, host);
    assert es[j + 1] == es[1..][j];
  }

  /** Every property of a normalized object comes, normalized, from a
      property of the input that is not dropped; there are no more of them
      than input properties. */
  lemma {:induction false} NormalizedEntriesFromInput(es: seq<Entry>, isStruct: bool, host: Host)
    ensures var out := NormalizeEntries(es, isStruct, host);
            && |out| <= |es|
            && forall k :: 0 <= k < |out| ==> FromKeptEntry(out[k], es, isStruct, host)
    decreases es
  {
    if es != [] {
      var rest := NormalizeEntries(es[1..], isStruct, host);
      var out := NormalizeEntries(es, isStruct, host);
      NormalizedEntriesFromInput(es[1..], isStruct, host);
      NormalizeEntriesCons(es, isStruct, host);
      if Dropped(es[0].value, isStruct) {
        forall k | 0 <= k < |out|
          ensures FromKeptEntry(out[k], es, isStruct, host)
        {
          FromKeptEntryTail(out[k], es, isStruct, host);
        }
      } else {
        forall k | 0 <= k < |out|
          ensures FromKeptEntry(out[k], es, isStruct, host)
        {
          if k == 0 {
            assert out[0] == NormalizedEntry(es[0], isStruct, host);
          } else {
            assert out[k] == rest[k - 1];
            FromKeptEntryTail(out[k], es, isStruct, host);
          }
        }
      }
    }
  }

  /** Every property of the input that is not dropped is in the normalized
      object, with its value normalized. */
  lemma {:induction false} InputEntriesKept(es: seq<Entry>, isStruct: bool, host: Host)
    ensures var out := NormalizeEntries(es, isStruct, host);
            forall j :: 0 <= j < |es| && !Dropped(es[j].value, isStruct) ==>
              NormalizedEntry(es[j], isStruct, host) in out
    decreases es
  {
    if es != [] {
      var rest := NormalizeEntries(es[1..], isStruct, host);
      var out := NormalizeEntries(es, isStruct, host);
      InputEntriesKept(es[1..], isStruct, host);
      NormalizeEntriesCons(es, isStruct, host);
      forall j | 0 <= j < |es| && !Dropped(es[j].value, isStruct)
        ensures NormalizedEntry(es[j], isStruct, host) in out
      {
        if j == 0 {
          assert out[0] == NormalizedEntry(es[0], isStruct, host);
        } else {
          assert es[1..][j - 1] == es[j];
          assert NormalizedEntry(es[1..][j - 1], isStruct, host) in rest;
        }
      }
    }
  }

  /** In struct mode no property of an object is `null` before
      serialization survives, and the result of a struct row never throws. */
  lemma StructRowKeys(es: seq<Entry>, host: Host)
    ensures FormatObject(Obj(es), true, host).Ok?
    ensures forall k :: 0 <= k < |FormatObject(Obj(es), true, host).value.entries| ==>
              exists j :: 0 <= j < |es| && !IsNullish(es[j].value)
                          && FormatObject(Obj(es), true, host).value.entries[k].key == es[j].key
  {
    var out := NormalizeEntries(es, true, host);
    assert FormatObject(Obj(es), true, host) == Ok(Obj(out));
    NormalizedEntriesFromInput(es, true, host);
    forall k | 0 <= k < |out|
      ensures exists j :: 0 <= j < |es| && !IsNullish(es[j].value) && out[k].key == es[j].key
    {
      var j :| 0 <= j < |es| && !Dropped(es[j].value, true) && out[k] == NormalizedEntry(es[j], true, host);
      assert out[k].key == es[j].key;
    }
  }

  /** A typed array becomes an object keyed "0", "1", … by index. */
  lemma TypedArrayAsObject(ws: seq<int>, isStruct: bool, host: Host)
    ensures FormatObject(Int32s(ws), isStruct, host).Ok?
    ensures var r := FormatObject(Int32s(ws), isStruct, host).value;
            r.Obj? && |r.entries| == |ws|
            && forall k :: 0 <= k < |ws| ==>
                 ParseInt(r.entries[k].key) == Some(k) && r.entries[k].value == Num(Finite(ws[k] as real))
  {
    forall k | 0 <= k < |ws|
      ensures ParseInt(IntToString(k)) == Some(k)
    {
      ParseIntRoundTrip(k);
    }
  }
}
