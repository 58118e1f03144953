/** `mapStructRowData` (packages/duckdb-wasm/src/format.ts): every row of a
    query result, in its `toJSON` form, with the cell of each schema field
    replaced by its display value. The row walk is stated for any cell
    formatter and then used with `mapColumnData`. */
module Rows {
  import opened Outcomes
  import opened JsValues
  import opened Foreign
  import opened Types
  import opened Format

  /** A row as a plain object: its properties in insertion order. */
  type Row = seq<Entry>

  /** How one cell is formatted under its field. */
  type CellFormatter = (Value, Field) -> Result<Value>

  function KeysOf(row: Row): seq<string> {
    seq(|row|, i requires 0 <= i < |row| => row[i].key)
  }

  function FieldNames(schema: seq<Field>): seq<string> {
    seq(|schema|, i requires 0 <= i < |schema| => schema[i].name)
  }

  /** `row[k] = v`: an existing property keeps its place and takes the new
      value; a new one is added at the end. */
  function Assign(row: Row, k: string, v: Value): Row {
    if row == [] then [Entry(k, v)]
    else if row[0].key == k then [Entry(k, v)] + row[1..]
    else [row[0]] + Assign(row[1..], k, v)
  }

  /** After `row[k] = v`, reading `k` gives `v` and reading any other key
      gives what it gave before. */
  lemma {:induction false} AssignGet(row: Row, k: string, v: Value)
    ensures Get(Assign(row, k, v), k) == v
    ensures forall k' :: k' != k ==> Get(Assign(row, k, v), k') == Get(row, k')
  {
    if row != [] && row[0].key != k {
      AssignGet(row[1..], k, v);
    }
  }

  /** `row[k] = v` keeps the keys and their order; a new key goes last. */
  lemma AssignKeys(row: Row, k: string, v: Value)
    ensures k in KeysOf(row) ==> KeysOf(Assign(row, k, v)) == KeysOf(row)
    ensures k !in KeysOf(row) ==> Assign(row, k, v) == row + [Entry(k, v)]
  {
    if k in KeysOf(row) {
      AssignExistingKey(row, k, v);
    } else {
      AssignNewKey(row, k, v);
    }
  }

  /** Assigning a key the row has keeps the keys and their order. */
  lemma {:induction false} AssignExistingKey(row: Row, k: string, v: Value)
    requires k in KeysOf(row)
    ensures KeysOf(Assign(row, k, v)) == KeysOf(row)
  {
    assert KeysOf(row) == [row[0].key] + KeysOf(row[1..]);
    if row[0].key != k {
      AssignExistingKey(row[1..], k, v);
      var rest := Assign(row[1..], k, v);
      assert KeysOf([row[0]] + rest) == [row[0].key] + KeysOf(rest);
    } else {
      assert KeysOf([Entry(k, v)] + row[1..]) == [k] + KeysOf(row[1..]);
    }
  }

  /** Assigning a key the row lacks appends it. */
  lemma {:induction false} AssignNewKey(row: Row, k: string, v: Value)
    requires k !in KeysOf(row)
    ensures Assign(row, k, v) == row + [Entry(k, v)]
  {
    if row != [] {
      assert KeysOf(row) == [row[0].key] + KeysOf(row[1..]);
      AssignNewKey(row[1..], k, v);
      assert [row[0]] + (row[1..] + [Entry(k, v)]) == row + [Entry(k, v)];
    }
  }

  /** `schema.fields.forEach(field => row[field.name] =
      format(row[field.name], field))` on one row: the fields in schema
      order, each reading the row as the earlier ones left it. */
  function ApplySchema(row: Row, schema: seq<Field>, cell: CellFormatter): Result<Row>
    decreases |schema|
  {
    if schema == [] then Ok(row)
    else
      var f := schema[0];
      match cell(Get(row, f.name), f)
      case Throw(e) => Throw(e)
      case Ok(v) => ApplySchema(Assign(row, f.name, v), schema[1..], cell)
  }

  /** All rows in order, or the first exception a cell raises. */
  function MapRows(rows: seq<Row>, schema: seq<Field>, cell: CellFormatter): (r: Result<seq<Row>>)
    ensures r.Ok? ==> |r.value| == |rows|
    ensures r.Ok? <==> forall i :: 0 <= i < |rows| ==> ApplySchema(rows[i], schema, cell).Ok?
    ensures r.Ok? ==> forall i :: 0 <= i < |rows| ==> r.value[i] == ApplySchema(rows[i], schema, cell).value
  {
    if rows == [] then Ok([])
    else
      var first := ApplySchema(rows[0], schema, cell);
      var rest := MapRows(rows[1..], schema, cell);
      assert forall i :: 1 <= i < |rows| ==> rows[i] == rows[1..][i - 1];
      if first.Throw? then Throw(first.message)
      else if rest.Throw? then Throw(rest.message)
      else Ok([first.value] + rest.value)
  }

  /** `mapColumnData` as a cell formatter: the field is always present. */
  function ColumnCell(host: Host): CellFormatter {
    (x: Value, f: Field) => MapColumnField(x, f, host)
  }

  /** `mapStructRowData(results)`, given the rows' `toJSON` forms and the
      schema fields. */
  function MapStructRowData(rows: seq<Row>, schema: seq<Field>, host: Host): (r: Result<seq<Row>>)
    ensures r.Ok? ==> |r.value| == |rows|
    ensures r.Ok? <==> forall i :: 0 <= i < |rows| ==> ApplySchema(rows[i], schema, ColumnCell(host)).Ok?
    ensures r.Ok? ==> forall i :: 0 <= i < |rows| ==> r.value[i] == ApplySchema(rows[i], schema, ColumnCell(host)).value
  {
    MapRows(rows, schema, ColumnCell(host))
  }

  // Properties

  predicate DistinctNames(schema: seq<Field>) {
    forall i, j :: 0 <= i < j < |schema| ==> schema[i].name != schema[j].name
  }

  /** With distinct field names, a row fails exactly when one of its
      schema cells does, reading the cell as the row held it. */
  lemma {:induction false} ApplySchemaThrows(row: Row, schema: seq<Field>, cell: CellFormatter)
    requires DistinctNames(schema)
    ensures ApplySchema(row, schema, cell).Throw? <==>
              exists i :: 0 <= i < |schema| && cell(Get(row, schema[i].name), schema[i]).Throw?
    decreases |schema|
  {
    if schema != [] {
      var f := schema[0];
      var c := cell(Get(row, f.name), f);
      if c.Ok? {
        var row' := Assign(row, f.name, c.value);
        AssignGet(row, f.name, c.value);
        ApplySchemaThrows(row', schema[1..], cell);
        forall i | 1 <= i < |schema|
          ensures schema[1..][i - 1] == schema[i]
          ensures cell(Get(row', schema[i].name), schema[i]) == cell(Get(row, schema[i].name), schema[i])
        {
          assert schema[i].name != f.name;
        }
        if ApplySchema(row, schema, cell).Throw? {
          var i :| 0 <= i < |schema[1..]| && cell(Get(row', schema[1..][i].name), schema[1..][i]).Throw?;
          assert cell(Get(row, schema[i + 1].name), schema[i + 1]).Throw?;
        }
      }
    }
  }

  /** With distinct field names, every schema field holds its cell's
      formatted value and every other property keeps its value. */
  lemma {:induction false} ApplySchemaValues(row: Row, schema: seq<Field>, cell: CellFormatter)
    requires DistinctNames(schema)
    requires ApplySchema(row, schema, cell).Ok?
    ensures var out := ApplySchema(row, schema, cell).value;
            && (forall i :: 0 <= i < |schema| ==>
                  cell(Get(row, schema[i].name), schema[i]).Ok?
                  && Get(out, schema[i].name) == cell(Get(row, schema[i].name), schema[i]).value)
            && (forall k :: k !in FieldNames(schema) ==> Get(out, k) == Get(row, k))
    decreases |schema|
  {
    if schema != [] {
      var out := ApplySchema(row, schema, cell).value;
      var f := schema[0];
      var c := cell(Get(row, f.name), f);
      var row' := Assign(row, f.name, c.value);
      AssignGet(row, f.name, c.value);
      assert DistinctNames(schema[1..]);
      ApplySchemaValues(row', schema[1..], cell);
      assert FieldNames(schema) == [f.name] + FieldNames(schema[1..]);
      forall i | 0 <= i < |schema|
        ensures cell(Get(row, schema[i].name), schema[i]).Ok?
        ensures Get(out, schema[i].name) == cell(Get(row, schema[i].name), schema[i]).value
      {
        if i > 0 {
          assert schema[1..][i - 1] == schema[i];
          assert schema[i].name != f.name;
        } else {
          NameNotLater(schema);
        }
      }
    }
  }

  lemma NameNotLater(schema: seq<Field>)
    requires DistinctNames(schema) && schema != []
    ensures schema[0].name !in FieldNames(schema[1..])
  {
  }

  /** The properties the row had keep their order, and the schema fields it
      lacked follow them. */
  lemma {:induction false} ApplySchemaKeys(row: Row, schema: seq<Field>, cell: CellFormatter)
    requires ApplySchema(row, schema, cell).Ok?
    ensures var out := ApplySchema(row, schema, cell).value;
            && |row| <= |out|
            && KeysOf(out)[..|row|] == KeysOf(row)
            && (forall j :: |row| <= j < |out| ==> out[j].key in FieldNames(schema) && out[j].key !in KeysOf(row))
    decreases |schema|
  {
    if schema != [] {
      var out := ApplySchema(row, schema, cell).value;
      var f := schema[0];
      var c := cell(Get(row, f.name), f);
      var row' := Assign(row, f.name, c.value);
      AssignKeys(row, f.name, c.value);
      ApplySchemaKeys(row', schema[1..], cell);
      assert FieldNames(schema) == [f.name] + FieldNames(schema[1..]);
      if f.name in KeysOf(row) {
        assert KeysOf(row') == KeysOf(row);
      } else {
        assert KeysOf(row') == KeysOf(row) + [f.name];
        assert KeysOf(out)[..|row|] == KeysOf(out)[..|row'|][..|row|];
        forall j | |row| <= j < |out|
          ensures out[j].key in FieldNames(schema) && out[j].key !in KeysOf(row)
        {
          if j == |row| {
            assert out[j].key == KeysOf(out)[j] == KeysOf(row')[j];
          }
        }
      }
    }
  }

  /** A field listed twice formats its cell twice: the second field reads
      what the first one wrote. */
  lemma RepeatedFieldComposes(row: Row, f: Field, g: Field, cell: CellFormatter)
    requires f.name == g.name
    requires cell(Get(row, f.name), f).Ok?
    ensures var first := cell(Get(row, f.name), f).value;
            ApplySchema(row, [f, g], cell).Ok? <==> cell(first, g).Ok?
    ensures var first := cell(Get(row, f.name), f).value;
            ApplySchema(row, [f, g], cell).Ok? ==>
              Get(ApplySchema(row, [f, g], cell).value, f.name) == cell(first, g).value
  {
    var first := cell(Get(row, f.name), f).value;
    var row' := Assign(row, f.name, first);
    assert [f, g][1..] == [g];
    assert ApplySchema(row, [f, g], cell) == ApplySchema(row', [g], cell);
    AssignGet(row, f.name, first);
    ApplyOne(row', g, cell);
    if cell(first, g).Ok? {
      AssignGet(row', g.name, cell(first, g).value);
    }
  }

  lemma ApplyOne(row: Row, g: Field, cell: CellFormatter)
    ensures var c := cell(Get(row, g.name), g);
            ApplySchema(row, [g], cell) == if c.Throw? then Throw(c.message) else Ok(Assign(row, g.name, c.value))
  {
    assert [g][1..] == [];
  }

  /** A cell missing from a row is formatted from `undefined`, so the
      schema field is added to the row holding null. */
  lemma MissingCellBecomesNull(row: Row, f: Field, host: Host)
    requires f.name !in KeysOf(row)
    ensures ApplySchema(row, [f], ColumnCell(host)) == Ok(row + [Entry(f.name, Null)])
  {
    forall k | 0 <= k < |row| ensures row[k].key != f.name {
      assert KeysOf(row)[k] == row[k].key;
    }
    GetMissing(row, f.name);
    AssignKeys(row, f.name, Null);
    assert [f][1..] == [];
  }

  /** `mapStructRowData` with distinct field names: it fails exactly when
      some schema cell of some row throws; otherwise every row keeps its
      place, each schema field holds `mapColumnData` of its cell, and every
      other property is left as it was. */
  lemma StructRowsFormatted(rows: seq<Row>, schema: seq<Field>, host: Host)
    requires DistinctNames(schema)
    ensures MapStructRowData(rows, schema, host).Throw? <==>
              exists i, j :: 0 <= i < |rows| && 0 <= j < |schema|
                             && MapColumnField(Get(rows[i], schema[j].name), schema[j], host).Throw?
    ensures var r := MapStructRowData(rows, schema, host);
            r.Ok? ==> |r.value| == |rows|
                      && forall i, j :: 0 <= i < |rows| && 0 <= j < |schema| ==>
                           Get(r.value[i], schema[j].name) == MapColumnField(Get(rows[i], schema[j].name), schema[j], host).value
    ensures var r := MapStructRowData(rows, schema, host);
            r.Ok? ==> forall i, k :: 0 <= i < |rows| && k !in FieldNames(schema) ==> Get(r.value[i], k) == Get(rows[i], k)
  {
    var cell := ColumnCell(host);
    forall i | 0 <= i < |rows|
      ensures ApplySchema(rows[i], schema, cell).Throw? <==>
                exists j :: 0 <= j < |schema| && MapColumnField(Get(rows[i], schema[j].name), schema[j], host).Throw?
      ensures ApplySchema(rows[i], schema, cell).Ok? ==>
                forall j :: 0 <= j < |schema| ==>
                  Get(ApplySchema(rows[i], schema, cell).value, schema[j].name)
                  == MapColumnField(Get(rows[i], schema[j].name), schema[j], host).value
      ensures ApplySchema(rows[i], schema, cell).Ok? ==>
                forall k :: k !in FieldNames(schema) ==> Get(ApplySchema(rows[i], schema, cell).value, k) == Get(rows[i], k)
    {
      ApplySchemaThrows(rows[i], schema, cell);
      if ApplySchema(rows[i], schema, cell).Ok? {
        ApplySchemaValues(rows[i], schema, cell);
      }
    }
  }
}
