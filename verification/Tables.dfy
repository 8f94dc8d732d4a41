/** Rows, schemas and memtables as values: src/dataNode/dataNodeLib/memtable.hpp. */
module Tables {
  import opened Bytes
  import opened Wrappers

  datatype ColumnType = INT64 | UINT64 | DOUBLE | STRING

  /** A double is its 64 bits. */
  datatype Value = Unsigned(n: U64) | Signed(i: I64) | Double(bits: U64) | Text(s: seq<Byte>)

  type I64 = x: int | -0x8000_0000_0000_0000 <= x < 0x8000_0000_0000_0000

  datatype Column = Column(name: seq<Byte>, kind: ColumnType)

  datatype Field = Field(name: seq<Byte>, value: Value)

  predicate DistinctColumns(s: seq<Column>) {
    s == [] || ((forall i :: 0 < i < |s| ==> s[i].name != s[0].name) && DistinctColumns(s[1..]))
  }

  predicate DistinctFields(s: seq<Field>) {
    s == [] || ((forall i :: 0 < i < |s| ==> s[i].name != s[0].name) && DistinctFields(s[1..]))
  }

  /** The iteration order of an unordered map with these keys. */
  type Schema = s: seq<Column> | DistinctColumns(s) witness []
  type Fields = s: seq<Field> | DistinctFields(s) witness []

  datatype Row = Row(timestamp: U64, data: seq<Value>)

  // ----- sizes

  function NameBytes(s: seq<Column>): nat {
    if s == [] then 0 else NameBytes(s[..|s| - 1]) + |s[|s| - 1].name|
  }

  /** Size of a table without rows: the names, and four bytes per column type. */
  function BaseSize(s: seq<Column>): nat {
    NameBytes(s) + 4 * |s|
  }

  function TextLength(v: Value): nat {
    if v.Text? then |v.s| else 0
  }

  function FixedBytes(fields: seq<Field>): nat {
    if fields == [] then 0 else (if fields[0].value.Text? then 0 else 8) + FixedBytes(fields[1..])
  }

  function TextBytes(fields: seq<Field>): nat {
    if fields == [] then 0 else TextLength(fields[0].value) + TextBytes(fields[1..])
  }

  /** Each field, wherever it comes, adds eight bytes if it is a number and its own length if it is a string. */
  lemma {:induction false} FieldSizes(before: seq<Field>, f: Field, after: seq<Field>)
    ensures FixedBytes([]) == TextBytes([]) == 0
    ensures f.value.Text? ==>
              && FixedBytes(before + [f] + after) == FixedBytes(before + after)
              && TextBytes(before + [f] + after) == TextBytes(before + after) + |f.value.s|
    ensures !f.value.Text? ==>
              && FixedBytes(before + [f] + after) == FixedBytes(before + after) + 8
              && TextBytes(before + [f] + after) == TextBytes(before + after)
  {
    if before == [] {
      assert before + [f] + after == [f] + after && before + after == after;
      assert ([f] + after)[1..] == after;
    } else {
      FieldSizes(before[1..], f, after);
      assert (before + [f] + after)[1..] == before[1..] + [f] + after && (before + after)[1..] == before[1..] + after;
    }
  }

  /** String bytes stored in a row, and in a table. */
  function DataText(data: seq<Value>): nat {
    if data == [] then 0 else TextLength(data[0]) + DataText(data[1..])
  }

  function RowsText(rows: seq<Row>): nat {
    if rows == [] then 0 else RowsText(rows[..|rows| - 1]) + DataText(rows[|rows| - 1].data)
  }

  // ----- rows from fields

  function Lookup(fields: seq<Field>, name: seq<Byte>): Option<Value> {
    if fields == [] then None
    else if fields[0].name == name then Some(fields[0].value)
    else Lookup(fields[1..], name)
  }

  /** The row's values in column order; None when a column has no field. */
  function Project(columns: seq<Column>, fields: seq<Field>): Option<seq<Value>> {
    if columns == [] then Some([])
    else
      var v, rest := Lookup(fields, columns[0].name), Project(columns[1..], fields);
      if v.None? || rest.None? then None else Some([v.value] + rest.value)
  }

  /** Some field has this name. */
  ghost predicate Named(fields: seq<Field>, name: seq<Byte>) {
    exists j :: 0 <= j < |fields| && fields[j].name == name
  }

  /** Some field has this name and this value. */
  ghost predicate Gives(fields: seq<Field>, name: seq<Byte>, v: Value) {
    exists j :: 0 <= j < |fields| && fields[j].name == name && fields[j].value == v
  }

  /** The value of each column is that of the field with the column's name. */
  ghost predicate InColumns(columns: seq<Column>, fields: seq<Field>, data: seq<Value>) {
    |data| == |columns| && forall i :: 0 <= i < |columns| ==> Gives(fields, columns[i].name, data[i])
  }

  lemma {:induction false} LookupMeaning(fields: seq<Field>, name: seq<Byte>, v: Value)
    requires DistinctFields(fields)
    ensures Lookup(fields, name).Some? <==> Named(fields, name)
    ensures Lookup(fields, name) == Some(v) <==> Gives(fields, name, v)
  {
    if fields != [] {
      var rest := fields[1..];
      LookupMeaning(rest, name, v);
      assert forall j :: 0 < j < |fields| ==> fields[j] == rest[j - 1];
      if Gives(rest, name, v) {
        var j :| 0 <= j < |rest| && rest[j].name == name && rest[j].value == v;
        assert fields[j + 1].name == name;
      }
      if Named(rest, name) {
        var j :| 0 <= j < |rest| && rest[j].name == name;
        assert fields[j + 1].name == name;
      }
    }
  }

  /** A row is stored exactly when every column's name is the name of a field, and then it is the one row that holds for
      each column the value of that field. */
  lemma {:induction false} ProjectMeaning(columns: seq<Column>, fields: seq<Field>, data: seq<Value>)
    requires DistinctFields(fields)
    ensures Project(columns, fields).Some? <==> forall i :: 0 <= i < |columns| ==> Named(fields, columns[i].name)
    ensures Project(columns, fields) == Some(data) <==> InColumns(columns, fields, data)
  {
    hide Named, Gives, Lookup;
    if columns != [] {
      var rest := columns[1..];
      var tail := if data == [] then [] else data[1..];
      ProjectMeaning(rest, fields, tail);
      LookupMeaning(fields, columns[0].name, if data == [] then Unsigned(0) else data[0]);
      assert forall i :: 0 < i < |columns| ==> columns[i] == rest[i - 1];
      if InColumns(columns, fields, data) {
        assert forall i :: 0 <= i < |rest| ==> rest[i] == columns[i + 1] && tail[i] == data[i + 1];
        assert data == [data[0]] + tail;
      }
      if forall i :: 0 <= i < |columns| ==> Named(fields, columns[i].name) {
        forall i | 0 <= i < |rest|
          ensures Named(fields, rest[i].name)
        {
          assert rest[i] == columns[i + 1];
        }
      }
    }
  }

  lemma ProjectIff(columns: seq<Column>, fields: seq<Field>)
    requires DistinctFields(fields)
    ensures Project(columns, fields).None? <==> exists i :: 0 <= i < |columns| && !Named(fields, columns[i].name)
    ensures Project(columns, fields).Some? ==> InColumns(columns, fields, Project(columns, fields).value)
  {
    hide Named, InColumns, Project;
    ProjectMeaning(columns, fields, if Project(columns, fields).Some? then Project(columns, fields).value else []);
  }

  function Without(fields: seq<Field>, name: seq<Byte>): seq<Field> {
    if fields == [] then []
    else if fields[0].name == name then fields[1..]
    else [fields[0]] + Without(fields[1..], name)
  }

  lemma {:induction false} WithoutBytes(fields: seq<Field>, name: seq<Byte>)
    requires Lookup(fields, name).Some?
    ensures TextBytes(fields) == TextLength(Lookup(fields, name).value) + TextBytes(Without(fields, name))
  {
    if fields[0].name != name {
      WithoutBytes(fields[1..], name);
    }
  }

  lemma {:induction false} WithoutLookup(fields: seq<Field>, name: seq<Byte>, other: seq<Byte>)
    requires other != name
    ensures Lookup(Without(fields, name), other) == Lookup(fields, other)
  {
    if fields != [] && fields[0].name != name {
      WithoutLookup(fields[1..], name, other);
    }
  }

  lemma {:induction false} ProjectWithout(columns: seq<Column>, fields: seq<Field>, name: seq<Byte>)
    requires forall i :: 0 <= i < |columns| ==> columns[i].name != name
    ensures Project(columns, Without(fields, name)) == Project(columns, fields)
  {
    if columns != [] {
      WithoutLookup(fields, name, columns[0].name);
      ProjectWithout(columns[1..], fields, name);
    }
  }

  /** The string bytes a row keeps are among those its fields were charged for. */
  lemma {:induction false} StoredTextIsCharged(columns: seq<Column>, fields: seq<Field>)
    requires DistinctColumns(columns) && Project(columns, fields).Some?
    ensures |Project(columns, fields).value| == |columns|
    ensures DataText(Project(columns, fields).value) <= TextBytes(fields)
  {
    if columns != [] {
      var name := columns[0].name;
      WithoutBytes(fields, name);
      ProjectWithout(columns[1..], fields, name);
      StoredTextIsCharged(columns[1..], Without(fields, name));
    }
  }

  // ----- memtables as values

  datatype Table = Table(columns: Schema, rows: seq<Row>, capacity: nat, varSize: nat, minTime: U64, maxTime: U64)

  function NewTable(columns: Schema): Table {
    Table(columns, [], BaseSize(columns), 0, MAX_U64, 0)
  }

  function Min(a: U64, b: U64): U64 {
    if a <= b then a else b
  }

  function Max(a: U64, b: U64): U64 {
    if a <= b then b else a
  }

  /** `write`, when every column has a field. */
  function WriteRow(t: Table, ts: U64, data: seq<Value>): Table {
    t.(rows := t.rows + [Row(ts, data)], minTime := Min(t.minTime, ts), maxTime := Max(t.maxTime, ts))
  }

  function AddRowSize(t: Table, fixedSize: nat, varSize: nat): Table {
    t.(capacity := t.capacity + fixedSize, varSize := t.varSize + varSize)
  }

  function Usage(t: Table): nat {
    t.capacity + t.varSize
  }

  ghost predicate TimesExact(t: Table) {
    && (forall i :: 0 <= i < |t.rows| ==> t.minTime <= t.rows[i].timestamp <= t.maxTime)
    && (t.rows != [] ==> exists i :: 0 <= i < |t.rows| && t.rows[i].timestamp == t.minTime)
    && (t.rows != [] ==> exists i :: 0 <= i < |t.rows| && t.rows[i].timestamp == t.maxTime)
  }

  /** What every table in use keeps: bounds and sizes that match its rows. */
  ghost predicate TableInv(t: Table) {
    && TimesExact(t)
    && (t.rows == [] ==> t == NewTable(t.columns))
    && RowsText(t.rows) <= t.varSize
    && BaseSize(t.columns) <= t.capacity
    && forall i :: 0 <= i < |t.rows| ==> |t.rows[i].data| == |t.columns|
  }

  lemma WriteTimes(t: Table, ts: U64, data: seq<Value>)
    requires TimesExact(t) && (t.rows == [] ==> t.minTime == MAX_U64 && t.maxTime == 0)
    ensures TimesExact(WriteRow(t, ts, data))
  {
    var t' := WriteRow(t, ts, data);
    assert t'.rows[|t.rows|].timestamp == ts;
    if t.rows != [] {
      var i :| 0 <= i < |t.rows| && t.rows[i].timestamp == t.minTime;
      var j :| 0 <= j < |t.rows| && t.rows[j].timestamp == t.maxTime;
      assert t'.rows[i] == t.rows[i] && t'.rows[j] == t.rows[j];
    }
  }

  lemma WriteKeepsInv(t: Table, ts: U64, fields: seq<Field>)
    requires TableInv(t) && Project(t.columns, fields).Some?
    ensures TableInv(AddRowSize(WriteRow(t, ts, Project(t.columns, fields).value), 8 + FixedBytes(fields), TextBytes(fields)))
  {
    hide TimesExact;
    var data := Project(t.columns, fields).value;
    StoredTextIsCharged(t.columns, fields);
    WriteTimes(t, ts, data);
    assert (t.rows + [Row(ts, data)])[..|t.rows|] == t.rows;
    TimesOfRows(WriteRow(t, ts, data), 8 + FixedBytes(fields), TextBytes(fields));
  }

  lemma TimesOfRows(t: Table, fixedSize: nat, varSize: nat)
    requires TimesExact(t)
    ensures TimesExact(AddRowSize(t, fixedSize, varSize))
  {
  }

  lemma NewTableInv(columns: Schema)
    ensures TableInv(NewTable(columns))
  {
  }
}

/** The memtable object. */
module Memtables {
  import opened Bytes
  import opened Wrappers
  import opened Tables

  datatype Outcome = Written | Frozen | MissingColumn

  class Memtable {
    var currentCapacity: nat
    var table: seq<Row>
    const columns: Schema
    var columnNameSize: nat
    var mut: bool
    var varDataSize: nat
    var minTime: U64
    var maxTime: U64
    var rowCount: nat
    ghost const owner: nat    // the region the table was made for

    ghost predicate Valid()
      reads this
    {
      rowCount == |table| && columnNameSize == NameBytes(columns)
    }

    ghost function View(): Table
      reads this
    {
      Table(columns, table, currentCapacity, varDataSize, minTime, maxTime)
    }

    constructor (columns: Schema, ghost owner: nat)
      ensures Valid() && mut && View() == NewTable(columns) && this.owner == owner && this.columns == columns
    {
      this.columns := columns;
      this.owner := owner;
      table := [];
      varDataSize := 0;
      mut := true;
      minTime, maxTime := MAX_U64, 0;
      rowCount := 0;
      var size := 0;
      for i := 0 to |columns|
        invariant size == NameBytes(columns[..i])
      {
        assert columns[..i + 1][..i] == columns[..i];
        size := size + |columns[i].name|;
      }
      assert columns[..|columns|] == columns;
      columnNameSize := size;
      currentCapacity := size + 4 * |columns|;
    }

    /** `write`: a frozen table throws at once; a missing column throws after the time bounds have moved. */
    method Write(ts: U64, fields: Fields) returns (r: Outcome)
      requires Valid()
      modifies this
      ensures Valid() && mut == old(mut)
      ensures r == if !old(mut) then Frozen else if Project(columns, fields).None? then MissingColumn else Written
      ensures r.Frozen? ==> View() == old(View())
      ensures r.MissingColumn? ==>
        View() == old(View()).(minTime := Min(old(minTime), ts), maxTime := Max(old(maxTime), ts))
      ensures r.Written? ==> View() == WriteRow(old(View()), ts, Project(columns, fields).value)
      ensures r.MissingColumn? <==> old(mut) && exists i :: 0 <= i < |columns| && !Named(fields, columns[i].name)
      ensures r.Written? ==> exists data :: InColumns(columns, fields, data) && table == old(table) + [Row(ts, data)]
    {
      hide NameBytes, Lookup, Named, Gives, Project;
      ProjectIff(columns, fields);
      if !mut {
        return Frozen;
      }
      minTime := Min(minTime, ts);
      maxTime := Max(maxTime, ts);
      var data: seq<Value> := [];
      for i := 0 to |columns|
        modifies {}
        invariant |data| == i && forall k :: 0 <= k < i ==> Gives(fields, columns[k].name, data[k])
      {
        var v := Lookup(fields, columns[i].name);
        LookupMeaning(fields, columns[i].name, if v.Some? then v.value else Unsigned(0));
        if v.None? {
          return MissingColumn;
        }
        data := data + [v.value];
      }
      ProjectMeaning(columns, fields, data);
      table := table + [Row(ts, data)];
      rowCount := rowCount + 1;
      r := Written;
    }

    /** `calRowSize`: every field is charged, also those that are no column. */
    method CalRowSize(fields: Fields) returns (fixedSize: nat, varSize: nat)
      ensures fixedSize == 8 + FixedBytes(fields) && varSize == TextBytes(fields)
    {
      fixedSize, varSize := 8, 0;
      for i := 0 to |fields|
        invariant fixedSize + FixedBytes(fields[i..]) == 8 + FixedBytes(fields)
        invariant varSize + TextBytes(fields[i..]) == TextBytes(fields)
      {
        assert fields[i..][0] == fields[i] && fields[i..][1..] == fields[i + 1..];
        match fields[i].value
        case Text(s) => varSize := varSize + |s|;
        case _ => fixedSize := fixedSize + 8;
      }
    }

    method AddRowSize(fixedSize: nat, varSize: nat)
      requires Valid()
      modifies this
      ensures Valid() && mut == old(mut)
      ensures View() == Tables.AddRowSize(old(View()), fixedSize, varSize)
    {
      currentCapacity := currentCapacity + fixedSize;
      varDataSize := varDataSize + varSize;
    }

    method Freeze()
      requires Valid()
      modifies this`mut
      ensures Valid() && !mut && View() == old(View())
    {
      mut := false;
    }
  }
}
