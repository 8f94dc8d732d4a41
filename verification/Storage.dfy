/** From an accepted row to its bytes on disk: the flusher appends frozen memtables, in the order of their flush signals,
    to the files of their regions (src/dataNode/flusher.cpp). */
module Storage {
  import opened Bytes
  import opened Wrappers
  import opened Tables
  import opened Requests
  import opened WorkerRuns
  import opened BlockLayout
  import opened BlockReader
  import opened SSTFiles

  /** The tables a worker has flushed for a region. */
  function TablesOf(flushed: seq<Flush>, id: nat): seq<Table> {
    if flushed == [] then []
    else
      var n := |flushed| - 1;
      TablesOf(flushed[..n], id) + if flushed[n].regionID == id then [flushed[n].table] else []
  }

  function RowsIn(tables: seq<Table>): seq<Row> {
    if tables == [] then [] else RowsIn(tables[..|tables| - 1]) + tables[|tables| - 1].rows
  }

  lemma {:induction false} FlushedAreTables(flushed: seq<Flush>, id: nat)
    ensures FlushedRows(flushed, id) == RowsIn(TablesOf(flushed, id))
  {
    if flushed != [] {
      var n := |flushed| - 1;
      FlushedAreTables(flushed[..n], id);
      var before := TablesOf(flushed[..n], id);
      if flushed[n].regionID == id {
        assert (before + [flushed[n].table])[..|before|] == before;
      } else {
        assert before + [] == before && FlushedRows(flushed[..n], id) + [] == FlushedRows(flushed[..n], id);
      }
    }
  }

  // ----- which tables can be written

  predicate TypedTable(t: Table) {
    Typed(t.rows, t.columns)
  }

  /** The flush signals before the first table that holds a value of another type than its column. */
  function Handled(flushed: seq<Flush>): (n: nat)
    ensures n <= |flushed| && (forall i :: 0 <= i < n ==> TypedTable(flushed[i].table))
    ensures n < |flushed| ==> !TypedTable(flushed[n].table)
  {
    if flushed == [] then 0
    else
      var n, last := Handled(flushed[..|flushed| - 1]), |flushed| - 1;
      if n == last && TypedTable(flushed[last].table) then n + 1 else n
  }

  /** Either the signal is no accepted write, or each of the values fits the type of its column. */
  predicate AcceptsTyped(p: Parsers, w: Worker, signal: Signal) {
    signal.request.Write? && signal.regionID in w.open ==>
      var r, fields := w.open[signal.regionID], p.fields(signal.request.jsonData);
      fields.Some? && WorkerRuns.RowSize(fields.value) <= r.attrs.threshold && Project(r.table.columns, fields.value).Some? ==>
        RowTyped(Project(r.table.columns, fields.value).value, r.table.columns)
  }

  ghost predicate AllTyped(w: Worker) {
    && (forall k :: k in w.open ==> TypedTable(w.open[k].table))
    && (forall i :: 0 <= i < |w.flushed| ==> TypedTable(w.flushed[i].table))
  }

  lemma TypedAppend(rows: seq<Row>, row: Row, columns: seq<Column>)
    ensures Typed(rows + [row], columns) <==> Typed(rows, columns) && RowTyped(row.data, columns)
  {
    hide RowTyped;
    assert (rows + [row])[|rows|] == row;
    if Typed(rows + [row], columns) {
      forall i | 0 <= i < |rows|
        ensures RowTyped(rows[i].data, columns)
      {
        assert (rows + [row])[i] == rows[i];
      }
    }
  }

  /** A flush moves a table; it does not change which tables there are. */
  lemma FlushTyped(w: Worker, id: nat)
    requires id in w.open
    ensures AllTyped(SendFlush(w, id)) <==> AllTyped(w)
  {
    hide RowTyped;
    var w' := SendFlush(w, id);
    assert w'.flushed[|w.flushed|].table == w.open[id].table;
    if AllTyped(w') {
      forall k | k in w.open
        ensures TypedTable(w.open[k].table)
      {
        assert k in w'.open && (k != id ==> w'.open[k] == w.open[k]);
      }
      forall i | 0 <= i < |w.flushed|
        ensures TypedTable(w.flushed[i].table)
      {
        assert w'.flushed[i] == w.flushed[i];
      }
    }
  }

  lemma AddTyped(w: Worker, id: nat, ts: U64, fields: Fields, data: seq<Value>)
    requires id in w.open
    ensures AllTyped(w.(open := w.open[id := AddRow(w.open[id], ts, fields, data)]))
       <==> AllTyped(w) && RowTyped(data, w.open[id].table.columns)
  {
    hide Typed, RowTyped, FixedBytes, TextBytes;
    var w' := w.(open := w.open[id := AddRow(w.open[id], ts, fields, data)]);
    TypedAppend(w.open[id].table.rows, Row(ts, data), w.open[id].table.columns);
    assert TypedTable(w'.open[id].table) <==> TypedTable(w.open[id].table) && RowTyped(data, w.open[id].table.columns);
    hide TypedTable;
    if AllTyped(w') {
      assert id in w'.open;
      forall k | k in w.open
        ensures TypedTable(w.open[k].table)
      {
        assert k in w'.open && (k != id ==> w'.open[k] == w.open[k]);
      }
    }
  }

  lemma CloseTyped(w: Worker, id: nat)
    requires id in w.open && w.open[id].table.rows == []
    ensures AllTyped(w.(open := w.open - {id}, closed := w.closed[id := w.open[id].attrs])) <==> AllTyped(w)
  {
    hide RowTyped;
    assert TypedTable(w.open[id].table);
    hide TypedTable;
    var w' := w.(open := w.open - {id}, closed := w.closed[id := w.open[id].attrs]);
    assert forall k :: k in w'.open ==> k in w.open && w'.open[k] == w.open[k];
    assert forall k :: k in w.open && k != id ==> k in w'.open && w'.open[k] == w.open[k];
  }

  /** After one signal all tables are typed exactly when they were before and the signal accepts no other row. */
  lemma StepTyped(p: Parsers, w: Worker, signal: Signal)
    requires HandleSignal(p, w, signal).Some?
    ensures AllTyped(HandleSignal(p, w, signal).value) <==> AllTyped(w) && AcceptsTyped(p, w, signal)
  {
    hide AllTyped, RowTyped, FixedBytes, TextBytes, Project, BaseSize;
    var id := signal.regionID;
    if id in w.open {
      FlushTyped(w, id);
      match signal.request {
        case Write(ts, json) =>
          var fields := p.fields(json);
          if fields.Some? && WorkerRuns.RowSize(fields.value) <= w.open[id].attrs.threshold {
            var w1 := if Usage(w.open[id].table) + WorkerRuns.RowSize(fields.value) > w.open[id].attrs.threshold
                      then SendFlush(w, id) else w;
            AddTyped(w1, id, ts, fields.value, Project(w.open[id].table.columns, fields.value).value);
          }
        case Create(_, _, json) => SameTables(w, HandleSignal(p, w, signal).value);
        case Open =>
        case Close =>
          CloseTyped(if w.open[id].table.rows != [] then SendFlush(w, id) else w, id);
        case Drop =>
      }
    } else {
      NoneOpened(p, w, signal);
    }
  }

  lemma SameTables(w: Worker, w': Worker)
    requires w'.open == w.open && w'.flushed == w.flushed
    ensures AllTyped(w') <==> AllTyped(w)
  {
  }

  lemma NoneOpened(p: Parsers, w: Worker, signal: Signal)
    requires signal.regionID !in w.open && HandleSignal(p, w, signal).Some?
    ensures AllTyped(HandleSignal(p, w, signal).value) <==> AllTyped(w)
  {
    hide RowTyped, BaseSize, FixedBytes, TextBytes, Project;
    var w' := HandleSignal(p, w, signal).value;
    assert forall k :: k in w.open ==> k in w'.open && w'.open[k] == w.open[k];
  }

  /** Every write accepted during the run has typed values: known before each write from its fields and the schema. */
  ghost predicate WritesTyped(p: Parsers, w: Worker, signals: seq<Signal>)
    decreases |signals|
  {
    signals != [] ==>
      && AcceptsTyped(p, w, signals[0])
      && (HandleSignal(p, w, signals[0]).Some? ==> WritesTyped(p, HandleSignal(p, w, signals[0]).value, signals[1..]))
  }

  lemma {:induction false} RunTyped(p: Parsers, w: Worker, signals: seq<Signal>)
    requires Run(p, w, signals).Some?
    ensures AllTyped(Run(p, w, signals).value) <==> AllTyped(w) && WritesTyped(p, w, signals)
    decreases |signals|
  {
    hide HandleSignal, AllTyped, AcceptsTyped;
    if signals != [] {
      StepTyped(p, w, signals[0]);
      RunTyped(p, HandleSignal(p, w, signals[0]).value, signals[1..]);
    }
  }

  /** The flusher gets past all flush signals of a run, and will get past the tables still open, exactly when every
      accepted write was typed. */
  lemma AllHandledIff(p: Parsers, signals: seq<Signal>)
    requires Run(p, IDLE, signals).Some?
    ensures var w := Run(p, IDLE, signals).value;
            Handled(w.flushed) == |w.flushed| && (forall k :: k in w.open ==> TypedTable(w.open[k].table))
            <==> WritesTyped(p, IDLE, signals)
  {
    hide TypedTable, Run, WritesTyped;
    RunTyped(p, IDLE, signals);
  }

  function OneColumn(name: seq<Byte>, kind: ColumnType): Schema {
    var s := [Column(name, kind)];
    assert s[1..] == [] && DistinctColumns(s[1..]);
    s
  }

  function OneField(name: seq<Byte>, v: Value): Fields {
    var s := [Field(name, v)];
    assert s[1..] == [] && DistinctFields(s[1..]);
    s
  }

  /** The worker does not look at types: a region with one column takes any value for it. When the region is closed its
      table is flushed, and the flusher gets past it exactly when the value is of the column's type. */
  lemma OneValueHandled(p: Parsers, id: nat, request: nat, a: string, json: string, name: seq<Byte>, kind: ColumnType, v: Value,
                        ts: U64, threshold: nat, path: string)
    requires p.attrs(a) == Some(Attrs(threshold, Columns(OneColumn(name, kind)), path))
    requires threshold >= |name| + 20 + TextLength(v) && p.fields(json) == Some(OneField(name, v))
    ensures var run := [Signal(id, request, Create("", "", a)), Signal(id, request, Open),
                        Signal(id, request, Write(ts, json)), Signal(id, request, Close)];
            var w := Run(p, IDLE, run);
            && w.Some? && |w.value.flushed| == 1 && w.value.flushed[0].table.rows == [Row(ts, [v])]
            && (Handled(w.value.flushed) == 1 <==>
                  || (kind.INT64? && v.Signed?) || (kind.UINT64? && v.Unsigned?)
                  || (kind.DOUBLE? && v.Double?) || (kind.STRING? && v.Text?))
            && (WritesTyped(p, IDLE, run) <==> Handled(w.value.flushed) == 1)
  {
    hide FixedBytes, TextBytes, NameBytes, BaseSize, Project, OneColumn, OneField, AllTyped;
    var columns := OneColumn(name, kind);
    var s1, s2 := Signal(id, request, Create("", "", a)), Signal(id, request, Open);
    var s3, s4 := Signal(id, request, Write(ts, json)), Signal(id, request, Close);
    var run := [s1, s2, s3, s4];
    OneColumnTakes(name, kind, v);
    var w1 := HandleSignal(p, IDLE, s1).value;
    var w2 := HandleSignal(p, w1, s2).value;
    assert w2.open[id] == OpenRegion(p.attrs(a).value, NewTable(columns));
    var w3 := HandleSignal(p, w2, s3).value;
    assert w3.flushed == [] && w3.open[id].table.rows == [Row(ts, [v])];
    var w4 := HandleSignal(p, w3, s4).value;
    RunFour(p, s1, s2, s3, s4);
    OneTable(w4, columns, ts, v);
    RunTyped(p, IDLE, run);
    NoTables();
  }

  /** An unsigned number, which JSON decoding makes of every number without a sign, is taken for an INT64 column; that
      table is the one the flusher does not get past. */
  lemma UntypedAccepted(p: Parsers, id: nat, request: nat, a: string, json: string, name: seq<Byte>, n: U64, ts: U64,
                        threshold: nat, path: string)
    requires p.attrs(a) == Some(Attrs(threshold, Columns(OneColumn(name, INT64)), path)) && threshold >= |name| + 20
    requires p.fields(json) == Some(OneField(name, Unsigned(n)))
    ensures var run := [Signal(id, request, Create("", "", a)), Signal(id, request, Open),
                        Signal(id, request, Write(ts, json)), Signal(id, request, Close)];
            var w := Run(p, IDLE, run);
            && w.Some? && |w.value.flushed| == 1 && w.value.flushed[0].table.rows == [Row(ts, [Unsigned(n)])]
            && Handled(w.value.flushed) == 0 && !WritesTyped(p, IDLE, run)
  {
    hide Run, WritesTyped;
    OneValueHandled(p, id, request, a, json, name, INT64, Unsigned(n), ts, threshold, path);
  }

  lemma NoTables()
    ensures AllTyped(IDLE)
  {
  }

  lemma OneTable(w: Worker, columns: Schema, ts: U64, v: Value)
    requires w.open == map[] && |w.flushed| == 1 && w.flushed[0].table.columns == columns && |columns| == 1
    requires w.flushed[0].table.rows == [Row(ts, [v])]
    ensures Handled(w.flushed) == 1 <==> Fits(v, columns[0].kind)
    ensures AllTyped(w) <==> Fits(v, columns[0].kind)
  {
    hide Fits;
    var t := w.flushed[0].table;
    assert t.rows[0].data == [v] && [v][0] == v;
    assert RowTyped([v], columns) <==> Fits(v, columns[0].kind);
    assert TypedTable(t) <==> RowTyped([v], columns);
    assert w.flushed[..0] == [];
  }

  lemma OneColumnTakes(name: seq<Byte>, kind: ColumnType, v: Value)
    ensures |OneColumn(name, kind)| == 1 && OneColumn(name, kind)[0] == Column(name, kind)
    ensures Project(OneColumn(name, kind), OneField(name, v)) == Some([v])
    ensures BaseSize(OneColumn(name, kind)) == |name| + 4
    ensures 8 <= WorkerRuns.RowSize(OneField(name, v)) <= 16 + TextLength(v)
  {
    var columns, fields := OneColumn(name, kind), OneField(name, v);
    assert columns[1..] == [] && columns[..0] == [] && fields[1..] == [];
    assert FixedBytes(fields) == (if v.Text? then 0 else 8) + FixedBytes([]) && TextBytes(fields) == TextLength(v) + TextBytes([]);
    assert NameBytes(columns) == NameBytes([]) + |name|;
    assert Lookup(fields, name) == Some(v);
    assert Project([], fields) == Some([]);
    assert [v] + [] == [v];
  }

  lemma RunFour(p: Parsers, a: Signal, b: Signal, c: Signal, d: Signal)
    requires HandleSignal(p, IDLE, a).Some?
    requires HandleSignal(p, HandleSignal(p, IDLE, a).value, b).Some?
    requires HandleSignal(p, HandleSignal(p, HandleSignal(p, IDLE, a).value, b).value, c).Some?
    requires HandleSignal(p, HandleSignal(p, HandleSignal(p, HandleSignal(p, IDLE, a).value, b).value, c).value, d).Some?
    ensures Run(p, IDLE, [a, b, c, d])
         == HandleSignal(p, HandleSignal(p, HandleSignal(p, HandleSignal(p, IDLE, a).value, b).value, c).value, d)
  {
    hide HandleSignal;
    var w1 := HandleSignal(p, IDLE, a).value;
    var w2 := HandleSignal(p, w1, b).value;
    var w3 := HandleSignal(p, w2, c).value;
    assert [a, b, c, d][1..] == [b, c, d] && [b, c, d][1..] == [c, d] && [c, d][1..] == [d] && [d][1..] == [];
    assert Run(p, IDLE, [a, b, c, d]) == Run(p, w1, [b, c, d]);
    assert Run(p, w1, [b, c, d]) == Run(p, w2, [c, d]);
    assert Run(p, w2, [c, d]) == Run(p, w3, [d]);
    assert Run(p, HandleSignal(p, w3, d).value, []) == HandleSignal(p, w3, d);
  }

  // ----- what was written is read

  /** The block and the row in it that hold the i-th row. */
  function Locate(tables: seq<Table>, i: nat): (p: (nat, nat))
    requires i < |RowsIn(tables)|
    ensures p.0 < |tables| && p.1 < |tables[p.0].rows| && tables[p.0].rows[p.1] == RowsIn(tables)[i]
    decreases |tables|
  {
    var n := |tables| - 1;
    var before := |RowsIn(tables[..n])|;
    if i >= before then (n, i - before) else Locate(tables[..n], i)
  }

  /** The bytes from the offset on are a block of t whose row r reads back as data. */
  ghost predicate RowStands(bytes: seq<Byte>, offset: nat, t: Table, r: nat, data: seq<Value>)
    requires r < |t.rows|
  {
    && offset + BlockSize(t) <= |bytes| && |data| == |t.columns|
    && forall col :: 0 <= col < |t.columns| ==> Read(bytes[offset..offset + BlockSize(t)], r, col) == data[col]
  }

  lemma RowRead(sst: SST, i: nat)
    requires sst.Valid() && i < |RowsIn(sst.tables)|
    ensures var (b, r) := Locate(sst.tables, i);
            RowStands(sst.file.bytes, sst.regionMetas[b].fileOffset, sst.tables[b], r, RowsIn(sst.tables)[i].data)
  {
    hide Read, BlockOf, Typed, BlockSize, Locate;
    var (b, r) := Locate(sst.tables, i);
    assert sst.BlockStored(sst.regionMetas[b], sst.tables[b]);
    RowLength(sst.tables[b], r);
    var offset := sst.regionMetas[b].fileOffset;
    forall col | 0 <= col < |sst.tables[b].columns|
      ensures Read(sst.file.bytes[offset..offset + BlockSize(sst.tables[b])], r, col) == RowsIn(sst.tables)[i].data[col]
    {
      ReadBack(sst.file.bytes[offset..offset + BlockSize(sst.tables[b])], sst.tables[b], r, col);
    }
  }

  lemma {:induction false} RowsInConcat(a: seq<Table>, b: seq<Table>)
    ensures RowsIn(a + b) == RowsIn(a) + RowsIn(b)
    decreases |b|
  {
    hide RowsIn;
    if b == [] {
      assert a + b == a;
      NoRows(RowsIn(a));
    } else {
      var n := |b| - 1;
      RowsInConcat(a, b[..n]);
      assert (a + b)[..|a| + n] == a + b[..n];
      RowsInLast(a + b);
      RowsInLast(b);
      SeqAssoc(RowsIn(a), RowsIn(b[..n]), b[n].rows);
    }
  }

  lemma RowsInLast(b: seq<Table>)
    requires b != []
    ensures RowsIn(b) == RowsIn(b[..|b| - 1]) + b[|b| - 1].rows
  {
  }

  lemma NoRows(rows: seq<Row>)
    ensures RowsIn([]) == [] && rows + [] == rows
  {
  }

  /** The SST holds exactly these rows, and each stands in its file. */
  ghost predicate RowsStand(sst: SST, rows: seq<Row>)
    requires sst.Valid()
    reads sst, sst.file, sst.regionMetas
  {
    && RowsIn(sst.tables) == rows
    && forall i :: 0 <= i < |rows| ==>
         var (b, r) := Locate(sst.tables, i);
         RowStands(sst.file.bytes, sst.regionMetas[b].fileOffset, sst.tables[b], r, rows[i].data)
  }

  lemma StoredRowsStand(sst: SST)
    requires sst.Valid()
    ensures RowsStand(sst, RowsIn(sst.tables))
  {
    hide RowStands, RowsIn, Locate, SST.BlockStored;
    assert |sst.regionMetas| == |sst.tables|;
    hide SST.Valid;
    forall i | 0 <= i < |RowsIn(sst.tables)|
      ensures var (b, r) := Locate(sst.tables, i);
              b < |sst.regionMetas| && r < |sst.tables[b].rows|
              && RowStands(sst.file.bytes, sst.regionMetas[b].fileOffset, sst.tables[b], r, RowsIn(sst.tables)[i].data)
    {
      RowRead(sst, i);
    }
  }

  lemma {:induction false} FlushedPrefix(flushed: seq<Flush>, n: nat, id: nat)
    requires n <= |flushed|
    ensures FlushedRows(flushed[..n], id) <= FlushedRows(flushed, id)
    decreases |flushed|
  {
    if n == |flushed| {
      assert flushed[..n] == flushed;
    } else {
      FlushedPrefix(flushed[..|flushed| - 1], n, id);
      assert flushed[..|flushed| - 1][..n] == flushed[..n];
    }
  }

  // ----- the pipe of all workers

  /** A flush signal with the worker that put it on the pipe. */
  datatype Piped = Piped(worker: nat, flush: Flush)

  function AllOf(pipe: seq<Piped>): (r: seq<Flush>)
    ensures |r| == |pipe| && forall i :: 0 <= i < |r| ==> r[i] == pipe[i].flush
  {
    if pipe == [] then [] else AllOf(pipe[..|pipe| - 1]) + [pipe[|pipe| - 1].flush]
  }

  /** What one worker put there, oldest first. */
  function ShareOf(pipe: seq<Piped>, worker: nat): seq<Flush> {
    if pipe == [] then []
    else
      var n := |pipe| - 1;
      ShareOf(pipe[..n], worker) + if pipe[n].worker == worker then [pipe[n].flush] else []
  }

  lemma {:induction false} SharePrefix(pipe: seq<Piped>, m: nat, worker: nat) returns (n: nat)
    requires m <= |pipe|
    ensures n <= |ShareOf(pipe, worker)| && ShareOf(pipe[..m], worker) == ShareOf(pipe, worker)[..n]
    ensures m == |pipe| ==> n == |ShareOf(pipe, worker)|
    decreases |pipe|
  {
    if m == |pipe| {
      assert pipe[..m] == pipe;
      n := |ShareOf(pipe, worker)|;
    } else {
      n := SharePrefix(pipe[..|pipe| - 1], m, worker);
      assert pipe[..|pipe| - 1][..m] == pipe[..m];
    }
  }

  /** The tables of a region come from the worker it is routed to. */
  lemma {:induction false} TablesOfShare(pipe: seq<Piped>, worker: nat, id: nat)
    requires forall i :: 0 <= i < |pipe| && pipe[i].flush.regionID == id ==> pipe[i].worker == worker
    ensures TablesOf(AllOf(pipe), id) == TablesOf(ShareOf(pipe, worker), id)
  {
    if pipe != [] {
      var n := |pipe| - 1;
      TablesOfShare(pipe[..n], worker, id);
      assert AllOf(pipe)[..n] == AllOf(pipe[..n]);
      var share := ShareOf(pipe[..n], worker);
      if pipe[n].worker == worker {
        assert (share + [pipe[n].flush])[..|share|] == share;
      } else {
        assert share + [] == share;
      }
    }
  }

  lemma {:induction false} InShare(pipe: seq<Piped>, worker: nat)
    ensures (forall i :: 0 <= i < |pipe| && pipe[i].worker == worker ==> TypedTable(pipe[i].flush.table))
       <==> forall j :: 0 <= j < |ShareOf(pipe, worker)| ==> TypedTable(ShareOf(pipe, worker)[j].table)
  {
    hide TypedTable;
    if pipe != [] {
      var n := |pipe| - 1;
      InShare(pipe[..n], worker);
      var share := ShareOf(pipe[..n], worker);
      assert forall i :: 0 <= i < n ==> pipe[..n][i] == pipe[i];
      assert forall j :: 0 <= j < |share| ==> ShareOf(pipe, worker)[j] == share[j];
      if pipe[n].worker == worker {
        assert ShareOf(pipe, worker)[|share|] == pipe[n].flush;
      }
    }
  }

  predicate AllHandled(flushed: seq<Flush>) {
    Handled(flushed) == |flushed|
  }

  /** The flusher gets past the whole pipe exactly when it would get past what each worker put there. */
  lemma MergedHandled(pipe: seq<Piped>)
    ensures AllHandled(AllOf(pipe)) <==> forall w: nat :: AllHandled(ShareOf(pipe, w))
  {
    hide TypedTable, AllHandled, ShareOf, AllOf;
    HandledAll(AllOf(pipe));
    if AllHandled(AllOf(pipe)) {
      forall w: nat
        ensures AllHandled(ShareOf(pipe, w))
      {
        HandledAll(ShareOf(pipe, w));
        InShare(pipe, w);
        assert forall i :: 0 <= i < |pipe| ==> TypedTable(AllOf(pipe)[i].table) && AllOf(pipe)[i] == pipe[i].flush;
      }
    } else {
      var i :| 0 <= i < |AllOf(pipe)| && !TypedTable(AllOf(pipe)[i].table);
      HandledAll(ShareOf(pipe, pipe[i].worker));
      InShare(pipe, pipe[i].worker);
      assert !AllHandled(ShareOf(pipe, pipe[i].worker));
    }
  }

  lemma HandledAll(flushed: seq<Flush>)
    ensures AllHandled(flushed) <==> forall i :: 0 <= i < |flushed| ==> TypedTable(flushed[i].table)
  {
    hide TypedTable;
  }

  /** From the requests a worker took to the file of a region it is routed, wherever on the pipe of all workers the flusher
      has got to: the file holds the first accepted rows of the region, each readable cell by cell, and once the pipe is
      worked off, all of them but those of a memtable still open. */
  lemma AcceptedRowReadable(p: Parsers, signals: seq<Signal>, pipe: seq<Piped>, worker: nat, m: nat, sst: SST, id: nat)
    requires Run(p, IDLE, signals).Some? && ShareOf(pipe, worker) == Run(p, IDLE, signals).value.flushed
    requires forall i :: 0 <= i < |pipe| && pipe[i].flush.regionID == id ==> pipe[i].worker == worker
    requires m <= |pipe| && sst.Valid() && sst.tables == TablesOf(AllOf(pipe)[..m], id)
    ensures PlainRun(p, NOTHING, signals).Some?
    ensures var w, accepted := Run(p, IDLE, signals).value, LogOf(PlainRun(p, NOTHING, signals).value.log, id);
            && RowsIn(sst.tables) <= accepted && RowsStand(sst, RowsIn(sst.tables))
            && (m == |pipe| ==>
                  accepted == RowsIn(sst.tables) + if id in w.open then w.open[id].table.rows else [])
  {
    hide Run, PlainRun, RowsStand, SST.Valid, FlushedRows, TablesOf, RowsIn, LogOf, Refines, ShareOf;
    NothingYet();
    RunRefines(p, IDLE, NOTHING, signals);
    var w, accepted := Run(p, IDLE, signals).value, LogOf(PlainRun(p, NOTHING, signals).value.log, id);
    var n := SharePrefix(pipe, m, worker);
    assert AllOf(pipe)[..m] == AllOf(pipe[..m]);
    TablesOfShare(pipe[..m], worker, id);
    SameRows(w, PlainRun(p, NOTHING, signals).value, id);
    FlushedAreTables(w.flushed[..n], id);
    FlushedPrefix(w.flushed, n, id);
    StoredRowsStand(sst);
    assert w.flushed[..|w.flushed|] == w.flushed;
  }

  // ----- from a cell in a file back to the request

  /** A write request for the region, with this time stamp, gives value v for the column name. */
  ghost predicate Says(p: Parsers, signal: Signal, id: nat, ts: U64, name: seq<Byte>, v: Value) {
    && signal.regionID == id && signal.request.Write? && signal.request.timestamp == ts
    && p.fields(signal.request.jsonData).Some? && Gives(p.fields(signal.request.jsonData).value, name, v)
  }

  lemma {:induction false} TablesRequested(p: Parsers, signals: seq<Signal>, flushed: seq<Flush>, id: nat, b: nat)
    requires forall i :: 0 <= i < |flushed| ==> TableRequested(p, signals, flushed[i].regionID, flushed[i].table)
    requires b < |TablesOf(flushed, id)|
    ensures TableRequested(p, signals, id, TablesOf(flushed, id)[b])
    decreases |flushed|
  {
    hide TableRequested;
    var n := |flushed| - 1;
    if b < |TablesOf(flushed[..n], id)| {
      TablesRequested(p, signals, flushed[..n], id, b);
    }
  }

  /** Every cell read from the file of a region is the value some write request for the region, with the time stamp of the
      cell's row, gave for the name of the cell's column. */
  lemma CellFromRequest(p: Parsers, signals: seq<Signal>, pipe: seq<Piped>, worker: nat, m: nat, sst: SST, id: nat,
                        b: nat, r: nat, col: nat)
    requires Run(p, IDLE, signals).Some? && ShareOf(pipe, worker) == Run(p, IDLE, signals).value.flushed
    requires forall i :: 0 <= i < |pipe| && pipe[i].flush.regionID == id ==> pipe[i].worker == worker
    requires m <= |pipe| && sst.Valid() && sst.tables == TablesOf(AllOf(pipe)[..m], id)
    requires b < |sst.tables| && r < |sst.tables[b].rows| && col < |sst.tables[b].columns|
    ensures b < |sst.regionMetas|
    ensures var t, offset := sst.tables[b], sst.regionMetas[b].fileOffset;
            && offset + BlockSize(t) <= |sst.file.bytes|
            && exists i :: 0 <= i < |signals| && Says(p, signals[i], id, t.rows[r].timestamp, t.columns[col].name,
                                                      Read(sst.file.bytes[offset..offset + BlockSize(t)], r, col))
  {
    hide Run, TablesOf, ShareOf, Read, BlockOf, Typed, BlockSize, Requested;
    var w, t := Run(p, IDLE, signals).value, sst.tables[b];
    assert AllRequested(p, signals, IDLE) && signals[0..] == signals;
    RunRequested(p, signals, IDLE, 0);
    var n := SharePrefix(pipe, m, worker);
    assert AllOf(pipe)[..m] == AllOf(pipe[..m]);
    TablesOfShare(pipe[..m], worker, id);
    TablesRequested(p, signals, w.flushed[..n], id, b);
    assert Requested(p, signals, id, t.columns, t.rows[r]);
    assert sst.BlockStored(sst.regionMetas[b], t);
    var offset := sst.regionMetas[b].fileOffset;
    ReadBack(sst.file.bytes[offset..offset + BlockSize(t)], t, r, col);
    RequestSays(p, signals, id, t, r, col);
  }

  lemma RequestSays(p: Parsers, signals: seq<Signal>, id: nat, t: Table, r: nat, col: nat)
    requires r < |t.rows| && col < |t.columns| && Requested(p, signals, id, t.columns, t.rows[r])
    ensures col < |t.rows[r].data|
    ensures exists i :: 0 <= i < |signals|
                        && Says(p, signals[i], id, t.rows[r].timestamp, t.columns[col].name, t.rows[r].data[col])
  {
    hide Gives;
    var i :| 0 <= i < |signals| && FromRequest(p, signals[i], id, t.columns, t.rows[r]);
    assert Says(p, signals[i], id, t.rows[r].timestamp, t.columns[col].name, t.rows[r].data[col]);
  }

  lemma SameRows(w: Worker, s: Store, id: nat)
    requires Refines(w, s)
    ensures LogOf(s.log, id) == FlushedRows(w.flushed, id) + if id in w.open then w.open[id].table.rows else []
  {
    hide SameRegions, LogOf, FlushedRows;
    assert RowsOf(w, id) == LogOf(s.log, id);
  }

  lemma NothingYet()
    ensures Refines(IDLE, NOTHING)
  {
  }

  lemma RowLength(t: Table, r: nat)
    requires Typed(t.rows, t.columns) && r < |t.rows|
    ensures |t.rows[r].data| == |t.columns|
  {
    assert RowTyped(t.rows[r].data, t.columns);
  }
}

/** The flusher: it appends to the SST of each region until a table stops it. */
module Flushers {
  import opened Bytes
  import opened Tables
  import opened Memtables
  import opened WorkerRuns
  import opened RegionWorkers
  import opened BlockLayout
  import opened BlockReader
  import opened SSTFiles
  import opened Storage

  /** Every memtable on the pipe is frozen, in step with its rows, and of a size that fits a word. */
  ghost predicate Flushable(signals: seq<FlushSignal>)
    reads set f | f in signals :: f.memtable
  {
    AllFrozen(signals) && forall f | f in signals :: TableInv(f.memtable.View()) && InWords(f.memtable.View())
  }

  class Flusher {
    const ssts: map<nat, SST>

    ghost function Objects(): set<object>
      reads ssts.Values
    {
      ssts.Values + (set s | s in ssts.Values :: s.file)
    }

    ghost function Metas(): set<object>
      reads ssts.Values
    {
      set s, i | s in ssts.Values && 0 <= i < |s.regionMetas| :: s.regionMetas[i]
    }

    ghost predicate Valid()
      reads Objects(), Metas()
    {
      && (forall s | s in ssts.Values :: s.Valid())
      && (forall j, k | j in ssts && k in ssts && j != k :: ssts[j] != ssts[k] && ssts[j].file != ssts[k].file)
    }

    constructor (ssts: map<nat, SST>)
      requires forall s | s in ssts.Values :: s.Valid()
      requires forall j, k | j in ssts && k in ssts && j != k :: ssts[j] != ssts[k] && ssts[j].file != ssts[k].file
      ensures Valid() && this.ssts == ssts
    {
      this.ssts := ssts;
    }

    /** `handleFlush`: false where a value of the wrong type raises an exception that nothing here catches. */
    method HandleFlush(signal: FlushSignal) returns (ok: bool)
      requires Valid() && signal.regionID in ssts && Flushable([signal])
      modifies Objects()
      ensures Valid() && ok == TypedTable(signal.memtable.View())
      ensures forall k | k in ssts :: ssts[k].tables
                == old(ssts[k].tables) + if ok && k == signal.regionID then [signal.memtable.View()] else []
    {
      hide Typed, InWords, TableInv, SST.BlockStored;
      assert signal in [signal];
      ok := ssts[signal.regionID].AppendMemtable(signal.memtable, signal.startTime, signal.endTime);
      forall k | k in ssts && k != signal.regionID
        ensures ssts[k].Valid() && ssts[k].tables == old(ssts[k].tables)
      {
        assert ssts[k] in ssts.Values;
        assert old(ssts[k].Valid());
      }
    }

    lemma RegionStands(k: nat, before: seq<Table>, flushed: seq<Flush>)
      requires Valid() && k in ssts && ssts[k].tables == before + TablesOf(flushed, k)
      ensures ssts[k].Valid() && RowsStand(ssts[k], RowsIn(before) + FlushedRows(flushed, k))
    {
      hide SST.Valid, RowsStand, RowsIn, TablesOf, FlushedRows;
      assert ssts[k] in ssts.Values;
      StoredRowsStand(ssts[k]);
      RowsInConcat(before, TablesOf(flushed, k));
      FlushedAreTables(flushed, k);
    }

    static lemma HandledIs(flushed: seq<Flush>, n: nat)
      requires n <= |flushed| && (forall i :: 0 <= i < n ==> TypedTable(flushed[i].table))
      requires n < |flushed| ==> !TypedTable(flushed[n].table)
      ensures Handled(flushed) == n
    {
      hide TypedTable;
    }

    static lemma {:induction false} FlushedAt(signals: seq<FlushSignal>, i: nat)
      requires i < |signals|
      ensures |Flushed(signals)| == |signals|
      ensures Flushed(signals)[i] == Flush(signals[i].regionID, signals[i].startTime, signals[i].endTime,
                                           signals[i].memtable.View(), signals[i].sstPath)
    {
      if i < |signals| - 1 {
        FlushedAt(signals[..|signals| - 1], i);
      } else if i > 0 {
        FlushedAt(signals[..|signals| - 1], i - 1);
      }
    }

    static lemma SameLength(signals: seq<FlushSignal>)
      ensures |Flushed(signals)| == |signals|
    {
      if signals != [] { FlushedAt(signals, 0); }
    }

    static lemma TablesStart(flushed: seq<Flush>, k: nat)
      ensures TablesOf(flushed[..0], k) == []
    {
    }

    static lemma TablesStep(flushed: seq<Flush>, n: nat, k: nat)
      requires n < |flushed|
      ensures TablesOf(flushed[..n + 1], k)
           == TablesOf(flushed[..n], k) + if flushed[n].regionID == k then [flushed[n].table] else []
    {
      assert flushed[..n + 1][..n] == flushed[..n];
    }

    /** Each SST holds what it held before, and the tables of its region among the first n flush signals. */
    ghost predicate Took(before: map<nat, seq<Table>>, flushed: seq<Flush>, n: nat)
      requires n <= |flushed|
      reads ssts.Values
    {
      forall k | k in ssts :: k in before && ssts[k].tables == before[k] + TablesOf(flushed[..n], k)
    }

    /** The next signal on the pipe. */
    method HandleNext(signals: seq<FlushSignal>, i: nat, ghost flushed: seq<Flush>, ghost before: map<nat, seq<Table>>)
      returns (ok: bool)
      requires Valid() && Flushable(signals) && Flushed(signals) == flushed
      requires i < |signals| == |flushed| && signals[i].regionID in ssts && Took(before, flushed, i)
      modifies Objects()
      ensures Valid() && Flushable(signals) && Flushed(signals) == flushed
      ensures ok == TypedTable(flushed[i].table) && Took(before, flushed, if ok then i + 1 else i)
    {
      hide TypedTable, Flushed, TablesOf, InWords, TableInv, SST.Valid;
      FlushedAt(signals, i);
      forall k | k in ssts
        ensures TablesOf(flushed[..i + 1], k)
             == TablesOf(flushed[..i], k) + if flushed[i].regionID == k then [flushed[i].table] else []
      {
        TablesStep(flushed, i, k);
      }
      ok := HandleFlush(signals[i]);
    }

    /** `run`, over the signals in the order they were put on the pipe, from however many workers: it gets exactly to the
        first table that is not typed. Up to there each region's SST takes the region's tables, and every row of theirs
        is read back from the file. */
    method Run(signals: seq<FlushSignal>) returns (done: nat)
      requires Valid() && Flushable(signals) && forall f | f in signals :: f.regionID in ssts
      modifies Objects()
      ensures Valid() && Flushed(signals) == old(Flushed(signals))
      ensures done == Handled(Flushed(signals))
      ensures forall k | k in ssts :: ssts[k].tables == old(ssts[k].tables) + TablesOf(Flushed(signals)[..done], k)
      ensures forall k | k in ssts ::
                RowsStand(ssts[k], old(RowsIn(ssts[k].tables)) + FlushedRows(Flushed(signals)[..done], k))
    {
      hide TypedTable, Flushed, TablesOf, Handled, RowsStand, RowsIn, FlushedRows, Flushable, SST.Valid;
      ghost var flushed := Flushed(signals);
      ghost var before := map k | k in ssts :: ssts[k].tables;
      SameLength(signals);
      forall k | k in ssts
        ensures TablesOf(flushed[..0], k) == []
      {
        TablesStart(flushed, k);
      }
      done := 0;
      while done < |signals|
        invariant 0 <= done <= |signals| == |flushed|
        invariant Valid() && Flushable(signals) && Flushed(signals) == flushed
        invariant forall i :: 0 <= i < done ==> TypedTable(flushed[i].table)
        invariant Took(before, flushed, done)
      {
        var ok := HandleNext(signals, done, flushed, before);
        if !ok {
          break;
        }
        done := done + 1;
      }
      HandledIs(flushed, done);
      forall k | k in ssts
        ensures RowsStand(ssts[k], RowsIn(before[k]) + FlushedRows(flushed[..done], k))
      {
        RegionStands(k, before[k], flushed[..done]);
      }
    }
  }
}
