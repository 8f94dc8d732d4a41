/** The region worker as a state machine on values, and what its runs keep: src/dataNode/regionWorker.cpp. */
module WorkerRuns {
  import opened Bytes
  import opened Wrappers
  import opened Tables
  import opened Requests
  import MitoEngines

  /** The attribute `columnNames`: not JSON, JSON but no object, or a schema. */
  datatype ColumnNames = Unparsable | NotAnObject | Columns(schema: Schema)

  datatype Attrs = Attrs(threshold: nat, columnNames: ColumnNames, sstPath: string)

  /** JSON decoding: None where the code logs an error and returns. */
  datatype Parsers = Parsers(fields: string -> Option<Fields>, attrs: string -> Option<Attrs>)

  datatype OpenRegion = OpenRegion(attrs: Attrs, table: Table)

  datatype Flush = Flush(regionID: nat, startTime: U64, endTime: U64, table: Table, sstPath: string)

  datatype Worker = Worker(open: map<nat, OpenRegion>, closed: map<nat, Attrs>, dropping: map<nat, Attrs>, flushed: seq<Flush>)

  function RowSize(fields: Fields): nat {
    8 + FixedBytes(fields) + TextBytes(fields)
  }

  // ----- one signal; None when an exception leaves the worker

  function SendFlush(w: Worker, id: nat): Worker
    requires id in w.open
  {
    var r := w.open[id];
    w.(open := w.open[id := r.(table := NewTable(r.table.columns))],
       flushed := w.flushed + [Flush(id, r.table.minTime, r.table.maxTime, r.table, r.attrs.sstPath)])
  }

  function HandleWrite(p: Parsers, w: Worker, id: nat, ts: U64, json: string): Option<Worker>
    requires id in w.open
  {
    var fields, r := p.fields(json), w.open[id];
    if fields.None? || RowSize(fields.value) > r.attrs.threshold then Some(w)
    else
      var w1 := if Usage(r.table) + RowSize(fields.value) > r.attrs.threshold then SendFlush(w, id) else w;
      var data := Project(r.table.columns, fields.value);
      if data.None? then None else Some(w1.(open := w1.open[id := AddRow(w1.open[id], ts, fields.value, data.value)]))
  }

  function AddRow(r: OpenRegion, ts: U64, fields: Fields, data: seq<Value>): OpenRegion {
    r.(table := AddRowSize(WriteRow(r.table, ts, data), 8 + FixedBytes(fields), TextBytes(fields)))
  }

  function HandleCreate(p: Parsers, w: Worker, id: nat, json: string): Worker {
    if (id in w.open && id in w.closed) || p.attrs(json).None? then w
    else w.(closed := w.closed[id := p.attrs(json).value])
  }

  function HandleOpen(w: Worker, id: nat): Option<Worker> {
    if id in w.open || id !in w.closed then Some(w)
    else
      match w.closed[id].columnNames
      case Unparsable => None
      case NotAnObject => Some(w)
      case Columns(schema) =>
        Some(w.(open := w.open[id := OpenRegion(w.closed[id], NewTable(schema))], closed := w.closed - {id}))
  }

  function HandleClose(w: Worker, id: nat): Worker {
    if id !in w.open then w
    else
      var w1 := if w.open[id].table.rows != [] then SendFlush(w, id) else w;
      w1.(open := w1.open - {id}, closed := w1.closed[id := w1.open[id].attrs])
  }

  function HandleDrop(w: Worker, id: nat): Worker {
    if id in w.open || id !in w.closed then w
    else w.(dropping := w.dropping[id := w.closed[id]], closed := w.closed - {id})
  }

  function HandleStatus(p: Parsers, w: Worker, id: nat, request: Request): Option<Worker>
    requires !request.Write?
  {
    match request
    case Create(_, _, attrs) => Some(HandleCreate(p, w, id, attrs))
    case Open => HandleOpen(w, id)
    case Close => Some(HandleClose(w, id))
    case Drop => Some(HandleDrop(w, id))
  }

  function HandleSignal(p: Parsers, w: Worker, signal: Signal): Option<Worker> {
    var id, request := signal.regionID, signal.request;
    if id !in w.open then
      if !request.Write? && (id in w.closed || request.Create?) then HandleStatus(p, w, id, request) else Some(w)
    else if request.Write? then HandleWrite(p, w, id, request.timestamp, request.jsonData)
    else HandleStatus(p, w, id, request)
  }

  function Run(p: Parsers, w: Worker, signals: seq<Signal>): Option<Worker>
    decreases |signals|
  {
    if signals == [] then Some(w)
    else
      var w' := HandleSignal(p, w, signals[0]);
      if w'.None? then None else Run(p, w'.value, signals[1..])
  }

  const IDLE := Worker(map[], map[], map[], [])

  // ----- a store without memtables: every accepted row goes straight to one log

  datatype Live = Live(attrs: Attrs, columns: Schema)

  datatype Logged = Logged(regionID: nat, row: Row)

  datatype Store = Store(open: map<nat, Live>, closed: map<nat, Attrs>, dropping: map<nat, Attrs>, log: seq<Logged>)

  function Plain(p: Parsers, s: Store, signal: Signal): Option<Store> {
    var id := signal.regionID;
    match signal.request
    case Write(ts, json) =>
      if id !in s.open then Some(s)
      else
        var fields := p.fields(json);
        if fields.None? || RowSize(fields.value) > s.open[id].attrs.threshold then Some(s)
        else
          var data := Project(s.open[id].columns, fields.value);
          if data.None? then None else Some(s.(log := s.log + [Logged(id, Row(ts, data.value))]))
    case Create(_, _, json) =>
      if (id in s.open && id in s.closed) || p.attrs(json).None? then Some(s)
      else Some(s.(closed := s.closed[id := p.attrs(json).value]))
    case Open =>
      if id in s.open || id !in s.closed || s.closed[id].columnNames.NotAnObject? then Some(s)
      else if s.closed[id].columnNames.Unparsable? then None
      else Some(s.(open := s.open[id := Live(s.closed[id], s.closed[id].columnNames.schema)], closed := s.closed - {id}))
    case Close =>
      if id !in s.open then Some(s)
      else Some(s.(open := s.open - {id}, closed := s.closed[id := s.open[id].attrs]))
    case Drop =>
      if id in s.open || id !in s.closed then Some(s)
      else Some(s.(closed := s.closed - {id}, dropping := s.dropping[id := s.closed[id]]))
  }

  function PlainRun(p: Parsers, s: Store, signals: seq<Signal>): Option<Store>
    decreases |signals|
  {
    if signals == [] then Some(s)
    else
      var s' := Plain(p, s, signals[0]);
      if s'.None? then None else PlainRun(p, s'.value, signals[1..])
  }

  const NOTHING := Store(map[], map[], map[], [])

  /** The plain store takes a row exactly when the region is open, the fields parse, are not too large and name every
      column; the row then holds for each column the value of its field. A column without field is the exception. */
  lemma PlainWrite(p: Parsers, s: Store, id: nat, request: nat, ts: U64, json: string)
    requires id in s.open && p.fields(json).Some? && RowSize(p.fields(json).value) <= s.open[id].attrs.threshold
    ensures var s' := Plain(p, s, Signal(id, request, Write(ts, json)));
            var columns, fields := s.open[id].columns, p.fields(json).value;
            && (s'.Some? <==> forall i :: 0 <= i < |columns| ==> Named(fields, columns[i].name))
            && (s'.Some? ==> exists data :: InColumns(columns, fields, data)
                                            && s'.value == s.(log := s.log + [Logged(id, Row(ts, data))]))
  {
    hide Project, Named, InColumns;
    var data := Project(s.open[id].columns, p.fields(json).value);
    ProjectMeaning(s.open[id].columns, p.fields(json).value, if data.Some? then data.value else []);
  }

  /** Every other write leaves the plain store as it is. */
  lemma PlainRefuses(p: Parsers, s: Store, id: nat, request: nat, ts: U64, json: string)
    requires id !in s.open || p.fields(json).None? || RowSize(p.fields(json).value) > s.open[id].attrs.threshold
    ensures Plain(p, s, Signal(id, request, Write(ts, json))) == Some(s)
  {
    hide FixedBytes, TextBytes;
  }

  // ----- row conservation

  function FlushedRows(flushed: seq<Flush>, id: nat): seq<Row> {
    if flushed == [] then []
    else
      var n := |flushed| - 1;
      FlushedRows(flushed[..n], id) + if flushed[n].regionID == id then flushed[n].table.rows else []
  }

  /** A region's rows: those of its flush signals, oldest first, then those of its open memtable. */
  function RowsOf(w: Worker, id: nat): seq<Row> {
    FlushedRows(w.flushed, id) + if id in w.open then w.open[id].table.rows else []
  }

  function LogOf(log: seq<Logged>, id: nat): seq<Row> {
    if log == [] then []
    else
      var n := |log| - 1;
      LogOf(log[..n], id) + if log[n].regionID == id then [log[n].row] else []
  }

  ghost predicate SameRegions(w: Worker, s: Store) {
    && w.open.Keys == s.open.Keys
    && (forall k :: k in w.open ==> s.open[k] == Live(w.open[k].attrs, w.open[k].table.columns))
    && w.closed == s.closed && w.dropping == s.dropping
  }

  ghost predicate Refines(w: Worker, s: Store) {
    SameRegions(w, s) && forall k: nat :: RowsOf(w, k) == LogOf(s.log, k)
  }

  lemma FlushKeepsRows(w: Worker, id: nat, k: nat)
    requires id in w.open
    ensures RowsOf(SendFlush(w, id), k) == RowsOf(w, k)
  {
    var f := SendFlush(w, id).flushed;
    assert f[..|f| - 1] == w.flushed;
  }

  lemma WriteAddsRow(p: Parsers, w: Worker, id: nat, ts: U64, json: string, log: seq<Logged>, k: nat)
    requires id in w.open && p.fields(json).Some? && RowSize(p.fields(json).value) <= w.open[id].attrs.threshold
    requires Project(w.open[id].table.columns, p.fields(json).value).Some?
    requires RowsOf(w, k) == LogOf(log, k)
    ensures RowsOf(HandleWrite(p, w, id, ts, json).value, k)
            == LogOf(log + [Logged(id, Row(ts, Project(w.open[id].table.columns, p.fields(json).value).value))], k)
  {
    hide FixedBytes, TextBytes, Project;
    FlushKeepsRows(w, id, k);
    var fields := p.fields(json).value;
    var data := Project(w.open[id].table.columns, fields).value;
    var w1 := if Usage(w.open[id].table) + RowSize(fields) > w.open[id].attrs.threshold then SendFlush(w, id) else w;
    var log' := log + [Logged(id, Row(ts, data))];
    assert log'[..|log|] == log;
    AppendRow(w1, id, ts, fields, data, k);
  }

  lemma AppendRow(w: Worker, id: nat, ts: U64, fields: Fields, data: seq<Value>, k: nat)
    requires id in w.open
    ensures RowsOf(w.(open := w.open[id := AddRow(w.open[id], ts, fields, data)]), k)
            == RowsOf(w, k) + if k == id then [Row(ts, data)] else []
  {
    hide FlushedRows, FixedBytes, TextBytes;
    if k == id {
      SeqAssoc(FlushedRows(w.flushed, k), w.open[id].table.rows, [Row(ts, data)]);
    }
  }

  /** Memtables, flushes and their thresholds are invisible: one signal does to the worker what it does to the log. */
  lemma StepRefines(p: Parsers, w: Worker, s: Store, signal: Signal)
    requires Refines(w, s)
    ensures HandleSignal(p, w, signal).Some? <==> Plain(p, s, signal).Some?
    ensures HandleSignal(p, w, signal).Some? ==> Refines(HandleSignal(p, w, signal).value, Plain(p, s, signal).value)
  {
    hide HandleSignal, Plain, SameRegions, RowsOf, LogOf;
    var w', s' := HandleSignal(p, w, signal), Plain(p, s, signal);
    StepRegions(p, w, s, signal);
    if w'.Some? {
      forall k: nat
        ensures RowsOf(w'.value, k) == LogOf(s'.value.log, k)
      {
        StepRows(p, w, s, signal, k);
      }
    }
  }

  lemma StepRegions(p: Parsers, w: Worker, s: Store, signal: Signal)
    requires SameRegions(w, s)
    ensures HandleSignal(p, w, signal).Some? <==> Plain(p, s, signal).Some?
    ensures HandleSignal(p, w, signal).Some? ==> SameRegions(HandleSignal(p, w, signal).value, Plain(p, s, signal).value)
  {
    hide FixedBytes, TextBytes, Project, BaseSize;
    match signal.request
    case Write(_, _) =>
    case Create(_, _, _) =>
    case Open =>
    case Close =>
    case Drop =>
  }

  lemma StepRows(p: Parsers, w: Worker, s: Store, signal: Signal, k: nat)
    requires SameRegions(w, s) && RowsOf(w, k) == LogOf(s.log, k)
    requires HandleSignal(p, w, signal).Some? && Plain(p, s, signal).Some?
    ensures RowsOf(HandleSignal(p, w, signal).value, k) == LogOf(Plain(p, s, signal).value.log, k)
  {
    hide LogOf, FlushedRows, FixedBytes, TextBytes, Project;
    var id := signal.regionID;
    if id in w.open {
      FlushKeepsRows(w, id, k);
      match signal.request {
        case Write(ts, json) =>
          var fields := p.fields(json);
          if fields.Some? && RowSize(fields.value) <= w.open[id].attrs.threshold {
            WriteAddsRow(p, w, id, ts, json, s.log, k);
          }
        case _ =>
      }
    }
  }

  /** Row conservation over every run: the worker stops exactly when the plain store does, and otherwise each region's
      flushed rows followed by its open memtable's rows are the region's accepted rows, in order. */
  lemma {:induction false} RunRefines(p: Parsers, w: Worker, s: Store, signals: seq<Signal>)
    requires Refines(w, s)
    ensures Run(p, w, signals).Some? <==> PlainRun(p, s, signals).Some?
    ensures Run(p, w, signals).Some? ==> Refines(Run(p, w, signals).value, PlainRun(p, s, signals).value)
    decreases |signals|
  {
    hide HandleSignal, Plain, Refines;
    if signals != [] {
      StepRefines(p, w, s, signals[0]);
      if HandleSignal(p, w, signals[0]).Some? {
        RunRefines(p, HandleSignal(p, w, signals[0]).value, Plain(p, s, signals[0]).value, signals[1..]);
      }
    }
  }

  // ----- where a stored value comes from

  /** The row is what a write request says: its time stamp, and for each column the value the request gives for the name
      of that column. */
  ghost predicate FromRequest(p: Parsers, signal: Signal, id: nat, columns: seq<Column>, row: Row) {
    && signal.regionID == id && signal.request.Write? && signal.request.timestamp == row.timestamp
    && p.fields(signal.request.jsonData).Some?
    && InColumns(columns, p.fields(signal.request.jsonData).value, row.data)
  }

  ghost predicate Requested(p: Parsers, signals: seq<Signal>, id: nat, columns: seq<Column>, row: Row) {
    exists i :: 0 <= i < |signals| && FromRequest(p, signals[i], id, columns, row)
  }

  ghost predicate TableRequested(p: Parsers, signals: seq<Signal>, id: nat, t: Table) {
    forall i :: 0 <= i < |t.rows| ==> Requested(p, signals, id, t.columns, t.rows[i])
  }

  /** Every row of every table, open or flushed, is what some write request for its region says. */
  ghost predicate AllRequested(p: Parsers, signals: seq<Signal>, w: Worker) {
    && (forall k :: k in w.open ==> TableRequested(p, signals, k, w.open[k].table))
    && (forall i :: 0 <= i < |w.flushed| ==> TableRequested(p, signals, w.flushed[i].regionID, w.flushed[i].table))
  }

  lemma FlushRequested(p: Parsers, signals: seq<Signal>, w: Worker, id: nat)
    requires AllRequested(p, signals, w) && id in w.open
    ensures AllRequested(p, signals, SendFlush(w, id))
  {
    hide Requested, BaseSize;
  }

  lemma WriteRequested(p: Parsers, signals: seq<Signal>, w: Worker, i: nat)
    requires AllRequested(p, signals, w) && i < |signals| && signals[i].request.Write? && signals[i].regionID in w.open
    requires p.fields(signals[i].request.jsonData).Some?
    requires Project(w.open[signals[i].regionID].table.columns, p.fields(signals[i].request.jsonData).value).Some?
    ensures var id, ts, fields := signals[i].regionID, signals[i].request.timestamp, p.fields(signals[i].request.jsonData).value;
            var data := Project(w.open[id].table.columns, fields).value;
            AllRequested(p, signals, w.(open := w.open[id := AddRow(w.open[id], ts, fields, data)]))
  {
    hide Project, InColumns, FixedBytes, TextBytes;
    var id, ts, fields := signals[i].regionID, signals[i].request.timestamp, p.fields(signals[i].request.jsonData).value;
    var t := w.open[id].table;
    var data := Project(t.columns, fields).value;
    ProjectMeaning(t.columns, fields, data);
    assert FromRequest(p, signals[i], id, t.columns, Row(ts, data));
    assert Requested(p, signals, id, t.columns, Row(ts, data));
    hide Requested;
    assert TableRequested(p, signals, id, t);
    assert TableRequested(p, signals, id, AddRow(w.open[id], ts, fields, data).table);
  }

  lemma StepRequested(p: Parsers, signals: seq<Signal>, w: Worker, i: nat)
    requires AllRequested(p, signals, w) && i < |signals| && HandleSignal(p, w, signals[i]).Some?
    ensures AllRequested(p, signals, HandleSignal(p, w, signals[i]).value)
  {
    hide Requested, Project, FixedBytes, TextBytes, BaseSize;
    var signal := signals[i];
    var id := signal.regionID;
    if id in w.open {
      FlushRequested(p, signals, w, id);
      if signal.request.Write? {
        var fields, r := p.fields(signal.request.jsonData), w.open[id];
        if fields.Some? && RowSize(fields.value) <= r.attrs.threshold {
          WriteRequested(p, signals, if Usage(r.table) + RowSize(fields.value) > r.attrs.threshold then SendFlush(w, id) else w, i);
        }
      }
    }
  }

  /** After any run every stored value, flushed or not, is the one some write request gave for its column. */
  lemma {:induction false} RunRequested(p: Parsers, signals: seq<Signal>, w: Worker, n: nat)
    requires n <= |signals| && AllRequested(p, signals, w) && Run(p, w, signals[n..]).Some?
    ensures AllRequested(p, signals, Run(p, w, signals[n..]).value)
    decreases |signals| - n
  {
    hide HandleSignal, AllRequested;
    if n < |signals| {
      StepRequested(p, signals, w, n);
      assert signals[n..][1..] == signals[n + 1..];
      RunRequested(p, signals, HandleSignal(p, w, signals[n]).value, n + 1);
    }
  }

  // ----- capacity and time bounds

  ghost predicate RegionInv(r: OpenRegion) {
    && TableInv(r.table)
    && r.attrs.columnNames == Columns(r.table.columns)
    && Usage(r.table) <= r.attrs.threshold + BaseSize(r.table.columns)
  }

  ghost predicate FlushInv(f: Flush) {
    TableInv(f.table) && f.startTime == f.table.minTime && f.endTime == f.table.maxTime
  }

  ghost predicate WorkerInv(w: Worker) {
    && (forall k :: k in w.open ==> RegionInv(w.open[k]))
    && (forall i :: 0 <= i < |w.flushed| ==> FlushInv(w.flushed[i]))
  }

  lemma AddRowInv(r: OpenRegion, ts: U64, fields: Fields)
    requires RegionInv(r) && Project(r.table.columns, fields).Some?
    requires Usage(r.table) + RowSize(fields) <= r.attrs.threshold + BaseSize(r.table.columns)
    ensures RegionInv(AddRow(r, ts, fields, Project(r.table.columns, fields).value))
  {
    hide TableInv, FixedBytes, TextBytes, Project, BaseSize;
    WriteKeepsInv(r.table, ts, fields);
  }

  lemma FlushKeepsInv(w: Worker, id: nat)
    requires WorkerInv(w) && id in w.open
    ensures WorkerInv(SendFlush(w, id))
  {
    hide TableInv;
    NewTableInv(w.open[id].table.columns);
  }

  /** The bounds hold after every signal; a run of any length therefore keeps them. */
  lemma StepKeepsInv(p: Parsers, w: Worker, signal: Signal)
    requires WorkerInv(w) && HandleSignal(p, w, signal).Some?
    ensures WorkerInv(HandleSignal(p, w, signal).value)
  {
    hide TableInv, FixedBytes, TextBytes, Project, BaseSize;
    var id := signal.regionID;
    if id in w.open {
      FlushKeepsInv(w, id);
      match signal.request {
        case Write(ts, json) =>
          var fields := p.fields(json);
          if fields.Some? && RowSize(fields.value) <= w.open[id].attrs.threshold {
            var w1 := if Usage(w.open[id].table) + RowSize(fields.value) > w.open[id].attrs.threshold
                      then SendFlush(w, id) else w;
            AddRowInv(w1.open[id], ts, fields.value);
          }
        case _ =>
      }
    } else if id in w.closed && w.closed[id].columnNames.Columns? {
      NewTableInv(w.closed[id].columnNames.schema);
    }
  }

  lemma {:induction false} RunKeepsInv(p: Parsers, w: Worker, signals: seq<Signal>)
    requires WorkerInv(w) && Run(p, w, signals).Some?
    ensures WorkerInv(Run(p, w, signals).value)
    decreases |signals|
  {
    hide HandleSignal, WorkerInv;
    if signals != [] {
      StepKeepsInv(p, w, signals[0]);
      RunKeepsInv(p, HandleSignal(p, w, signals[0]).value, signals[1..]);
    }
  }

  /** A row that fits the threshold alone but not behind the rows already there, or the end of a region with rows. */
  predicate Fills(p: Parsers, r: OpenRegion, request: Request) {
    match request
    case Write(_, json) =>
      p.fields(json).Some? && RowSize(p.fields(json).value) <= r.attrs.threshold < Usage(r.table) + RowSize(p.fields(json).value)
    case Close => r.table.rows != []
    case _ => false
  }

  /** Any signal flushes exactly when it fills or ends its region; then it flushes the whole memtable of that region and
      nothing else, a write leaving its own row alone in the new memtable; no other open region ever changes. */
  lemma FlushWhenFull(p: Parsers, w: Worker, signal: Signal)
    requires HandleSignal(p, w, signal).Some?
    ensures var id, w' := signal.regionID, HandleSignal(p, w, signal).value;
            && (w'.flushed != w.flushed <==> id in w.open && Fills(p, w.open[id], signal.request))
            && (w'.flushed != w.flushed ==>
                  var r := w.open[id];
                  && w'.flushed == w.flushed + [Flush(id, r.table.minTime, r.table.maxTime, r.table, r.attrs.sstPath)]
                  && (signal.request.Write? ==>
                        && id in w'.open && |w'.open[id].table.rows| == 1
                        && Usage(w'.open[id].table) == BaseSize(r.table.columns) + RowSize(p.fields(signal.request.jsonData).value)))
            && (forall k :: k != id ==> (k in w'.open <==> k in w.open) && (k in w.open ==> w'.open[k] == w.open[k]))
  {
    hide FixedBytes, TextBytes, Project, BaseSize;
    match signal.request
    case Write(_, _) =>
    case Create(_, _, _) =>
    case Open =>
    case Close =>
    case Drop =>
  }

  /** A write to an empty memtable flushes that empty memtable, with a start time after its end time, exactly when the
      row fits the threshold alone but not together with the column names and types. */
  lemma EmptyFlush(p: Parsers, w: Worker, id: nat, ts: U64, json: string)
    requires WorkerInv(w) && id in w.open && w.open[id].table.rows == []
    requires p.fields(json).Some? && HandleWrite(p, w, id, ts, json).Some?
    ensures var size, r, w' := RowSize(p.fields(json).value), w.open[id], HandleWrite(p, w, id, ts, json).value;
            && (w'.flushed != w.flushed <==> size <= r.attrs.threshold < BaseSize(r.table.columns) + size)
            && (w'.flushed != w.flushed ==>
                  w'.flushed == w.flushed + [Flush(id, MAX_U64, 0, NewTable(r.table.columns), r.attrs.sstPath)])
  {
    hide FixedBytes, TextBytes, Project, BaseSize, TimesExact;
    assert RegionInv(w.open[id]);
  }

  /** CREATE is refused only for an id that is both open and closed: issued while the region is open it succeeds,
      and leaves the id in both maps. */
  lemma CreateWhileOpen(p: Parsers, w: Worker, id: nat, requestID: nat, name: string, expr: string, json: string)
    requires id in w.open && p.attrs(json).Some?
    ensures var w' := HandleSignal(p, w, Signal(id, requestID, Create(name, expr, json)));
            && w'.Some? && id in w'.value.open && id in w'.value.closed
            && w'.value.closed == if id in w.closed then w.closed else w.closed[id := p.attrs(json).value]
  {
  }

  ghost predicate Apart(w: Worker) {
    w.open.Keys !! w.closed.Keys
  }

  /** The signal that puts an id into both maps: a CREATE with readable attributes for a region that is open. */
  predicate CreatesOpen(p: Parsers, w: Worker, signal: Signal) {
    signal.request.Create? && signal.regionID in w.open && p.attrs(signal.request.attrs).Some?
  }

  /** No id is open and closed at once after a signal, exactly when the signal does not create an open region. */
  lemma ApartStep(p: Parsers, w: Worker, signal: Signal)
    requires Apart(w) && HandleSignal(p, w, signal).Some?
    ensures Apart(HandleSignal(p, w, signal).value) <==> !CreatesOpen(p, w, signal)
  {
    hide FixedBytes, TextBytes, Project, BaseSize;
    var id, w' := signal.regionID, HandleSignal(p, w, signal).value;
    if CreatesOpen(p, w, signal) {
      assert id in w'.open.Keys && id in w'.closed.Keys;
    }
  }

  /** In no state of the run is an id open and closed at once. */
  ghost predicate StaysApart(p: Parsers, w: Worker, signals: seq<Signal>)
    decreases |signals|
  {
    && Apart(w)
    && (signals != [] && HandleSignal(p, w, signals[0]).Some? ==>
          StaysApart(p, HandleSignal(p, w, signals[0]).value, signals[1..]))
  }

  /** No signal of the run, up to one that ends the worker, creates a region that is open when the signal arrives. */
  ghost predicate CreatesNoOpen(p: Parsers, w: Worker, signals: seq<Signal>)
    decreases |signals|
  {
    signals != [] && HandleSignal(p, w, signals[0]).Some? ==>
      !CreatesOpen(p, w, signals[0]) && CreatesNoOpen(p, HandleSignal(p, w, signals[0]).value, signals[1..])
  }

  /** Over a whole run: the two maps stay apart exactly when no open region is created. */
  lemma {:induction false} RunApartIff(p: Parsers, w: Worker, signals: seq<Signal>)
    requires Apart(w)
    ensures StaysApart(p, w, signals) <==> CreatesNoOpen(p, w, signals)
    decreases |signals|
  {
    hide HandleSignal, Apart, CreatesOpen;
    if signals != [] && HandleSignal(p, w, signals[0]).Some? {
      ApartStep(p, w, signals[0]);
      if !CreatesOpen(p, w, signals[0]) {
        RunApartIff(p, HandleSignal(p, w, signals[0]).value, signals[1..]);
      }
    }
  }

  // ----- one region among many

  /** What a store holds for one region. */
  ghost predicate SameAt(s: Store, t: Store, k: nat) {
    && (k in s.open <==> k in t.open) && (k in s.open ==> s.open[k] == t.open[k])
    && (k in s.closed <==> k in t.closed) && (k in s.closed ==> s.closed[k] == t.closed[k])
    && (k in s.dropping <==> k in t.dropping) && (k in s.dropping ==> s.dropping[k] == t.dropping[k])
    && LogOf(s.log, k) == LogOf(t.log, k)
  }

  lemma LogOne(log: seq<Logged>, x: Logged, k: nat)
    ensures LogOf(log + [x], k) == LogOf(log, k) + if x.regionID == k then [x.row] else []
  {
    assert (log + [x])[..|log|] == log;
  }

  lemma StepAt(p: Parsers, s: Store, t: Store, signal: Signal, k: nat)
    requires SameAt(s, t, k) && Plain(p, s, signal).Some?
    ensures signal.regionID == k ==>
              Plain(p, t, signal).Some? && SameAt(Plain(p, s, signal).value, Plain(p, t, signal).value, k)
    ensures signal.regionID != k ==> SameAt(Plain(p, s, signal).value, t, k)
  {
    hide FixedBytes, TextBytes, Project, LogOf;
    match signal.request
    case Write(ts, json) =>
      var id, fields := signal.regionID, p.fields(json);
      if id in s.open && fields.Some? && RowSize(fields.value) <= s.open[id].attrs.threshold {
        var x := Logged(id, Row(ts, Project(s.open[id].columns, fields.value).value));
        LogOne(s.log, x, k);
        LogOne(t.log, x, k);
      }
    case Create(_, _, _) =>
    case Open =>
    case Close =>
    case Drop =>
  }

  /** Regions do not disturb each other: a region's state and log after a run are those its own signals produce alone. */
  lemma {:induction false} Isolation(p: Parsers, s: Store, t: Store, signals: seq<Signal>, k: nat)
    requires SameAt(s, t, k) && PlainRun(p, s, signals).Some?
    ensures PlainRun(p, t, ForRegion(signals, k)).Some?
    ensures SameAt(PlainRun(p, s, signals).value, PlainRun(p, t, ForRegion(signals, k)).value, k)
    decreases |signals|
  {
    hide Plain, SameAt;
    if signals != [] {
      StepAt(p, s, t, signals[0], k);
      var s' := Plain(p, s, signals[0]).value;
      var rest := ForRegion(signals[1..], k);
      if signals[0].regionID == k {
        Isolation(p, s', Plain(p, t, signals[0]).value, signals[1..], k);
        assert ForRegion(signals, k)[0] == signals[0] && ForRegion(signals, k)[1..] == rest;
      } else {
        Isolation(p, s', t, signals[1..], k);
        assert ForRegion(signals, k) == rest;
      }
    }
  }

  /** From the requests that arrive at the server to the rows held by a worker, in every interleaving of server, engine
      and workers: a region's rows are those that a prefix of the region's own accepted requests puts in a plain log. */
  lemma RowsEndToEnd(stoull: string -> U64, requests: seq<Dict>, n: nat, steps: seq<MitoEngines.Step>, p: Parsers,
                     region: nat, w: nat)
    requires 0 < n && MitoEngines.Run(n, steps).sent <= Accepted(stoull, [], requests)
    requires MitoEngines.Serves(w, region, n) && Run(p, IDLE, MitoEngines.Run(n, steps).received[w]).Some?
    ensures var s := MitoEngines.Run(n, steps);
            var mine := ForRegion(s.received[w], region);
            && mine <= ForRegion(s.sent, region)
            && PlainRun(p, NOTHING, mine).Some?
            && RowsOf(Run(p, IDLE, s.received[w]).value, region) == LogOf(PlainRun(p, NOTHING, mine).value.log, region)
            && forall v :: 0 <= v < n && v != w ==> ForRegion(s.received[v], region) == []
  {
    hide Plain, HandleSignal, MitoEngines.Serves;
    var s := MitoEngines.Run(n, steps);
    MitoEngines.WorkerServes(region, w, n);
    forall v | 0 <= v < n
      ensures ForRegion(s.received[v], region) <= (if w == v then ForRegion(s.sent, region) else [])
    {
      MitoEngines.WorkerServes(region, v, n);
      MitoEngines.EndToEnd(stoull, requests, n, steps, v, region);
    }
    assert Refines(IDLE, NOTHING);
    RunRefines(p, IDLE, NOTHING, s.received[w]);
    Isolation(p, NOTHING, NOTHING, s.received[w], region);
  }
}

/** The worker object, its regions and their memtables. */
module RegionWorkers {
  import opened Bytes
  import opened Wrappers
  import opened Tables
  import opened Memtables
  import opened Requests
  import opened WorkerRuns

  class Region {
    const regionID: nat
    const attrs: Attrs
    var memtable: Memtable?

    constructor (regionID: nat, attrs: Attrs)
      ensures this.regionID == regionID && this.attrs == attrs && memtable == null
    {
      this.regionID, this.attrs, memtable := regionID, attrs, null;
    }

    /** An open region has a memtable of its own that still accepts rows. */
    ghost predicate Open(id: nat)
      reads this, memtable
    {
      && regionID == id
      && memtable != null && memtable.Valid() && memtable.mut && memtable.owner == id
      && attrs.columnNames == Columns(memtable.columns)
    }

    ghost predicate Closed(id: nat)
      reads this
    {
      regionID == id && memtable == null
    }
  }

  datatype FlushSignal = FlushSignal(regionID: nat, startTime: U64, endTime: U64, memtable: Memtable, sstPath: string)

  /** Open regions have distinct memtables: each knows its region. */
  ghost predicate AllOpen(regions: map<nat, Region>)
    reads regions.Values
    reads set k | k in regions :: regions[k].memtable
  {
    forall k | k in regions :: regions[k].Open(k)
  }

  ghost function Opened(regions: map<nat, Region>): (r: map<nat, OpenRegion>)
    requires AllOpen(regions)
    reads regions.Values
    reads set k | k in regions :: regions[k].memtable
    ensures r.Keys == regions.Keys
  {
    map k | k in regions :: OpenRegion(regions[k].attrs, regions[k].memtable.View())
  }

  ghost predicate AllClosed(regions: map<nat, Region>)
    reads regions.Values
  {
    forall k | k in regions :: regions[k].Closed(k)
  }

  ghost function Attributes(regions: map<nat, Region>): (r: map<nat, Attrs>)
    ensures r.Keys == regions.Keys
    ensures forall k :: k in regions ==> r[k] == regions[k].attrs
  {
    map k | k in regions :: regions[k].attrs
  }

  /** A flushed memtable is frozen, so no open region shares it. */
  ghost predicate AllFrozen(signals: seq<FlushSignal>)
    reads set f | f in signals :: f.memtable
  {
    forall f | f in signals :: f.memtable.Valid() && !f.memtable.mut
  }

  ghost function Flushed(signals: seq<FlushSignal>): (r: seq<Flush>)
    reads set f | f in signals :: f.memtable
  {
    if signals == [] then []
    else
      var n := |signals| - 1;
      Flushed(signals[..n])
      + [Flush(signals[n].regionID, signals[n].startTime, signals[n].endTime, signals[n].memtable.View(), signals[n].sstPath)]
  }

  /** A region under an id of one of the worker's maps. */
  datatype Slot = Slot(regions: map<nat, Region>, id: nat, region: Region)

  /** What opening, replacing or changing one open region does to all of them. */
  twostate lemma OneOpened(s: Slot)
    requires old(AllOpen(s.regions)) && s.region.Open(s.id)
    requires forall k | k in s.regions && k != s.id ::
               unchanged(s.regions[k]) && unchanged(old(s.regions[k].memtable))
    ensures AllOpen(s.regions[s.id := s.region])
    ensures Opened(s.regions[s.id := s.region])
         == old(Opened(s.regions))[s.id := OpenRegion(s.region.attrs, s.region.memtable.View())]
    ensures s.id in s.regions && s.regions[s.id] == s.region ==> s.regions[s.id := s.region] == s.regions
  {
  }

  twostate lemma OneRemoved(s: Slot)
    requires old(AllOpen(s.regions))
    requires forall k | k in s.regions && k != s.id ::
               unchanged(s.regions[k]) && unchanged(old(s.regions[k].memtable))
    ensures AllOpen(s.regions - {s.id})
    ensures Opened(s.regions - {s.id}) == old(Opened(s.regions)) - {s.id}
  {
  }

  twostate lemma OneClosed(s: Slot)
    requires old(AllClosed(s.regions)) && s.region.Closed(s.id)
    requires forall k | k in s.regions && k != s.id :: unchanged(s.regions[k])
    ensures AllClosed(s.regions[s.id := s.region])
    ensures Attributes(s.regions[s.id := s.region]) == Attributes(s.regions)[s.id := s.region.attrs]
  {
  }

  twostate lemma OneForgotten(s: Slot)
    requires old(AllClosed(s.regions))
    requires forall k | k in s.regions && k != s.id :: unchanged(s.regions[k])
    ensures AllClosed(s.regions - {s.id})
    ensures Attributes(s.regions - {s.id}) == Attributes(s.regions) - {s.id}
  {
  }

  lemma OneMoreClosed(closed: map<nat, Region>, id: nat, r: Region)
    requires AllClosed(closed) && r.Closed(id)
    ensures AllClosed(closed[id := r])
    ensures Attributes(closed[id := r]) == Attributes(closed)[id := r.attrs]
  {
  }

  lemma ClosedDistinct(closed: map<nat, Region>, id: nat)
    requires AllClosed(closed) && id in closed
    ensures closed[id].Closed(id)
    ensures forall k | k in closed && k != id :: closed[k] != closed[id]
  {
    forall k | k in closed && k != id
      ensures closed[k] != closed[id]
    {
      assert closed[k].Closed(k) && closed[id].Closed(id);
    }
  }

  lemma OpenDistinct(regions: map<nat, Region>, id: nat)
    requires AllOpen(regions) && id in regions
    ensures forall k | k in regions && k != id ::
              regions[k] != regions[id] && regions[k].memtable != null && regions[k].memtable != regions[id].memtable
  {
    forall k | k in regions && k != id
      ensures regions[k] != regions[id] && regions[k].memtable != null && regions[k].memtable != regions[id].memtable
    {
      assert regions[k].Open(k);
    }
  }

  lemma OpenOne(regions: map<nat, Region>, id: nat)
    requires AllOpen(regions) && id in regions
    ensures regions[id].Open(id)
    ensures id in Opened(regions) && Opened(regions)[id] == OpenRegion(regions[id].attrs, regions[id].memtable.View())
  {
  }

  twostate lemma StillFrozen(signals: seq<FlushSignal>)
    requires old(AllFrozen(signals)) && forall f | f in signals :: unchanged(f.memtable)
    ensures AllFrozen(signals) && Flushed(signals) == old(Flushed(signals))
  {
  }

  lemma OneFlushed(signals: seq<FlushSignal>, f: FlushSignal)
    requires AllFrozen(signals) && f.memtable.Valid() && !f.memtable.mut
    ensures AllFrozen(signals + [f])
    ensures Flushed(signals + [f])
         == Flushed(signals) + [Flush(f.regionID, f.startTime, f.endTime, f.memtable.View(), f.sstPath)]
  {
    assert (signals + [f])[..|signals|] == signals;
  }

  lemma FrozenDistinct(signals: seq<FlushSignal>, m: Memtable)
    requires AllFrozen(signals) && m.mut
    ensures forall f | f in signals :: f.memtable != m
  {
  }

  lemma OpenNotClosed(regions: map<nat, Region>, r: Region)
    requires AllOpen(regions) && r.memtable == null
    ensures forall k | k in regions :: regions[k] != r && regions[k].memtable != null
  {
    forall k | k in regions
      ensures regions[k] != r && regions[k].memtable != null
    {
      assert regions[k].Open(k);
    }
  }

  lemma NotClosed(closed: map<nat, Region>, r: Region)
    requires AllClosed(closed) && r.memtable != null
    ensures r !in closed.Values
  {
  }

  class RegionWorker {
    const parsers: Parsers
    var regions: map<nat, Region>
    var closedRegions: map<nat, Region>
    var dropingRegions: map<nat, Region>
    var flusherPipe: seq<FlushSignal>     // everything put on the pipe to the flusher, oldest first

    ghost predicate Valid()
      reads this, regions.Values, closedRegions.Values
      reads set k | k in regions :: regions[k].memtable
      reads set f | f in flusherPipe :: f.memtable
    {
      AllOpen(regions) && AllClosed(closedRegions) && AllFrozen(flusherPipe)
    }

    /** The worker as a value. */
    ghost function View(): Worker
      requires Valid()
      reads this, regions.Values, closedRegions.Values
      reads set k | k in regions :: regions[k].memtable
      reads set f | f in flusherPipe :: f.memtable
    {
      Worker(Opened(regions), Attributes(closedRegions), Attributes(dropingRegions), Flushed(flusherPipe))
    }

    constructor (parsers: Parsers)
      ensures Valid() && View() == IDLE && this.parsers == parsers
    {
      this.parsers := parsers;
      regions, closedRegions, dropingRegions, flusherPipe := map[], map[], map[], [];
    }

    method SendFlushSignal(regionID: nat)
      requires Valid() && regionID in regions
      modifies this`flusherPipe, regions[regionID], regions[regionID].memtable
      ensures Valid() && View() == SendFlush(old(View()), regionID)
      ensures fresh(regions[regionID].memtable)
      ensures |flusherPipe| == |old(flusherPipe)| + 1 && old(flusherPipe) <= flusherPipe
    {
      hide AllOpen, Opened, AllClosed, Attributes, AllFrozen, Flushed, NewTable;
      OpenDistinct(regions, regionID);
      OpenOne(regions, regionID);
      NotClosed(closedRegions, regions[regionID]);
      var region := regions[regionID];
      var memtable := region.memtable;
      FrozenDistinct(flusherPipe, memtable);
      memtable.Freeze();
      var newMemtable := new Memtable(memtable.columns, regionID);
      region.memtable := newMemtable;
      var signal := FlushSignal(regionID, memtable.minTime, memtable.maxTime, memtable, region.attrs.sstPath);
      flusherPipe := flusherPipe + [signal];
      assert AllClosed(closedRegions);
      OneOpened(Slot(regions, regionID, region));
      StillFrozen(old(flusherPipe));
      OneFlushed(old(flusherPipe), signal);
    }

    /** `checkRegionMemUsage` */
    function CheckRegionMemUsage(regionID: nat): (usage: nat)
      requires regionID in regions && regions[regionID].memtable != null
      reads this, regions[regionID], regions[regionID].memtable
      ensures usage == Usage(regions[regionID].memtable.View())
    {
      regions[regionID].memtable.currentCapacity + regions[regionID].memtable.varDataSize
    }

    /** `handleWrite`; false when an exception leaves the worker. */
    method HandleWrite(regionID: nat, ts: U64, json: string) returns (alive: bool)
      requires Valid() && regionID in regions
      modifies this`flusherPipe, regions[regionID], regions[regionID].memtable
      ensures alive == WorkerRuns.HandleWrite(parsers, old(View()), regionID, ts, json).Some?
      ensures alive ==> Valid() && View() == WorkerRuns.HandleWrite(parsers, old(View()), regionID, ts, json).value
      ensures old(flusherPipe) <= flusherPipe
    {
      hide AllOpen, Opened, AllClosed, AllFrozen, Flushed, Project, FixedBytes, TextBytes, BaseSize;
      OpenOne(regions, regionID);
      var fields := parsers.fields(json);
      if fields.None? {
        return true;
      }
      var fixedSize, varSize := regions[regionID].memtable.CalRowSize(fields.value);
      StillFrozen(flusherPipe);
      if fixedSize + varSize > regions[regionID].attrs.threshold {
        return true;
      }
      if CheckRegionMemUsage(regionID) + fixedSize + varSize > regions[regionID].attrs.threshold {
        SendFlushSignal(regionID);
      }
      alive := WriteToMemtable(regionID, ts, fields.value, fixedSize, varSize);
    }

    /** The two memtable calls that end `handleWrite`. */
    method WriteToMemtable(regionID: nat, ts: U64, fields: Fields, fixedSize: nat, varSize: nat) returns (alive: bool)
      requires Valid() && regionID in regions
      requires fixedSize == 8 + FixedBytes(fields) && varSize == TextBytes(fields)
      modifies regions[regionID].memtable
      ensures alive == Project(old(View()).open[regionID].table.columns, fields).Some?
      ensures alive ==> Valid()
      ensures alive ==>
        var data := Project(old(View()).open[regionID].table.columns, fields).value;
        View() == old(View()).(open := old(View()).open[regionID := AddRow(old(View()).open[regionID], ts, fields, data)])
    {
      hide AllOpen, Opened, AllClosed, AllFrozen, Flushed, Project, FixedBytes, TextBytes;
      OpenDistinct(regions, regionID);
      OpenOne(regions, regionID);
      NotClosed(closedRegions, regions[regionID]);
      FrozenDistinct(flusherPipe, regions[regionID].memtable);
      var outcome := regions[regionID].memtable.Write(ts, fields);
      if !outcome.Written? {
        return false;
      }
      regions[regionID].memtable.AddRowSize(fixedSize, varSize);
      OneOpened(Slot(regions, regionID, regions[regionID]));
      StillFrozen(flusherPipe);
      alive := true;
    }

    // ----- `handleStatus`, branch by branch

    method CreateRegion(regionID: nat, json: string)
      requires Valid()
      modifies this`closedRegions
      ensures Valid() && View() == HandleCreate(parsers, old(View()), regionID, json)
    {
      hide AllOpen, Opened, AllClosed, Attributes, AllFrozen, Flushed;
      if regionID in regions && regionID in closedRegions {
        return;
      }
      var attrs := parsers.attrs(json);
      if attrs.None? {
        return;
      }
      var newRegion := new Region(regionID, attrs.value);
      closedRegions := closedRegions[regionID := newRegion];
      StillFrozen(flusherPipe);
      OneMoreClosed(old(closedRegions), regionID, newRegion);
    }

    method OpenRegion(regionID: nat) returns (alive: bool)
      requires Valid()
      modifies this`regions, this`closedRegions
      modifies if regionID in closedRegions then {closedRegions[regionID]} else {}
      ensures alive == HandleOpen(old(View()), regionID).Some?
      ensures alive ==> Valid() && View() == HandleOpen(old(View()), regionID).value
    {
      hide AllOpen, Opened, AllClosed, Attributes, AllFrozen, Flushed, NewTable;
      if regionID in regions || regionID !in closedRegions {
        return true;
      }
      ClosedDistinct(closedRegions, regionID);
      var region := closedRegions[regionID];
      match region.attrs.columnNames {
        case Unparsable => return false;
        case NotAnObject => return true;
        case Columns(columns) =>
          OpenNotClosed(regions, region);
          var memtable := new Memtable(columns, regionID);
          region.memtable := memtable;
          regions := regions[regionID := region];
          closedRegions := closedRegions - {regionID};
          OneOpened(Slot(old(regions), regionID, region));
          OneForgotten(Slot(old(closedRegions), regionID, region));
          StillFrozen(flusherPipe);
          alive := true;
      }
    }

    method CloseRegion(regionID: nat)
      requires Valid()
      modifies this`regions, this`closedRegions, this`flusherPipe
      modifies if regionID in regions then {regions[regionID], regions[regionID].memtable} else {}
      ensures Valid() && View() == HandleClose(old(View()), regionID)
      ensures old(flusherPipe) <= flusherPipe
    {
      hide AllOpen, Opened, AllFrozen, Flushed, NewTable;
      if regionID !in regions {
        return;
      }
      OpenOne(regions, regionID);
      var memtable := regions[regionID].memtable;
      if memtable != null && memtable.rowCount > 0 {
        SendFlushSignal(regionID);
      }
      Retire(regionID);
    }

    /** A region leaves the open regions and drops its memtable. */
    method Retire(regionID: nat)
      requires Valid() && regionID in regions
      modifies this`regions, this`closedRegions, regions[regionID]
      ensures Valid()
      ensures View() == old(View()).(open := old(View()).open - {regionID},
                                     closed := old(View()).closed[regionID := old(View()).open[regionID].attrs])
    {
      hide AllOpen, Opened, AllClosed, Attributes, AllFrozen, Flushed;
      OpenDistinct(regions, regionID);
      OpenOne(regions, regionID);
      var region := regions[regionID];
      NotClosed(closedRegions, region);
      region.memtable := null;
      closedRegions := closedRegions[regionID := region];
      regions := regions - {regionID};
      OneRemoved(Slot(old(regions), regionID, region));
      OneClosed(Slot(old(closedRegions), regionID, region));
      StillFrozen(flusherPipe);
    }

    method DropRegion(regionID: nat)
      requires Valid()
      modifies this`closedRegions, this`dropingRegions
      ensures Valid() && View() == HandleDrop(old(View()), regionID)
    {
      hide AllOpen, Opened, AllClosed, AllFrozen, Flushed;
      if regionID in regions || regionID !in closedRegions {
        return;
      }
      var region := closedRegions[regionID];
      dropingRegions := dropingRegions[regionID := region];
      closedRegions := closedRegions - {regionID};
      OneForgotten(Slot(old(closedRegions), regionID, region));
      StillFrozen(flusherPipe);
    }

    /** `handleStatus`; false when an exception leaves the worker. */
    method HandleStatus(request: Request, regionID: nat) returns (alive: bool)
      requires Valid() && !request.Write?
      modifies this`regions, this`closedRegions, this`dropingRegions, this`flusherPipe
      modifies if regionID in regions then {regions[regionID], regions[regionID].memtable} else {}
      modifies if regionID in closedRegions then {closedRegions[regionID]} else {}
      ensures alive == WorkerRuns.HandleStatus(parsers, old(View()), regionID, request).Some?
      ensures alive ==> Valid() && View() == WorkerRuns.HandleStatus(parsers, old(View()), regionID, request).value
      ensures old(flusherPipe) <= flusherPipe
    {
      hide Valid, View;
      alive := true;
      match request
      case Create(_, _, attrs) => CreateRegion(regionID, attrs);
      case Open => alive := OpenRegion(regionID);
      case Close => CloseRegion(regionID);
      case Drop => DropRegion(regionID);
    }

    /** One signal from the engine does what `WorkerRuns.HandleSignal` says, and leaves every flushed memtable alone. */
    method HandleSignal(signal: Signal) returns (alive: bool)
      requires Valid()
      modifies this`regions, this`closedRegions, this`dropingRegions, this`flusherPipe
      modifies if signal.regionID in regions then {regions[signal.regionID], regions[signal.regionID].memtable} else {}
      modifies if signal.regionID in closedRegions then {closedRegions[signal.regionID]} else {}
      ensures alive == WorkerRuns.HandleSignal(parsers, old(View()), signal).Some?
      ensures alive ==> Valid() && View() == WorkerRuns.HandleSignal(parsers, old(View()), signal).value
      ensures old(flusherPipe) <= flusherPipe
      ensures forall f | f in old(flusherPipe) :: unchanged(f.memtable)
    {
      hide AllOpen, Opened, AllClosed, Flushed, HandleOpen, HandleClose, HandleCreate, HandleDrop, WorkerRuns.HandleWrite;
      var regionID, request := signal.regionID, signal.request;
      if regionID !in regions {
        if !request.Write? {
          if regionID in closedRegions {
            alive := HandleStatus(request, regionID);
            return;
          }
          if request.Create? {
            alive := HandleStatus(request, regionID);
            return;
          }
        }
        return true;
      }
      OpenOne(regions, regionID);
      match request
      case Write(timestamp, jsonData) => alive := HandleWrite(regionID, timestamp, jsonData);
      case _ => alive := HandleStatus(request, regionID);
    }
  }
}
