/** What becomes of the regions a worker is told to create, and of the space their memtables are charged with:
    src/dataNode/regionWorker.cpp. */
module RegionLives {
  import opened Bytes
  import opened Wrappers
  import opened Tables
  import opened Requests
  import opened WorkerRuns

  // ----- regions

  /** A CREATE for the region with these attributes. */
  predicate CreatesWith(p: Parsers, signal: Signal, id: nat, attrs: Attrs) {
    signal.regionID == id && signal.request.Create? && p.attrs(signal.request.attrs) == Some(attrs)
  }

  /** A CREATE for some region whose attributes can be read. */
  predicate Creates(p: Parsers, signal: Signal) {
    signal.request.Create? && p.attrs(signal.request.attrs).Some?
  }

  function CreatedIn(p: Parsers, signals: seq<Signal>): set<nat> {
    set i | 0 <= i < |signals| && Creates(p, signals[i]) :: signals[i].regionID
  }

  /** The regions a worker knows: open, closed or dropped. */
  function Held(w: Worker): set<nat> {
    w.open.Keys + w.closed.Keys + w.dropping.Keys
  }

  lemma StepHeld(p: Parsers, w: Worker, signal: Signal)
    requires HandleSignal(p, w, signal).Some?
    ensures Held(HandleSignal(p, w, signal).value) == Held(w) + if Creates(p, signal) then {signal.regionID} else {}
  {
    hide FixedBytes, TextBytes, Project, BaseSize;
    var w' := HandleSignal(p, w, signal).value;
    if signal.regionID in w.open {
      match signal.request
      case Write(_, _) => assert w'.open.Keys == w.open.Keys;
      case Create(_, _, _) =>
      case Open =>
      case Close =>
      case Drop =>
    } else {
      match signal.request
      case Write(_, _) =>
      case Create(_, _, _) =>
      case Open =>
      case Close =>
      case Drop =>
    }
  }

  /** No region is lost or made up: after any run the worker knows exactly the regions it was told to create. */
  lemma {:induction false} RegionsConserved(p: Parsers, w: Worker, signals: seq<Signal>)
    requires Run(p, w, signals).Some?
    ensures Held(Run(p, w, signals).value) == Held(w) + CreatedIn(p, signals)
    decreases |signals|
  {
    hide HandleSignal, Held, Creates;
    if signals != [] {
      StepHeld(p, w, signals[0]);
      RegionsConserved(p, HandleSignal(p, w, signals[0]).value, signals[1..]);
      CreatedFirst(p, signals);
    }
  }

  lemma CreatedFirst(p: Parsers, signals: seq<Signal>)
    requires signals != []
    ensures CreatedIn(p, signals) == CreatedIn(p, signals[1..]) + if Creates(p, signals[0]) then {signals[0].regionID} else {}
  {
    hide Creates;
    forall id | id in CreatedIn(p, signals)
      ensures id in CreatedIn(p, signals[1..]) + if Creates(p, signals[0]) then {signals[0].regionID} else {}
    {
      var i :| 0 <= i < |signals| && Creates(p, signals[i]) && signals[i].regionID == id;
      assert i > 0 ==> signals[1..][i - 1] == signals[i];
    }
    forall id | id in CreatedIn(p, signals[1..])
      ensures id in CreatedIn(p, signals)
    {
      var i :| 0 <= i < |signals[1..]| && Creates(p, signals[1..][i]) && signals[1..][i].regionID == id;
      assert signals[i + 1] == signals[1..][i];
    }
  }

  /** Where a region is after a signal of its own: OPEN takes it from the closed regions if its columns can be read, CLOSE puts
      it back there, DROP takes it out for good while it is not open, CREATE adds it; nothing else moves it. */
  lemma StatusStep(p: Parsers, w: Worker, signal: Signal)
    requires HandleSignal(p, w, signal).Some?
    ensures var id, w', request := signal.regionID, HandleSignal(p, w, signal).value, signal.request;
            var readable := id in w.closed && w.closed[id].columnNames.Columns?;
            var created := request.Create? && p.attrs(request.attrs).Some? && !(id in w.open && id in w.closed);
            && (id in w'.open <==> (id in w.open && !request.Close?) || (id !in w.open && readable && request.Open?))
            && (id in w'.closed <==>
                  || created || (request.Close? && id in w.open)
                  || (id in w.closed && (id in w.open || !(request.Drop? || (request.Open? && readable)))))
            && (id in w'.dropping <==> id in w.dropping || (request.Drop? && id in w.closed && id !in w.open))
  {
    hide FixedBytes, TextBytes, Project, BaseSize;
    match signal.request
    case Write(_, _) =>
    case Create(_, _, _) =>
    case Open =>
    case Close =>
    case Drop =>
  }

  /** A region keeps its attributes wherever it moves; only a CREATE replaces those of a closed one, and DROP and CLOSE replace
      what was kept under the id before. */
  lemma AttributesStep(p: Parsers, w: Worker, signal: Signal, k: nat)
    requires HandleSignal(p, w, signal).Some?
    ensures var w', request := HandleSignal(p, w, signal).value, signal.request;
            && (k in w'.open ==> if k in w.open then w'.open[k].attrs == w.open[k].attrs
                                 else k in w.closed && w'.open[k].attrs == w.closed[k])
            && (k in w'.closed ==>
                  var fromOpen := k == signal.regionID && request.Close? && k in w.open;
                  var made := k == signal.regionID && request.Create? && p.attrs(request.attrs).Some?
                              && !(k in w.open && k in w.closed);
                  if fromOpen then w'.closed[k] == w.open[k].attrs
                  else if made then w'.closed[k] == p.attrs(request.attrs).value
                  else k in w.closed && w'.closed[k] == w.closed[k])
            && (k in w'.dropping ==>
                  if k == signal.regionID && request.Drop? && k in w.closed && k !in w.open then w'.dropping[k] == w.closed[k]
                  else k in w.dropping && w'.dropping[k] == w.dropping[k])
  {
    hide FixedBytes, TextBytes, Project, BaseSize;
    match signal.request
    case Write(_, _) =>
    case Create(_, _, _) =>
    case Open =>
    case Close =>
    case Drop =>
  }

  /** An exception leaves the worker exactly on the OPEN of a closed region whose columns are no JSON, and on a write to an
      open region that is not too large and gives no value for some column. */
  lemma ExceptionIff(p: Parsers, w: Worker, signal: Signal)
    ensures var id, request := signal.regionID, signal.request;
            HandleSignal(p, w, signal).None? <==>
              || (request.Open? && id !in w.open && id in w.closed && w.closed[id].columnNames.Unparsable?)
              || (request.Write? && id in w.open && p.fields(request.jsonData).Some?
                  && WorkerRuns.RowSize(p.fields(request.jsonData).value) <= w.open[id].attrs.threshold
                  && exists i :: 0 <= i < |w.open[id].table.columns|
                                 && !Named(p.fields(request.jsonData).value, w.open[id].table.columns[i].name))
  {
    hide FixedBytes, TextBytes, Project, BaseSize, Named, InColumns;
    if signal.request.Write? && signal.regionID in w.open && p.fields(signal.request.jsonData).Some? {
      ProjectIff(w.open[signal.regionID].table.columns, p.fields(signal.request.jsonData).value);
    }
  }

  /** Some CREATE among the signals gave the region these attributes. */
  ghost predicate Given(p: Parsers, signals: seq<Signal>, id: nat, attrs: Attrs) {
    exists i :: 0 <= i < |signals| && CreatesWith(p, signals[i], id, attrs)
  }

  /** Some CREATE for the region named this file. */
  ghost predicate Destined(p: Parsers, signals: seq<Signal>, f: Flush) {
    exists attrs :: Given(p, signals, f.regionID, attrs) && attrs.sstPath == f.sstPath
  }

  /** Every region has attributes it was created with, an open one has the columns they name, and every table on its way
      to a file goes to a file they name. */
  ghost predicate AllGiven(p: Parsers, signals: seq<Signal>, w: Worker) {
    && (forall k :: k in w.open ==> Given(p, signals, k, w.open[k].attrs)
                                    && w.open[k].attrs.columnNames == Columns(w.open[k].table.columns))
    && (forall k :: k in w.closed ==> Given(p, signals, k, w.closed[k]))
    && (forall k :: k in w.dropping ==> Given(p, signals, k, w.dropping[k]))
    && (forall i :: 0 <= i < |w.flushed| ==> Destined(p, signals, w.flushed[i]))
  }

  lemma StepGiven(p: Parsers, signals: seq<Signal>, w: Worker, i: nat)
    requires AllGiven(p, signals, w) && i < |signals| && HandleSignal(p, w, signals[i]).Some?
    ensures AllGiven(p, signals, HandleSignal(p, w, signals[i]).value)
  {
    hide FixedBytes, TextBytes, Project, BaseSize, Given, Destined;
    var signal := signals[i];
    var id := signal.regionID;
    if id in w.open {
      FlushGiven(p, signals, w, id);
    }
    match signal.request
    case Write(_, _) =>
    case Create(_, _, json) =>
      if p.attrs(json).Some? {
        GivenHere(p, signals, i);
      }
    case Open =>
    case Close =>
    case Drop =>
  }

  lemma FlushGiven(p: Parsers, signals: seq<Signal>, w: Worker, id: nat)
    requires AllGiven(p, signals, w) && id in w.open
    ensures AllGiven(p, signals, SendFlush(w, id))
  {
    hide BaseSize, Given;
  }

  lemma GivenHere(p: Parsers, signals: seq<Signal>, i: nat)
    requires i < |signals| && Creates(p, signals[i])
    ensures Given(p, signals, signals[i].regionID, p.attrs(signals[i].request.attrs).value)
  {
    assert CreatesWith(p, signals[i], signals[i].regionID, p.attrs(signals[i].request.attrs).value);
  }

  lemma {:induction false} RunGiven(p: Parsers, signals: seq<Signal>, w: Worker, n: nat)
    requires n <= |signals| && AllGiven(p, signals, w) && Run(p, w, signals[n..]).Some?
    ensures AllGiven(p, signals, Run(p, w, signals[n..]).value)
    decreases |signals| - n
  {
    hide HandleSignal, AllGiven;
    if n < |signals| {
      StepGiven(p, signals, w, n);
      assert signals[n..][1..] == signals[n + 1..];
      RunGiven(p, signals, HandleSignal(p, w, signals[n]).value, n + 1);
    }
  }

  // ----- space

  /** A memtable is charged with its column names, four bytes per column, eight per time stamp and number, and the length of
      every string. */
  lemma UsageInNumbers(columns: Schema, r: OpenRegion, ts: U64, fields: Fields, data: seq<Value>)
    ensures Usage(NewTable(columns)) == NameBytes(columns) + 4 * |columns|
    ensures Usage(AddRow(r, ts, fields, data).table) == Usage(r.table) + 8 + FixedBytes(fields) + TextBytes(fields)
  {
    hide FixedBytes, TextBytes, NameBytes;
  }
}
