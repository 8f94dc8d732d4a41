/** Requests and the signals they become: src/dataNode/dataNodeLib/request.hpp, dataNodeSignal.hpp,
    and the decoding rules of src/dataNode/regionServer.cpp. */
module Requests {
  import opened Bytes
  import opened Wrappers

  datatype Request =
    | Write(timestamp: U64, jsonData: string)
    | Create(name: string, expr: string, attrs: string)
    | Open
    | Close
    | Drop

  datatype Signal = Signal(regionID: nat, requestID: nat, request: Request)

  /** One decoded JSON object. */
  type Dict = map<string, string>

  /** The request an object describes, whatever regions exist; None when a field is missing or unknown. */
  function Decode(stoull: string -> U64, r: Dict): (d: Option<Request>)
    ensures d.Some? ==> "regionID" in r
  {
    if "type" !in r || "regionID" !in r then None
    else if r["type"] == "WRITE" then
      if "timestamp" in r && "jsonData" in r then Some(Write(stoull(r["timestamp"]), r["jsonData"])) else None
    else if r["type"] == "ADMIN" && "operation" in r then
      if r["operation"] == "CREATE" then
        if "regionName" in r && "expr" in r && "attrs" in r
        then Some(Create(r["regionName"], r["expr"], r["attrs"])) else None
      else if r["operation"] == "OPEN" then Some(Open)
      else if r["operation"] == "CLOSE" then Some(Close)
      else if r["operation"] == "DROP" then Some(Drop)
      else None
    else None
  }

  predicate Has(r: Dict, key: string, value: string) {
    key in r && r[key] == value
  }

  /** The entries with which an object asks for a request. */
  predicate AsksFor(stoull: string -> U64, r: Dict, request: Request) {
    "regionID" in r &&
    match request
    case Write(timestamp, jsonData) =>
      Has(r, "type", "WRITE") && "timestamp" in r && stoull(r["timestamp"]) == timestamp && Has(r, "jsonData", jsonData)
    case Create(name, expr, attrs) =>
      && Has(r, "type", "ADMIN") && Has(r, "operation", "CREATE")
      && Has(r, "regionName", name) && Has(r, "expr", expr) && Has(r, "attrs", attrs)
    case Open => Has(r, "type", "ADMIN") && Has(r, "operation", "OPEN")
    case Close => Has(r, "type", "ADMIN") && Has(r, "operation", "CLOSE")
    case Drop => Has(r, "type", "ADMIN") && Has(r, "operation", "DROP")
  }

  /** An object is decoded to exactly the request it asks for, whatever other entries it has, and to none if it asks for
      none; in particular it never asks for two. */
  lemma DecodeIff(stoull: string -> U64, r: Dict, request: Request)
    ensures Decode(stoull, r) == Some(request) <==> AsksFor(stoull, r, request)
  {
    assert "WRITE"[0] != "ADMIN"[0] && "OPEN"[0] == 'O' && "DROP"[0] == 'D';
    assert "CREATE"[0] == "CLOSE"[0] && "CREATE"[1] != "CLOSE"[1];
  }

  /** A well-formed request is accepted when its region is known, or when it creates it. */
  predicate Accepts(stoull: string -> U64, known: set<nat>, r: Dict) {
    && Decode(stoull, r).Some?
    && (Decode(stoull, r).value.Create? || stoull(r["regionID"]) in known)
  }

  /** The regions ever created by a signal sequence. */
  function Created(sent: seq<Signal>): set<nat> {
    set i | 0 <= i < |sent| && sent[i].request.Create? :: sent[i].regionID
  }

  /** The signals that a sequence of objects becomes, after the signals already sent. */
  function Accepted(stoull: string -> U64, sent: seq<Signal>, requests: seq<Dict>): seq<Signal>
    decreases |requests|
  {
    if requests == [] then sent
    else
      var r := requests[0];
      if Accepts(stoull, Created(sent), r)
      then Accepted(stoull, sent + [Signal(stoull(r["regionID"]), |sent|, Decode(stoull, r).value)], requests[1..])
      else Accepted(stoull, sent, requests[1..])
  }

  // ----- what the signals sent satisfy

  function ForRegion(s: seq<Signal>, region: nat): seq<Signal> {
    if s == [] then []
    else (if s[0].regionID == region then [s[0]] else []) + ForRegion(s[1..], region)
  }

  /** Identifiers count up from 0, and the first signal of every region creates it. */
  ghost predicate WellSent(sent: seq<Signal>) {
    && (forall i :: 0 <= i < |sent| ==> sent[i].requestID == i)
    && (forall region: nat :: ForRegion(sent, region) != [] ==> ForRegion(sent, region)[0].request.Create?)
  }

  lemma {:induction false} ForRegionConcat(a: seq<Signal>, b: seq<Signal>, region: nat)
    ensures ForRegion(a + b, region) == ForRegion(a, region) + ForRegion(b, region)
  {
    if a == [] {
      assert a + b == b;
    } else {
      ForRegionConcat(a[1..], b, region);
      assert (a + b)[1..] == a[1..] + b;
    }
  }

  lemma {:induction false} ForRegionNonEmpty(s: seq<Signal>, i: nat)
    requires i < |s|
    ensures ForRegion(s, s[i].regionID) != []
  {
    if s[0].regionID != s[i].regionID {
      ForRegionNonEmpty(s[1..], i - 1);
    }
  }

  lemma SentOne(sent: seq<Signal>, signal: Signal)
    requires WellSent(sent) && signal.requestID == |sent|
    requires signal.request.Create? || signal.regionID in Created(sent)
    ensures WellSent(sent + [signal])
  {
    forall region: nat | ForRegion(sent + [signal], region) != []
      ensures ForRegion(sent + [signal], region)[0].request.Create?
    {
      ForRegionConcat(sent, [signal], region);
      assert ForRegion([signal], region) == if signal.regionID == region then [signal] else [];
      if ForRegion(sent, region) == [] && signal.regionID == region && !signal.request.Create? {
        var i :| 0 <= i < |sent| && sent[i].request.Create? && sent[i].regionID == region;
        ForRegionNonEmpty(sent, i);
      }
    }
  }

  /** Whatever arrives, the signals sent are numbered consecutively and every region starts with its CREATE. */
  lemma {:induction false} AcceptedWellSent(stoull: string -> U64, sent: seq<Signal>, requests: seq<Dict>)
    requires WellSent(sent)
    ensures WellSent(Accepted(stoull, sent, requests))
    ensures sent <= Accepted(stoull, sent, requests)
    decreases |requests|
  {
    hide Decode;
    if requests != [] {
      var r := requests[0];
      if Accepts(stoull, Created(sent), r) {
        var signal := Signal(stoull(r["regionID"]), |sent|, Decode(stoull, r).value);
        SentOne(sent, signal);
        AcceptedWellSent(stoull, sent + [signal], requests[1..]);
      } else {
        AcceptedWellSent(stoull, sent, requests[1..]);
      }
    }
  }

  lemma {:induction false} AcceptedConcat(stoull: string -> U64, sent: seq<Signal>, a: seq<Dict>, b: seq<Dict>)
    ensures Accepted(stoull, sent, a + b) == Accepted(stoull, Accepted(stoull, sent, a), b)
    decreases |a|
  {
    hide Decode;
    if a == [] {
      assert a + b == b;
    } else {
      assert (a + b)[1..] == a[1..] + b && (a + b)[0] == a[0];
      if Accepts(stoull, Created(sent), a[0]) {
        var signal := Signal(stoull(a[0]["regionID"]), |sent|, Decode(stoull, a[0]).value);
        AcceptedConcat(stoull, sent + [signal], a[1..], b);
      } else {
        AcceptedConcat(stoull, sent, a[1..], b);
      }
    }
  }

  ghost predicate WasCreated(sent: seq<Signal>, regionID: nat) {
    exists i :: 0 <= i < |sent| && sent[i].request.Create? && sent[i].regionID == regionID
  }

  /** An object that asks for a request becomes a signal exactly when its region was created before or is created by it;
      the signal carries the region, the next number and that request. */
  lemma AcceptedOne(stoull: string -> U64, sent: seq<Signal>, r: Dict, request: Request)
    requires AsksFor(stoull, r, request)
    ensures Accepted(stoull, sent, [r])
         == if request.Create? || WasCreated(sent, stoull(r["regionID"]))
            then sent + [Signal(stoull(r["regionID"]), |sent|, request)] else sent
  {
    hide Decode;
    DecodeIff(stoull, r, request);
    assert [r][1..] == [];
  }

  /** An object that asks for nothing becomes nothing. */
  lemma RejectedOne(stoull: string -> U64, sent: seq<Signal>, r: Dict)
    requires forall request: Request :: !AsksFor(stoull, r, request)
    ensures Accepted(stoull, sent, [r]) == sent
  {
    hide Decode, AsksFor;
    if Decode(stoull, r).Some? {
      DecodeIff(stoull, r, Decode(stoull, r).value);
    }
    assert [r][1..] == [];
  }
}

/** src/dataNode/regionServer.cpp */
module RegionServers {
  import opened Bytes
  import opened Requests
  import opened Wrappers

  class RegionServer {
    const stoull: string -> U64
    var regionEngineMap: map<nat, string>
    var requestID: nat
    var enginePipe: seq<Signal>     // everything put on the pipe to the engine, oldest first

    ghost predicate Valid()
      reads this
    {
      && WellSent(enginePipe)
      && requestID == |enginePipe|
      && regionEngineMap.Keys == Created(enginePipe)
    }

    constructor (stoull: string -> U64)
      ensures Valid() && enginePipe == [] && this.stoull == stoull
    {
      this.stoull := stoull;
      regionEngineMap, requestID, enginePipe := map[], 0, [];
    }

    method HandleNewRegion(regionID: nat)
      modifies this`regionEngineMap
      ensures regionEngineMap == old(regionEngineMap)[regionID := "MitoEngine"]
    {
      regionEngineMap := regionEngineMap[regionID := "MitoEngine"];
    }

    /** The body of the loop of `parseRequests`: the guards in the order the code tests them. */
    method ParseRequest(request: Dict) returns (signal: Option<Signal>)
      modifies this`regionEngineMap, this`requestID
      ensures signal.Some? <==> Accepts(stoull, old(regionEngineMap.Keys), request)
      ensures signal.Some? ==>
        signal.value == Signal(stoull(request["regionID"]), old(requestID), Decode(stoull, request).value)
      ensures requestID == old(requestID) + if signal.Some? then 1 else 0
      ensures regionEngineMap.Keys == old(regionEngineMap.Keys)
              + if signal.Some? && signal.value.request.Create? then {signal.value.regionID} else {}
    {
      signal := None;
      if "type" !in request || "regionID" !in request {
        return;
      }
      var regionID := stoull(request["regionID"]);
      if regionID !in regionEngineMap {
        if request["type"] != "ADMIN" || "operation" !in request || request["operation"] != "CREATE" {
          return;
        }
      }
      var payload;
      if request["type"] == "WRITE" {
        if "timestamp" !in request || "jsonData" !in request {
          return;
        }
        payload := Write(stoull(request["timestamp"]), request["jsonData"]);
      } else if request["type"] == "ADMIN" {
        if "operation" !in request {
          return;
        }
        if request["operation"] == "CREATE" {
          if "regionName" !in request || "expr" !in request || "attrs" !in request {
            return;
          }
          payload := Create(request["regionName"], request["expr"], request["attrs"]);
          HandleNewRegion(regionID);
        } else if request["operation"] == "OPEN" {
          payload := Open;
        } else if request["operation"] == "CLOSE" {
          payload := Close;
        } else if request["operation"] == "DROP" {
          payload := Drop;
        } else {
          return;
        }
      } else {
        return;
      }
      signal := Some(Signal(regionID, requestID, payload));
      requestID := requestID + 1;
    }

    /** `parseRequests`, after JSON decoding; None stands for text that is not an array of objects. */
    method ParseRequests(requests: Option<seq<Dict>>) returns (signals: seq<Signal>)
      requires Valid()
      modifies this`regionEngineMap, this`requestID
      ensures enginePipe + signals == Accepted(stoull, enginePipe, if requests.Some? then requests.value else [])
      ensures requestID == |enginePipe + signals|
      ensures regionEngineMap.Keys == Created(enginePipe + signals)
    {
      signals := [];
      if requests.None? {
        assert enginePipe + signals == enginePipe;
        return;
      }
      var rs := requests.value;
      assert enginePipe + [] == enginePipe && rs[0..] == rs;
      for i := 0 to |rs|
        invariant requestID == |enginePipe + signals|
        invariant regionEngineMap.Keys == Created(enginePipe + signals)
        invariant Accepted(stoull, enginePipe, rs) == Accepted(stoull, enginePipe + signals, rs[i..])
      {
        hide Decode;
        ghost var before := enginePipe + signals;
        assert rs[i..][0] == rs[i] && rs[i..][1..] == rs[i + 1..];
        var signal := ParseRequest(rs[i]);
        if signal.Some? {
          CreatedOne(before, signal.value);
          assert enginePipe + (signals + [signal.value]) == before + [signal.value];
          signals := signals + [signal.value];
        }
      }
    }

    static lemma CreatedOne(sent: seq<Signal>, signal: Signal)
      ensures Created(sent + [signal]) == Created(sent) + if signal.request.Create? then {signal.regionID} else {}
    {
      var s := sent + [signal];
      assert s[|sent|] == signal;
      forall region | region in Created(sent)
        ensures region in Created(s)
      {
        var i :| 0 <= i < |sent| && sent[i].request.Create? && sent[i].regionID == region;
        assert s[i] == sent[i];
      }
    }

    /** `sendRegionRequest`: dropped when the region is unknown. */
    method SendRegionRequest(signal: Signal)
      modifies this`enginePipe
      ensures enginePipe == if signal.regionID in regionEngineMap then old(enginePipe) + [signal] else old(enginePipe)
    {
      if signal.regionID !in regionEngineMap {
        return;
      }
      enginePipe := enginePipe + [signal];
    }

    /** One line of input: exactly the accepted requests reach the engine pipe, in order. */
    method Serve(requests: Option<seq<Dict>>)
      requires Valid()
      modifies this
      ensures Valid()
      ensures enginePipe == Accepted(stoull, old(enginePipe), if requests.Some? then requests.value else [])
    {
      hide Accepted, Created, WellSent, Decode;
      var signals := ParseRequests(requests);
      ghost var all := enginePipe + signals;
      AcceptedWellSent(stoull, enginePipe, if requests.Some? then requests.value else []);
      assert enginePipe + signals[..0] == enginePipe;
      for i := 0 to |signals|
        invariant enginePipe == old(enginePipe) + signals[..i]
        invariant requestID == |all| && regionEngineMap.Keys == Created(all)
      {
        SentIsKnown(all, |old(enginePipe)| + i);
        assert all[|old(enginePipe)| + i] == signals[i];
        SendRegionRequest(signals[i]);
        assert signals[..i + 1] == signals[..i] + [signals[i]];
      }
      assert enginePipe == all;
    }

    /** Every signal of a well-sent sequence has its region created in it. */
    static lemma SentIsKnown(sent: seq<Signal>, i: nat)
      requires WellSent(sent) && i < |sent|
      ensures sent[i].regionID in Created(sent)
    {
      ForRegionNonEmpty(sent, i);
      ForRegionMember(sent, sent[i].regionID);
    }

    static lemma {:induction false} ForRegionMember(s: seq<Signal>, region: nat)
      requires ForRegion(s, region) != []
      ensures ForRegion(s, region)[0] in s && ForRegion(s, region)[0].regionID == region
    {
      if s[0].regionID != region {
        ForRegionMember(s[1..], region);
      }
    }
  }
}

/** src/dataNode/mitoEngine.cpp, and the path of a signal from the server to its worker. */
module MitoEngines {
  import opened Bytes
  import opened Requests

  function RegionIDToWorkerID(regionID: nat, workerCount: nat): (w: nat)
    requires workerCount > 0
    ensures w < workerCount
  {
    regionID % workerCount
  }

  /** Region ids that leave the remainder w when counted off by the number of workers. */
  ghost predicate Serves(w: nat, regionID: nat, workerCount: nat) {
    w < workerCount && exists q: nat :: regionID == q * workerCount + w
  }

  /** The engine's choice is the one worker that serves the region. */
  lemma WorkerServes(regionID: nat, w: nat, n: nat)
    requires n > 0
    ensures RegionIDToWorkerID(regionID, n) == w <==> Serves(w, regionID, n)
  {
    assert regionID == (regionID / n) * n + regionID % n;
    if Serves(w, regionID, n) {
      var q: nat :| regionID == q * n + w;
      DivUnique(regionID, n, q, w);
    }
  }

  /** Regions whose ids are n apart have the same worker. */
  lemma WorkersRepeat(regionID: nat, w: nat, n: nat)
    requires w < n
    ensures Serves(w, regionID + n, n) <==> Serves(w, regionID, n)
  {
    assert regionID == (regionID / n) * n + regionID % n;
    DivUnique(regionID + n, n, regionID / n + 1, regionID % n);
    WorkerServes(regionID, w, n);
    WorkerServes(regionID + n, w, n);
  }

  /** Of n consecutive region ids each worker serves exactly one. */
  lemma WorkersShare(base: nat, w: nat, n: nat) returns (mine: nat)
    requires w < n
    ensures base <= mine < base + n
    ensures forall region: nat :: base <= region < base + n ==> (Serves(w, region, n) <==> region == mine)
  {
    hide Serves;
    var q, r := Split(base, n);
    mine := base + if r <= w then w - r else w + n - r;
    forall region: nat | base <= region < base + n
      ensures Serves(w, region, n) <==> region == mine
    {
      WorkerServes(region, w, n);
      Counted(q * n, q, r, region - base, n);
    }
  }

  lemma Split(base: nat, n: nat) returns (q: nat, r: nat)
    requires n > 0
    ensures base == q * n + r && r < n
  {
    q, r := base / n, base % n;
  }

  lemma Counted(m: nat, q: nat, r: nat, j: nat, n: nat)
    requires m == q * n && r < n && j < n
    ensures (m + r + j) % n == if r + j < n then r + j else r + j - n
  {
    if r + j < n {
      DivUnique(m + r + j, n, q, r + j);
    } else {
      DivUnique(m + r + j, n, q + 1, r + j - n);
    }
  }

  /** The signals of a sequence that belong to worker w. */
  ghost function Route(s: seq<Signal>, w: nat, workerCount: nat): seq<Signal>
    requires workerCount > 0
  {
    if s == [] then []
    else (if Serves(w, s[0].regionID, workerCount) then [s[0]] else []) + Route(s[1..], w, workerCount)
  }

  lemma {:induction false} RouteConcat(a: seq<Signal>, b: seq<Signal>, w: nat, n: nat)
    requires n > 0
    ensures Route(a + b, w, n) == Route(a, w, n) + Route(b, w, n)
  {
    if a == [] {
      assert a + b == b;
    } else {
      RouteConcat(a[1..], b, w, n);
      assert (a + b)[1..] == a[1..] + b && (a + b)[0] == a[0];
      var head := if Serves(w, a[0].regionID, n) then [a[0]] else [];
      assert (head + Route(a[1..], w, n)) + Route(b, w, n) == head + (Route(a[1..], w, n) + Route(b, w, n));
    }
  }

  class MitoEngine {
    var serverPipe: seq<Signal>
    var workerPipes: seq<seq<Signal>>

    /** `getSignal` and `handleSignal`: move the oldest signal to the pipe its region selects. */
    method HandleSignal() returns (handled: bool)
      requires |workerPipes| > 0
      modifies this
      ensures handled == (old(serverPipe) != [])
      ensures Flow(serverPipe, workerPipes) == EngineStep(Flow(old(serverPipe), old(workerPipes)))
      ensures |workerPipes| == old(|workerPipes|) && (!handled ==> serverPipe == [] && workerPipes == old(workerPipes))
      ensures handled ==> old(serverPipe) == [old(serverPipe)[0]] + serverPipe
      ensures handled ==> forall w :: 0 <= w < |workerPipes| ==>
                workerPipes[w] == old(workerPipes)[w]
                  + if Serves(w, old(serverPipe)[0].regionID, |workerPipes|) then [old(serverPipe)[0]] else []
    {
      if serverPipe == [] {
        return false;
      }
      var signal := serverPipe[0];
      serverPipe := serverPipe[1..];
      var workerID := RegionIDToWorkerID(signal.regionID, |workerPipes|);
      forall w: nat {
        WorkerServes(signal.regionID, w, |workerPipes|);
      }
      workerPipes := workerPipes[workerID := workerPipes[workerID] + [signal]];
      handled := true;
    }
  }

  // ----- the pipes as a whole

  datatype Flow = Flow(serverPipe: seq<Signal>, workerPipes: seq<seq<Signal>>)

  function EngineStep(f: Flow): Flow
    requires |f.workerPipes| > 0
  {
    if f.serverPipe == [] then f
    else
      var w := RegionIDToWorkerID(f.serverPipe[0].regionID, |f.workerPipes|);
      Flow(f.serverPipe[1..], f.workerPipes[w := f.workerPipes[w] + [f.serverPipe[0]]])
  }

  /** Server, engine and workers, with what was sent and what each worker has taken. */
  datatype Net = Net(sent: seq<Signal>, flow: Flow, received: seq<seq<Signal>>)

  function Start(workerCount: nat): Net {
    Net([], Flow([], seq(workerCount, _ => [])), seq(workerCount, _ => []))
  }

  /** The server puts one signal, the engine moves one, or a worker takes one. */
  datatype Step = ServerPuts(signal: Signal) | EngineMoves | WorkerTakes(w: nat)

  function Apply(s: Net, step: Step): Net
    requires |s.flow.workerPipes| == |s.received| > 0
  {
    match step
    case ServerPuts(signal) => s.(sent := s.sent + [signal], flow := s.flow.(serverPipe := s.flow.serverPipe + [signal]))
    case EngineMoves => s.(flow := EngineStep(s.flow))
    case WorkerTakes(w) =>
      if w >= |s.received| || s.flow.workerPipes[w] == [] then s
      else
        var signal := s.flow.workerPipes[w][0];
        s.(flow := s.flow.(workerPipes := s.flow.workerPipes[w := s.flow.workerPipes[w][1..]]),
           received := s.received[w := s.received[w] + [signal]])
  }

  /** Nothing is lost, duplicated, reordered or sent to the wrong worker. */
  ghost predicate Conserved(s: Net) {
    var n := |s.received|;
    && |s.flow.workerPipes| == n > 0
    && forall w :: 0 <= w < n ==> Path(s, w) == Route(s.sent, w, n)
  }

  /** Worker w's signals, from the oldest taken to the newest still with the server. */
  ghost function Path(s: Net, w: nat): seq<Signal>
    requires |s.flow.workerPipes| == |s.received| > w
  {
    s.received[w] + s.flow.workerPipes[w] + Route(s.flow.serverPipe, w, |s.received|)
  }

  lemma StepPath(s: Net, step: Step, w: nat)
    requires |s.flow.workerPipes| == |s.received| > w
    ensures var s' := Apply(s, step);
            && |s'.flow.workerPipes| == |s'.received| == |s.received|
            && Path(s', w) == Path(s, w) + Route(s'.sent[|s.sent|..], w, |s.received|)
            && s.sent <= s'.sent
  {
    var n, s' := |s.received|, Apply(s, step);
    match step {
      case ServerPuts(signal) =>
        RouteConcat(s.flow.serverPipe, [signal], w, n);
        assert s'.sent[|s.sent|..] == [signal];
      case EngineMoves =>
        assert s'.sent[|s.sent|..] == [];
        if s.flow.serverPipe != [] {
          var head := s.flow.serverPipe[0];
          WorkerServes(head.regionID, w, n);
          RouteConcat([head], s.flow.serverPipe[1..], w, n);
          assert s.flow.serverPipe == [head] + s.flow.serverPipe[1..];
        }
      case WorkerTakes(v) =>
        assert s'.sent[|s.sent|..] == [];
        if v == w && s.flow.workerPipes[w] != [] {
          assert s.flow.workerPipes[w] == [s.flow.workerPipes[w][0]] + s.flow.workerPipes[w][1..];
        }
    }
  }

  lemma StepConserved(s: Net, step: Step)
    requires Conserved(s)
    ensures Conserved(Apply(s, step)) && |Apply(s, step).received| == |s.received|
  {
    hide Path, Apply;
    var s' := Apply(s, step);
    StepPath(s, step, 0);
    forall w | 0 <= w < |s.received|
      ensures Path(s', w) == Route(s'.sent, w, |s.received|)
    {
      StepPath(s, step, w);
      RouteConcat(s.sent, s'.sent[|s.sent|..], w, |s.received|);
      assert s'.sent == s.sent + s'.sent[|s.sent|..];
    }
  }

  ghost function Run(n: nat, steps: seq<Step>): (s: Net)
    requires n > 0
    ensures |s.flow.workerPipes| == |s.received| == n
    decreases |steps|
  {
    if steps == [] then Start(n) else Apply(Run(n, steps[..|steps| - 1]), steps[|steps| - 1])
  }

  lemma {:induction false} RunConserved(n: nat, steps: seq<Step>)
    requires n > 0
    ensures Conserved(Run(n, steps))
    decreases |steps|
  {
    if steps != [] {
      RunConserved(n, steps[..|steps| - 1]);
      StepConserved(Run(n, steps[..|steps| - 1]), steps[|steps| - 1]);
    }
  }

  // ----- end to end

  ghost predicate Ordered(r: seq<Signal>, lo: nat, hi: nat, w: nat, n: nat)
    requires n > 0
  {
    && (forall i :: 0 <= i < |r| ==> lo <= r[i].requestID < hi && Serves(w, r[i].regionID, n))
    && (forall i, j :: 0 <= i < j < |r| ==> r[i].requestID < r[j].requestID)
  }

  /** A worker's share is in strictly increasing request order. */
  lemma {:induction false} RouteOrder(s: seq<Signal>, w: nat, n: nat, base: nat)
    requires n > 0 && forall i :: 0 <= i < |s| ==> s[i].requestID == base + i
    ensures Ordered(Route(s, w, n), base, base + |s|, w, n)
  {
    if s != [] {
      forall i | 0 <= i < |s[1..]|
        ensures s[1..][i].requestID == base + 1 + i
      {
        assert s[1..][i] == s[i + 1];
      }
      RouteOrder(s[1..], w, n, base + 1);
      assert s[0].requestID == base;
      if Serves(w, s[0].regionID, n) {
        OrderedCons(s[0], Route(s[1..], w, n), base, base + |s|, w, n);
      } else {
        assert Route(s, w, n) == Route(s[1..], w, n);
      }
    }
  }

  lemma OrderedCons(x: Signal, r: seq<Signal>, lo: nat, hi: nat, w: nat, n: nat)
    requires n > 0 && Ordered(r, lo + 1, hi, w, n) && x.requestID == lo < hi && Serves(w, x.regionID, n)
    ensures Ordered([x] + r, lo, hi, w, n)
  {
  }

  lemma {:induction false} RouteKeepsRegion(s: seq<Signal>, w: nat, n: nat, region: nat)
    requires n > 0
    ensures ForRegion(Route(s, w, n), region) == if Serves(w, region, n) then ForRegion(s, region) else []
  {
    if s != [] {
      RouteKeepsRegion(s[1..], w, n, region);
      var head := if Serves(w, s[0].regionID, n) then [s[0]] else [];
      ForRegionConcat(head, Route(s[1..], w, n), region);
      assert head != [] ==> ForRegion(head, region) == if s[0].regionID == region then [s[0]] else [];
    }
  }

  lemma PrefixWellSent(a: seq<Signal>, b: seq<Signal>)
    requires a <= b && WellSent(b)
    ensures WellSent(a)
  {
    forall region: nat | ForRegion(a, region) != []
      ensures ForRegion(a, region)[0].request.Create?
    {
      assert b == a + b[|a|..];
      ForRegionConcat(a, b[|a|..], region);
    }
  }

  /** End to end, whatever requests arrive and however server, engine and workers interleave: a worker has taken a
      prefix of exactly its share of the signals sent, in strictly increasing request order; a region's signals
      go to one worker, who takes them in the order they were sent, starting with the region's CREATE. */
  lemma EndToEnd(stoull: string -> U64, requests: seq<Dict>, n: nat, steps: seq<Step>, w: nat, region: nat)
    requires 0 < n && w < n && Run(n, steps).sent <= Accepted(stoull, [], requests)
    ensures var s := Run(n, steps);
            var mine := s.received[w];
            && mine <= Route(s.sent, w, n)
            && (forall i, j :: 0 <= i < j < |mine| ==> mine[i].requestID < mine[j].requestID)
            && (forall i :: 0 <= i < |mine| ==> Serves(w, mine[i].regionID, n))
            && ForRegion(mine, region) <= (if Serves(w, region, n) then ForRegion(s.sent, region) else [])
            && (ForRegion(mine, region) != [] ==> ForRegion(mine, region)[0].request.Create?)
  {
    hide Apply, Accepted, Serves, Route;
    var s := Run(n, steps);
    AcceptedWellSent(stoull, [], requests);
    PrefixWellSent(s.sent, Accepted(stoull, [], requests));
    RunConserved(n, steps);
    var mine, rest := s.received[w], s.flow.workerPipes[w] + Route(s.flow.serverPipe, w, n);
    assert Path(s, w) == mine + rest;
    RouteOrder(s.sent, w, n, 0);
    RouteKeepsRegion(s.sent, w, n, region);
    ForRegionConcat(mine, rest, region);
  }
}
