/** The capture loop on disk: each packet is written to the log, then linked from its flow's previous packet by four
    bytes over that packet's header, or put into the index (src/probe/dpdkCapture.cpp). */
module FlowDisk {
  import opened Bytes
  import opened Buffers
  import opened Wrappers
  import opened CellLog
  import opened DiskChains
  import F = FlowChains

  /** A captured packet: its header without the link, its data, the cell number drawn if a cell is needed, flow and time;
      and whether the block buffer takes the link that is written for it, which `writeBefore` does not look at. */
  datatype Incoming = Incoming(fields: seq<Byte>, data: seq<Byte>, nextCell: nat, flow: F.FlowMetadata, ts: U64, taken: bool)

  /** What became of one packet: its cell in the order of the trail, its place in that cell, and the bytes written. */
  datatype Seen = Seen(packet: F.Packet, cell: nat, within: nat, record: seq<Byte>)

  /** `landed`: the links that have been written to disk, by the offset they stand at. */
  datatype Capture = Capture(trail: Trail, agg: F.AggMap, index: seq<F.Packet>, landed: map<nat, U32>, seen: seq<Seen>)

  /** `readPacket` sets the link to the largest word. */
  function ArrivalOf(x: Incoming): Arrival {
    Arrival(Enc(F.END, 4) + x.fields, x.data, x.nextCell)
  }

  function Offset(g: Config, t: Trail): (o: U64)
    requires Valid(g, t)
  {
    PlaceInside(g, Current(t), |t.tail|);
    Base(g, Current(t)) + |t.tail|
  }

  lemma PlaceInside(g: Config, cell: nat, w: nat)
    requires Sound(g) && cell < g.cellNum && w <= Room(g)
    ensures Base(g, cell) + w + POINTER_SIZE <= g.diskSize
  {
    CellInside(g, cell);
  }

  function PacketOf(g: Config, s: Capture, x: Incoming): F.Packet
    requires Valid(g, s.trail)
  {
    F.Packet(x.flow, Offset(g, s.trail), x.ts)
  }

  ghost predicate Accepts(g: Config, l: F.Limits, s: Capture, x: Incoming) {
    Feasible(g, s.trail, ArrivalOf(x)) && l.diskSize == g.diskSize && F.Bounded(l, s.agg)
  }

  function SeenOf(g: Config, s: Capture, x: Incoming): Seen
    requires Valid(g, s.trail) && |ArrivalOf(x).header| == g.headerLen
  {
    Seen(PacketOf(g, s, x), |s.trail.full|, |s.trail.tail|, RecordOf(g, s.trail, ArrivalOf(x)))
  }

  /** The number that leads from the flow's previous packet to this one. */
  function LinkOf(g: Config, l: F.Limits, s: Capture, x: Incoming): U32
    requires Accepts(g, l, s, x) && x.flow in s.agg
  {
    F.Truncate32(F.CalDiff(Offset(g, s.trail), s.agg[x.flow].lastOffset, l.diskSize))
  }

  lemma Accepted(g: Config, l: F.Limits, s: Capture, x: Incoming)
    requires Accepts(g, l, s, x)
    ensures Valid(g, s.trail) && POINTER_SIZE < g.cellSize && |s.trail.cells| == |s.trail.full| + 1
    ensures |s.trail.tail| <= Room(g) && |ArrivalOf(x).header| == g.headerLen
    ensures Feasible(g, s.trail, ArrivalOf(x)) && l.diskSize == g.diskSize && F.Bounded(l, s.agg)
  {
  }

  ghost function Step(g: Config, l: F.Limits, s: Capture, x: Incoming): Capture
    requires Accepts(g, l, s, x)
  {
    var p := PacketOf(g, s, x);
    var t := CellLog.Step(g, s.trail, ArrivalOf(x));
    var agg, seen := s.agg[x.flow := F.FlowAttr(p.offset, x.ts)], s.seen + [SeenOf(g, s, x)];
    var landed := s.landed - {p.offset as nat};
    StepValid(g, s.trail, ArrivalOf(x));
    if F.Breaks(l, s.agg, p) then Capture(t, agg, s.index + [p], landed, seen)
    else if !x.taken then Capture(t, agg, s.index, landed, seen)
    else
      var last, link := s.agg[x.flow].lastOffset, LinkOf(g, l, s, x);
      Capture(Patch(g, t, last, Enc(link, 4)), agg, s.index, landed[last as nat := link], seen)
  }

  function Start(first: nat): Capture {
    Capture(Trail([first], [], []), map[], [], map[], [])
  }

  ghost predicate Ready(g: Config, l: F.Limits, first: nat) {
    Sound(g) && first < g.cellNum && l.diskSize == g.diskSize
  }

  /** The state after the packets, if each of them fits when it arrives and finds an unused cell when it needs one. */
  ghost function Run(g: Config, l: F.Limits, first: nat, xs: seq<Incoming>): Option<Capture> {
    if xs == [] then Some(Start(first))
    else
      var before := Run(g, l, first, xs[..|xs| - 1]);
      if before.None? || !Accepts(g, l, before.value, xs[|xs| - 1]) then None
      else Some(Step(g, l, before.value, xs[|xs| - 1]))
  }

  // ----- where the packets are

  function Packets(seen: seq<Seen>): (ps: seq<F.Packet>)
    ensures |ps| == |seen|
  {
    seq(|seen|, i requires 0 <= i < |seen| => seen[i].packet)
  }

  /** Total length of the records. */
  function Length(seen: seq<Seen>): nat {
    if seen == [] then 0 else Length(seen[..|seen| - 1]) + |seen[|seen| - 1].record|
  }

  ghost predicate PlacedAt(g: Config, t: Trail, e: Seen, start: nat)
    requires POINTER_SIZE < g.cellSize
  {
    && e.cell < |t.cells| && e.within <= Room(g)
    && e.packet.offset == Base(g, t.cells[e.cell]) + e.within
    && Position(g, e.cell, e.within) == start
    && |e.record| >= 4 && e.record[..4] == Enc(F.END, 4)
    && e.within + |e.record| <= 2 * Room(g)
  }

  ghost predicate AllPlaced(g: Config, t: Trail, seen: seq<Seen>)
    requires POINTER_SIZE < g.cellSize
  {
    forall i :: 0 <= i < |seen| ==> PlacedAt(g, t, seen[i], Length(seen[..i]))
  }

  ghost predicate Inv(g: Config, l: F.Limits, s: Capture) {
    && Valid(g, s.trail) && l.diskSize == g.diskSize
    && AllPlaced(g, s.trail, s.seen)
    && Position(g, |s.trail.full|, |s.trail.tail|) == Length(s.seen)
    && F.Placed(l, Packets(s.seen))
    && s.agg == F.Run(l, Packets(s.seen)).agg && s.index == F.Run(l, Packets(s.seen)).index
    && LandedRight(l, s.landed, F.Run(l, Packets(s.seen)).next)
  }

  /** A link on disk is the one from a packet to its successor. */
  ghost predicate LandedRight(l: F.Limits, landed: map<nat, U32>, next: map<nat, nat>) {
    forall o :: o in landed ==>
      && o in next && o < l.diskSize && next[o] < l.diskSize
      && landed[o] == F.Truncate32(F.CalDiff(next[o], o, l.diskSize))
  }

  lemma InvBounded(g: Config, l: F.Limits, s: Capture)
    requires Inv(g, l, s)
    ensures F.Bounded(l, s.agg)
  {
  }

  lemma {:induction false} LengthPrefix(seen: seq<Seen>, i: nat, j: nat)
    requires i < j <= |seen|
    ensures Length(seen[..i]) + |seen[i].record| <= Length(seen[..j])
    decreases j
  {
    assert seen[..j][..j - 1] == seen[..j - 1];
    if i < j - 1 {
      LengthPrefix(seen, i, j - 1);
    }
  }

  /** Two packets that share an address are the same packet. */
  lemma OffsetsDiffer(g: Config, t: Trail, seen: seq<Seen>, i: nat, j: nat)
    requires Valid(g, t) && AllPlaced(g, t, seen) && i < j < |seen|
    ensures seen[i].packet.offset != seen[j].packet.offset
  {
    hide Base, Distinct;
    LengthPrefix(seen, i, j);
    assert PlacedAt(g, t, seen[i], Length(seen[..i])) && PlacedAt(g, t, seen[j], Length(seen[..j]));
    var a, b := seen[i].cell, seen[j].cell;
    if a != b {
      DistinctAt(t.cells, if a < b then a else b, if a < b then b else a);
      CellsApart(g, t.cells[a], t.cells[b]);
    }
  }

  /** Records do not overlap in the log, and lie before its end. */
  lemma PlaceBefore(g: Config, l: F.Limits, s: Capture, i: nat)
    requires Inv(g, l, s) && i < |s.seen|
    ensures var e := s.seen[i];
            && PlacedAt(g, s.trail, e, Length(s.seen[..i])) && e.cell <= |s.trail.full|
            && Position(g, e.cell, e.within) + |e.record| <= Position(g, |s.trail.full|, |s.trail.tail|)
            && (e.cell == |s.trail.full| ==> e.within + |e.record| <= |s.trail.tail|)
            && (e.within + |e.record| > Room(g) ==>
                  && e.cell < |s.trail.full|
                  && (e.cell + 1 == |s.trail.full| ==> e.within + |e.record| - Room(g) <= |s.trail.tail|))
  {
    hide Base, Distinct, F.Placed, F.Run;
    LengthPrefix(s.seen, i, |s.seen|);
    assert s.seen[..|s.seen|] == s.seen;
    var e := s.seen[i];
    assert PlacedAt(g, s.trail, e, Length(s.seen[..i]));
    hide Position, Length, LandedRight, AllPlaced;
    CrossInside(g, e.cell, e.within, |e.record|, |s.trail.full|, |s.trail.tail|);
  }

  lemma CrossInside(g: Config, k: nat, w: nat, n: nat, last: nat, tail: nat)
    requires POINTER_SIZE < g.cellSize && k <= last && w <= Room(g) && tail <= Room(g)
    requires Position(g, k, w) + n <= Position(g, last, tail)
    ensures k == last ==> w + n <= tail
    ensures w + n > Room(g) ==> k < last && (k + 1 == last ==> w + n - Room(g) <= tail)
  {
    if k + 1 == last {
      PositionStep(g, last, tail);
      assert Position(g, last, tail) == Room(g) + Position(g, k, tail);
    }
  }

  lemma PlacedStays(g: Config, t: Trail, t': Trail, seen: seq<Seen>)
    requires POINTER_SIZE < g.cellSize && AllPlaced(g, t, seen) && t.cells <= t'.cells
    ensures AllPlaced(g, t', seen)
  {
    hide Base, Position, Length;
    forall i | 0 <= i < |seen|
      ensures PlacedAt(g, t', seen[i], Length(seen[..i]))
    {
      assert PlacedAt(g, t, seen[i], Length(seen[..i]));
    }
  }

  lemma PlacedOneMore(g: Config, t: Trail, seen: seq<Seen>, e: Seen)
    requires POINTER_SIZE < g.cellSize && AllPlaced(g, t, seen) && PlacedAt(g, t, e, Length(seen))
    ensures AllPlaced(g, t, seen + [e]) && Length(seen + [e]) == Length(seen) + |e.record|
    ensures Packets(seen + [e]) == Packets(seen) + [e.packet]
  {
    hide PlacedAt;
    var seen' := seen + [e];
    assert seen'[..|seen|] == seen;
    forall i | 0 <= i < |seen'|
      ensures PlacedAt(g, t, seen'[i], Length(seen'[..i]))
    {
      if i < |seen| { assert seen'[..i] == seen[..i] && seen'[i] == seen[i]; }
    }
  }

  /** The new packet stands at the end of the log. */
  lemma NewPlaced(g: Config, l: F.Limits, s: Capture, x: Incoming)
    requires Inv(g, l, s) && Accepts(g, l, s, x)
    ensures PlacedAt(g, CellLog.Step(g, s.trail, ArrivalOf(x)), SeenOf(g, s, x), Length(s.seen))
  {
    hide Base, Distinct, Position, Length, Enc, F.Placed, F.Run, F.Bounded, AllPlaced;
    StepExtends(g, s.trail, ArrivalOf(x), 0);
    RecordStarts(g, s.trail, ArrivalOf(x), Enc(F.END, 4));
  }

  lemma RecordStarts(g: Config, t: Trail, p: Arrival, link: seq<Byte>)
    requires POINTER_SIZE < g.cellSize && |p.header| == g.headerLen && link <= p.header
    ensures link <= RecordOf(g, t, p)
  {
  }

  lemma PositionAfter(g: Config, t: Trail, p: Arrival)
    requires Feasible(g, t, p)
    ensures var t' := CellLog.Step(g, t, p);
            Position(g, |t'.full|, |t'.tail|) == Position(g, |t.full|, |t.tail|) + Total(p)
  {
    hide Distinct, Base, Enc, Record;
    PositionStep(g, |t.full| + 1, 0);
  }

  /** A new offset keeps the placement of packets; the aggregator and the index do what the chain model says. */
  lemma ChainStep(g: Config, l: F.Limits, s: Capture, x: Incoming)
    requires Inv(g, l, s) && Accepts(g, l, s, x)
    requires forall i :: 0 <= i < |s.seen| ==> s.seen[i].packet.offset != Offset(g, s.trail)
    ensures var ps, p := Packets(s.seen), PacketOf(g, s, x);
            && F.Placed(l, ps + [p]) && F.Run(l, ps + [p]) == F.Step(l, F.Run(l, ps), p)
            && F.Run(l, ps + [p]).agg == Step(g, l, s, x).agg && F.Run(l, ps + [p]).index == Step(g, l, s, x).index
  {
    hide Valid, AllPlaced, Base, F.Breaks, F.CalDiff, Enc, Patch, CellLog.Step, Feasible, Position, Length;
    var ps, p := Packets(s.seen), PacketOf(g, s, x);
    assert (ps + [p])[..|ps|] == ps;
    assert forall i :: 0 <= i < |ps| ==> ps[i].offset == s.seen[i].packet.offset;
    PlaceInside2(g, s.trail);
  }

  lemma LandedStep(g: Config, l: F.Limits, s: Capture, x: Incoming)
    requires Inv(g, l, s) && Accepts(g, l, s, x)
    ensures LandedRight(l, Step(g, l, s, x).landed, F.Step(l, F.Run(l, Packets(s.seen)), PacketOf(g, s, x)).next)
  {
    hide Valid, AllPlaced, Base, F.Breaks, F.CalDiff, F.Truncate32, Enc, Patch, CellLog.Step, Feasible, Position, Length,
         F.Run, F.Placed;
    Accepted(g, l, s, x);
    PlaceInside2(g, s.trail);
    if x.flow in s.agg {
      F.LastFree(l, Packets(s.seen), x.flow);
    }
    F.BreaksUnknown(l, s.agg, PacketOf(g, s, x));
  }

  lemma PlaceInside2(g: Config, t: Trail)
    requires Valid(g, t)
    ensures Offset(g, t) < g.diskSize
  {
    hide Base, Distinct;
    PlaceInside(g, Current(t), |t.tail|);
  }

  lemma NewOffset(g: Config, l: F.Limits, s: Capture, x: Incoming)
    requires Inv(g, l, s) && Accepts(g, l, s, x)
    ensures forall i :: 0 <= i < |s.seen| ==> s.seen[i].packet.offset != Offset(g, s.trail)
  {
    hide Base, Distinct, Position, Length, PlacedAt, F.Placed, F.Run, F.Bounded, Feasible, RecordOf;
    Accepted(g, l, s, x);
    var t := CellLog.Step(g, s.trail, ArrivalOf(x));
    StepExtends(g, s.trail, ArrivalOf(x), 0);
    PlacedStays(g, s.trail, t, s.seen);
    NewPlaced(g, l, s, x);
    var seen := s.seen + [SeenOf(g, s, x)];
    PlacedOneMore(g, t, s.seen, SeenOf(g, s, x));
    forall i | 0 <= i < |s.seen|
      ensures s.seen[i].packet.offset != Offset(g, s.trail)
    {
      OffsetsDiffer(g, t, seen, i, |s.seen|);
    }
  }

  /** Cells, full cells and lengths are the same in the patched trail. */
  lemma StepShape(g: Config, l: F.Limits, s: Capture, x: Incoming)
    requires Inv(g, l, s) && Accepts(g, l, s, x)
    ensures var t, t' := CellLog.Step(g, s.trail, ArrivalOf(x)), Step(g, l, s, x).trail;
            && Valid(g, t) && Valid(g, t') && t'.cells == t.cells && |t'.full| == |t.full| && |t'.tail| == |t.tail|
            && s.trail.cells <= t.cells
  {
    hide Base, Distinct, AllPlaced, F.Placed, F.Run, F.Breaks, Feasible, RecordOf, Valid, Patch, CellLog.Step;
    Accepted(g, l, s, x);
    var t := CellLog.Step(g, s.trail, ArrivalOf(x));
    StepExtends(g, s.trail, ArrivalOf(x), 0);
    if !F.Breaks(l, s.agg, PacketOf(g, s, x)) {
      FlowKnown(l, s.agg, PacketOf(g, s, x));
      PatchValid(g, t, s.agg[x.flow].lastOffset, Enc(LinkOf(g, l, s, x), 4));
      PatchShape(g, t, s.agg[x.flow].lastOffset, Enc(LinkOf(g, l, s, x), 4));
    }
  }

  lemma FlowKnown(l: F.Limits, agg: F.AggMap, p: F.Packet)
    requires !F.Breaks(l, agg, p)
    ensures p.flow in agg
  {
  }

  /** What holds of every capture, whether or not links have hit pointers: where each packet stands, and that aggregator
      and index are those of the chain model on the reported offsets. */
  lemma StepInv(g: Config, l: F.Limits, s: Capture, x: Incoming)
    requires Inv(g, l, s) && Accepts(g, l, s, x)
    ensures Inv(g, l, Step(g, l, s, x))
  {
    hide Base, Distinct, Position, Length, PlacedAt, AllPlaced, F.Placed, F.Run, F.Breaks, Feasible, RecordOf, Valid, Patch,
         CellLog.Step, F.Bounded, Packets;
    Accepted(g, l, s, x);
    var t, s', e := CellLog.Step(g, s.trail, ArrivalOf(x)), Step(g, l, s, x), SeenOf(g, s, x);
    StepShape(g, l, s, x);
    NewOffset(g, l, s, x);
    ChainStep(g, l, s, x);
    LandedStep(g, l, s, x);
    NewPlaced(g, l, s, x);
    PlacedStays(g, s.trail, t, s.seen);
    PlacedOneMore(g, t, s.seen, e);
    PlacedStays(g, t, s'.trail, s.seen + [e]);
    PositionAfter(g, s.trail, ArrivalOf(x));
  }

  lemma StartInv(g: Config, l: F.Limits, first: nat)
    requires Ready(g, l, first)
    ensures Inv(g, l, Start(first))
  {
    StartValid(g, first);
  }

  lemma {:induction false} RunInv(g: Config, l: F.Limits, first: nat, xs: seq<Incoming>)
    requires Ready(g, l, first) && Run(g, l, first, xs).Some?
    ensures Inv(g, l, Run(g, l, first, xs).value)
  {
    hide Inv, Accepts, Step;
    if xs == [] {
      StartInv(g, l, first);
    } else {
      RunInv(g, l, first, xs[..|xs| - 1]);
      StepInv(g, l, Run(g, l, first, xs[..|xs| - 1]).value, xs[|xs| - 1]);
    }
  }

  /** The packet a flow was last seen with. */
  lemma LastOne(g: Config, l: F.Limits, s: Capture, f: F.FlowMetadata) returns (j: nat)
    requires Inv(g, l, s) && f in s.agg
    ensures j < |s.seen| && s.seen[j].packet.flow == f && s.seen[j].packet.offset == s.agg[f].lastOffset
  {
    hide AllPlaced, Valid, Position, Length, F.Run, F.Placed, LandedRight;
    j := F.LastSeen(l, Packets(s.seen), f);
  }

  ghost function Next(l: F.Limits, s: Capture): map<nat, nat>
    requires F.Placed(l, Packets(s.seen))
  {
    F.Run(l, Packets(s.seen)).next
  }

  // ----- the log with its links

  /** What the log holds of a record: the link that landed on it, as far as it falls before the pointer, then the rest. */
  function LinkedRecord(g: Config, e: Seen, landed: map<nat, U32>): seq<Byte>
    requires POINTER_SIZE < g.cellSize
  {
    if |e.record| < 4 || e.within > Room(g) || e.packet.offset !in landed then e.record
    else
      var cut := InRoom(g, e.within, Enc(landed[e.packet.offset], 4));
      cut + e.record[|cut|..]
  }

  function Joined(g: Config, seen: seq<Seen>, landed: map<nat, U32>): seq<Byte>
    requires POINTER_SIZE < g.cellSize
  {
    if seen == [] then []
    else
      var n := |seen| - 1;
      Joined(g, seen[..n], landed) + LinkedRecord(g, seen[n], landed)
  }

  ghost predicate SameAt(landed: map<nat, U32>, landed': map<nat, U32>, o: nat) {
    (o in landed <==> o in landed') && (o in landed ==> landed'[o] == landed[o])
  }

  lemma {:induction false} JoinedLength(g: Config, seen: seq<Seen>, landed: map<nat, U32>)
    requires POINTER_SIZE < g.cellSize
    ensures |Joined(g, seen, landed)| == Length(seen)
  {
    hide Enc;
    if seen != [] {
      JoinedLength(g, seen[..|seen| - 1], landed);
    }
  }

  lemma {:induction false} JoinedKept(g: Config, seen: seq<Seen>, landed: map<nat, U32>, landed': map<nat, U32>)
    requires POINTER_SIZE < g.cellSize && forall i :: 0 <= i < |seen| ==> SameAt(landed, landed', seen[i].packet.offset)
    ensures Joined(g, seen, landed') == Joined(g, seen, landed)
  {
    hide Enc, InRoom;
    if seen != [] {
      JoinedKept(g, seen[..|seen| - 1], landed, landed');
      assert SameAt(landed, landed', seen[|seen| - 1].packet.offset);
    }
  }

  lemma LinkChanged(g: Config, e: Seen, landed: map<nat, U32>, o: nat, v: U32)
    requires POINTER_SIZE < g.cellSize && |e.record| >= 4 && e.within <= Room(g)
    ensures |InRoom(g, e.within, Enc(v, 4))| <= 4 <= |LinkedRecord(g, e, landed)| == |e.record|
    ensures LinkedRecord(g, e, landed[o := v])
         == if e.packet.offset == o then WithLink(LinkedRecord(g, e, landed), 0, InRoom(g, e.within, Enc(v, 4)))
            else LinkedRecord(g, e, landed)
  {
    hide Enc;
    var cut := InRoom(g, e.within, Enc(v, 4));
    assert e.packet.offset == o ==> cut + e.record[|cut|..] == WithLink(LinkedRecord(g, e, landed), 0, cut);
  }

  /** Changing the link of one packet changes the log at its place, by the part that falls before the pointer. */
  lemma {:induction false} JoinedUpdate(g: Config, seen: seq<Seen>, landed: map<nat, U32>, j: nat, v: U32)
    requires POINTER_SIZE < g.cellSize && j < |seen|
    requires forall i :: 0 <= i < |seen| ==> |seen[i].record| >= 4 && seen[i].within <= Room(g)
    requires forall i :: 0 <= i < |seen| && i != j ==> seen[i].packet.offset != seen[j].packet.offset
    ensures var cut := InRoom(g, seen[j].within, Enc(v, 4));
            && Length(seen[..j]) + |cut| <= |Joined(g, seen, landed)|
            && Joined(g, seen, landed[seen[j].packet.offset := v]) == WithLink(Joined(g, seen, landed), Length(seen[..j]), cut)
  {
    hide Enc, LinkedRecord, WithLink, Length, InRoom;
    var n, o := |seen| - 1, seen[j].packet.offset;
    var before, last := Joined(g, seen[..n], landed), LinkedRecord(g, seen[n], landed);
    var cut := InRoom(g, seen[j].within, Enc(v, 4));
    LinkChanged(g, seen[n], landed, o, v);
    if j == n {
      JoinedLength(g, seen[..n], landed);
      JoinedKept(g, seen[..n], landed, landed[o := v]);
      LinkRight(before, last, 0, cut);
    } else {
      assert seen[..n][..j] == seen[..j];
      JoinedUpdate(g, seen[..n], landed, j, v);
      LinkLeft(before, last, Length(seen[..j]), cut);
    }
  }

  // ----- the pointers behind the records

  /** What stands in the last eight bytes of the cell a record goes on from: the number of the next cell, with what fell
      on it of a link to a header that reaches over the end of the room. */
  function PointerBytes(g: Config, e: Seen, next: nat, landed: map<nat, U32>): seq<Byte>
    requires POINTER_SIZE < g.cellSize
  {
    if e.packet.offset in landed && Room(g) - 4 < e.within <= Room(g)
    then Enc(landed[e.packet.offset], 4)[Room(g) - e.within..] + Enc(next, POINTER_SIZE)[e.within + 4 - Room(g)..]
    else Enc(next, POINTER_SIZE)
  }

  ghost predicate PointerStands(g: Config, t: Trail, e: Seen, landed: map<nat, U32>)
    requires POINTER_SIZE < g.cellSize
  {
    e.within + |e.record| > Room(g) ==>
      && e.cell < |t.full| && e.cell + 1 < |t.cells| && |t.full[e.cell]| == g.cellSize
      && t.full[e.cell][Room(g)..] == PointerBytes(g, e, t.cells[e.cell + 1], landed)
  }

  ghost predicate AllPointers(g: Config, t: Trail, seen: seq<Seen>, landed: map<nat, U32>)
    requires POINTER_SIZE < g.cellSize
  {
    forall i :: 0 <= i < |seen| ==> PointerStands(g, t, seen[i], landed)
  }

  /** The cells hold the records in order with the links that landed, and behind each record that goes on the pointer. */
  ghost predicate DiskExact(g: Config, l: F.Limits, s: Capture)
    requires Inv(g, l, s)
  {
    LogFrom(g, s.trail, 0) == Joined(g, s.seen, s.landed) && AllPointers(g, s.trail, s.seen, s.landed)
  }

  // ----- writing a packet

  lemma WriteLog(g: Config, l: F.Limits, s: Capture, x: Incoming)
    requires Inv(g, l, s) && Accepts(g, l, s, x) && DiskExact(g, l, s)
    ensures var t, o := CellLog.Step(g, s.trail, ArrivalOf(x)), Offset(g, s.trail);
            Valid(g, t) && LogFrom(g, t, 0) == Joined(g, s.seen + [SeenOf(g, s, x)], s.landed - {o as nat})
  {
    hide Valid, AllPlaced, Base, Position, Length, Patch, CellLog.Step, F.Placed, F.Run, Feasible, Enc, RecordOf, LogFrom,
         F.Bounded, Packets, AllPointers, LandedRight, InRoom;
    Accepted(g, l, s, x);
    var e, landed := SeenOf(g, s, x), s.landed - {Offset(g, s.trail) as nat};
    NewOffset(g, l, s, x);
    StepExtends(g, s.trail, ArrivalOf(x), 0);
    JoinedKept(g, s.seen, s.landed, landed);
    assert (s.seen + [e])[..|s.seen|] == s.seen;
  }

  lemma WriteOnePointer(g: Config, s: Capture, x: Incoming)
    requires Feasible(g, s.trail, ArrivalOf(x)) && POINTER_SIZE < g.cellSize
    ensures var t, e := CellLog.Step(g, s.trail, ArrivalOf(x)), SeenOf(g, s, x);
            forall landed: map<nat, U32> :: e.packet.offset !in landed ==> PointerStands(g, t, e, landed)
  {
    hide Enc, Distinct, Base, Record;
    var t, e := CellLog.Step(g, s.trail, ArrivalOf(x)), SeenOf(g, s, x);
    if e.within + |e.record| > Room(g) {
      var c := t.full[e.cell];
      assert c == (s.trail.tail + e.record[..Room(g) - |s.trail.tail|]) + Enc(x.nextCell, POINTER_SIZE);
      assert c[Room(g)..] == Enc(x.nextCell, POINTER_SIZE);
    }
  }

  lemma CellsKept(g: Config, t: Trail, p: Arrival, k: nat)
    requires Feasible(g, t, p) && k < |t.full|
    ensures var t' := CellLog.Step(g, t, p);
            k < |t'.full| && t'.full[k] == t.full[k] && t.cells <= t'.cells
  {
    hide Enc, Distinct, Base, Record;
  }

  lemma WritePointers(g: Config, l: F.Limits, s: Capture, x: Incoming)
    requires Inv(g, l, s) && Accepts(g, l, s, x) && AllPointers(g, s.trail, s.seen, s.landed)
    ensures var t, o := CellLog.Step(g, s.trail, ArrivalOf(x)), Offset(g, s.trail);
            AllPointers(g, t, s.seen + [SeenOf(g, s, x)], s.landed - {o as nat})
  {
    hide Valid, AllPlaced, Base, Position, Length, CellLog.Step, F.Placed, F.Run, Feasible, Enc, RecordOf, F.Bounded, LandedRight,
         PointerBytes;
    Accepted(g, l, s, x);
    var t, e, o := CellLog.Step(g, s.trail, ArrivalOf(x)), SeenOf(g, s, x), Offset(g, s.trail);
    var landed := s.landed - {o as nat};
    NewOffset(g, l, s, x);
    WriteOnePointer(g, s, x);
    forall i | 0 <= i < |s.seen| + 1
      ensures PointerStands(g, t, (s.seen + [e])[i], landed)
    {
      if i < |s.seen| {
        assert PointerStands(g, s.trail, s.seen[i], s.landed);
        if s.seen[i].within + |s.seen[i].record| > Room(g) {
          CellsKept(g, s.trail, ArrivalOf(x), s.seen[i].cell);
          SamePointer(g, s.seen[i], t.cells[s.seen[i].cell + 1], s.landed, landed);
        }
      }
    }
  }

  lemma SamePointer(g: Config, e: Seen, next: nat, landed: map<nat, U32>, landed': map<nat, U32>)
    requires POINTER_SIZE < g.cellSize && SameAt(landed, landed', e.packet.offset)
    ensures PointerBytes(g, e, next, landed') == PointerBytes(g, e, next, landed)
  {
  }

  // ----- landing a link

  lemma TrailSizes(g: Config, t: Trail)
    requires Valid(g, t)
    ensures POINTER_SIZE < g.cellSize && |t.cells| == |t.full| + 1 && |t.tail| <= Room(g)
  {
  }

  lemma PlacesOf(g: Config, t: Trail, seen: seq<Seen>)
    requires Valid(g, t) && AllPlaced(g, t, seen)
    ensures forall i :: 0 <= i < |seen| ==> |seen[i].record| >= 4 && seen[i].within <= Room(g)
    ensures forall i, j :: 0 <= i < |seen| && 0 <= j < |seen| && i != j ==> seen[i].packet.offset != seen[j].packet.offset
  {
    hide Base, Position, Length, Enc, Valid;
    TrailSizes(g, t);
    forall i | 0 <= i < |seen|
      ensures |seen[i].record| >= 4 && seen[i].within <= Room(g)
    {
      assert PlacedAt(g, t, seen[i], Length(seen[..i]));
    }
    forall i, j | 0 <= i < |seen| && 0 <= j < |seen| && i != j
      ensures seen[i].packet.offset != seen[j].packet.offset
    {
      OffsetsDiffer(g, t, seen, if i < j then i else j, if i < j then j else i);
    }
  }

  lemma InLog(g: Config, t: Trail, k: nat, w: nat)
    requires Valid(g, t) && k <= |t.full| && Position(g, k, w) + 4 <= |LogFrom(g, t, 0)|
    ensures k == |t.full| ==> w + 4 <= |t.tail|
  {
    hide Distinct, Base;
    LogLength(g, t, 0);
  }

  /** A link that lands on a packet changes the log by the part before the pointer. */
  lemma LandLog(g: Config, t: Trail, seen: seq<Seen>, landed: map<nat, U32>, j: nat, v: U32)
    requires Valid(g, t) && AllPlaced(g, t, seen) && j < |seen| && LogFrom(g, t, 0) == Joined(g, seen, landed)
    ensures var o := seen[j].packet.offset;
            var t' := Patch(g, t, o, Enc(v, 4));
            Valid(g, t') && LogFrom(g, t', 0) == Joined(g, seen, landed[o as nat := v])
  {
    hide Valid, Base, Position, Length, Patch, Enc, LogFrom, InRoom;
    var e, o := seen[j], seen[j].packet.offset;
    TrailSizes(g, t);
    PlacesOf(g, t, seen);
    assert PlacedAt(g, t, e, Length(seen[..j]));
    JoinedUpdate(g, seen, landed, j, v);
    JoinedLength(g, seen, landed);
    LengthPrefix(seen, j, |seen|);
    assert seen[..|seen|] == seen;
    InLog(g, t, e.cell, e.within);
    PatchLog(g, t, e.cell, e.within, Enc(v, 4), 0);
    PatchValid(g, t, o, Enc(v, 4));
  }

  /** Of two packets in one cell, the one whose record goes on stands behind the other, whose header then ends in the room. */
  lemma OneCrosses(g: Config, t: Trail, seen: seq<Seen>, i: nat, j: nat)
    requires Valid(g, t) && AllPlaced(g, t, seen) && i < |seen| && j < |seen| && i != j
    requires seen[i].cell == seen[j].cell && seen[i].within + |seen[i].record| > Room(g)
    ensures seen[j].within + 4 <= seen[i].within <= Room(g)
  {
    hide Base, Distinct, Enc, Length;
    assert PlacedAt(g, t, seen[i], Length(seen[..i])) && PlacedAt(g, t, seen[j], Length(seen[..j]));
    LengthPrefix(seen, if i < j then i else j, if i < j then j else i);
  }

  /** The pointer of the cell that packet i goes on from, after a link has landed on packet j. */
  lemma LandPointer(g: Config, t: Trail, seen: seq<Seen>, landed: map<nat, U32>, j: nat, v: U32, i: nat)
    requires Valid(g, t) && AllPlaced(g, t, seen) && j < |seen| && i < |seen| && PointerStands(g, t, seen[i], landed)
    ensures PointerStands(g, Patch(g, t, seen[j].packet.offset, Enc(v, 4)), seen[i], landed[seen[j].packet.offset as nat := v])
  {
    hide Valid, Base, Position, Length, Patch, Enc;
    var e, o := seen[i], seen[j].packet.offset;
    TrailSizes(g, t);
    PlacesOf(g, t, seen);
    assert PlacedAt(g, t, seen[j], Length(seen[..j])) && PlacedAt(g, t, e, Length(seen[..i]));
    PatchShape(g, t, o, Enc(v, 4));
    if e.within + |e.record| > Room(g) {
      var k, w, diff := e.cell, seen[j].within, Enc(v, 4);
      if seen[j].cell != k {
        OtherCells(g, t, seen[j].cell, w, diff, k);
      } else {
        PatchHere(g, t, k, w, diff);
        if i != j {
          OneCrosses(g, t, seen, i, j);
        }
        BehindLink(g, t.full[k], w, diff);
      }
    }
  }

  /** The last eight bytes of a cell after a link at a place of it. */
  lemma BehindLink(g: Config, c: seq<Byte>, w: nat, diff: seq<Byte>)
    requires POINTER_SIZE < g.cellSize == |c| && w <= Room(g) && |diff| == 4
    ensures w + 4 <= Room(g) ==> WithLink(c, w, diff)[Room(g)..] == c[Room(g)..]
    ensures w + 4 > Room(g) ==>
              WithLink(c, w, diff)[Room(g)..] == diff[Room(g) - w..] + c[Room(g)..][w + 4 - Room(g)..]
  {
  }

  lemma StepDisk(g: Config, l: F.Limits, s: Capture, x: Incoming)
    requires Inv(g, l, s) && Accepts(g, l, s, x) && DiskExact(g, l, s)
    ensures Inv(g, l, Step(g, l, s, x)) && DiskExact(g, l, Step(g, l, s, x))
  {
    hide Valid, AllPlaced, Base, Position, Length, Patch, CellLog.Step, F.Placed, F.Run, Feasible, Enc, RecordOf, LogFrom,
         F.Bounded, F.Breaks, Packets, Joined, LandedRight, PointerStands, LinkOf;
    Accepted(g, l, s, x);
    StepInv(g, l, s, x);
    WriteLog(g, l, s, x);
    WritePointers(g, l, s, x);
    if !F.Breaks(l, s.agg, PacketOf(g, s, x)) && x.taken {
      FlowKnown(l, s.agg, PacketOf(g, s, x));
      var t, seen := CellLog.Step(g, s.trail, ArrivalOf(x)), s.seen + [SeenOf(g, s, x)];
      var landed, v := s.landed - {Offset(g, s.trail) as nat}, LinkOf(g, l, s, x);
      var j := LastOne(g, l, s, x.flow);
      WritePlaced(g, l, s, x);
      LandLog(g, t, seen, landed, j, v);
      TrailSizes(g, t);
      forall i | 0 <= i < |seen|
        ensures PointerStands(g, Patch(g, t, seen[j].packet.offset, Enc(v, 4)), seen[i], landed[seen[j].packet.offset as nat := v])
      {
        LandPointer(g, t, seen, landed, j, v, i);
      }
    }
  }

  lemma WritePlaced(g: Config, l: F.Limits, s: Capture, x: Incoming)
    requires Inv(g, l, s) && Accepts(g, l, s, x)
    ensures var t, seen := CellLog.Step(g, s.trail, ArrivalOf(x)), s.seen + [SeenOf(g, s, x)];
            Valid(g, t) && AllPlaced(g, t, seen)
  {
    hide Base, Distinct, Position, Length, PlacedAt, AllPlaced, F.Placed, F.Run, Feasible, RecordOf, Valid, CellLog.Step, F.Bounded;
    Accepted(g, l, s, x);
    StepExtends(g, s.trail, ArrivalOf(x), 0);
    NewPlaced(g, l, s, x);
    PlacedStays(g, s.trail, CellLog.Step(g, s.trail, ArrivalOf(x)), s.seen);
    PlacedOneMore(g, CellLog.Step(g, s.trail, ArrivalOf(x)), s.seen, SeenOf(g, s, x));
  }

  // ----- runs

  /** Over any run, whatever the links hit: the cells hold the records in order, each with the part of its link that falls
      before the pointer, and behind each record that goes on its pointer, with what fell on it. */
  lemma {:induction false} RunDisk(g: Config, l: F.Limits, first: nat, xs: seq<Incoming>)
    requires Ready(g, l, first) && Run(g, l, first, xs).Some?
    ensures Inv(g, l, Run(g, l, first, xs).value) && DiskExact(g, l, Run(g, l, first, xs).value)
  {
    hide Inv, Accepts, Step;
    if xs == [] {
      StartInv(g, l, first);
      StartDisk(g, l, first);
    } else {
      RunDisk(g, l, first, xs[..|xs| - 1]);
      StepDisk(g, l, Run(g, l, first, xs[..|xs| - 1]).value, xs[|xs| - 1]);
    }
  }

  lemma StartDisk(g: Config, l: F.Limits, first: nat)
    requires Ready(g, l, first) && Inv(g, l, Start(first))
    ensures DiskExact(g, l, Start(first))
  {
  }

  ghost predicate Describes(g: Config, e: Seen, x: Incoming) {
    && POINTER_SIZE < g.cellSize && |ArrivalOf(x).header| == g.headerLen
    && e.packet.flow == x.flow && e.packet.ts == x.ts
    && e.record == Record(g, e.within, ArrivalOf(x).header, x.data)
  }

  lemma {:induction false} RunSeen(g: Config, l: F.Limits, first: nat, xs: seq<Incoming>)
    requires Run(g, l, first, xs).Some?
    ensures var seen := Run(g, l, first, xs).value.seen;
            |seen| == |xs| && forall i :: 0 <= i < |xs| ==> Describes(g, seen[i], xs[i])
  {
    hide Accepts, Record;
    if xs != [] {
      RunSeen(g, l, first, xs[..|xs| - 1]);
      SeenStep(g, l, Run(g, l, first, xs[..|xs| - 1]).value, xs[|xs| - 1]);
    }
  }

  lemma SeenStep(g: Config, l: F.Limits, s: Capture, x: Incoming)
    requires Accepts(g, l, s, x)
    ensures Valid(g, s.trail) && |ArrivalOf(x).header| == g.headerLen
    ensures Step(g, l, s, x).seen == s.seen + [SeenOf(g, s, x)] && Describes(g, SeenOf(g, s, x), x)
  {
    hide Record, Valid, F.Breaks, Enc;
    Accepted(g, l, s, x);
  }

  lemma DescribedFlow(g: Config, e: Seen, x: Incoming)
    requires Describes(g, e, x)
    ensures e.packet.flow == x.flow
  {
  }

  // ----- reading records

  lemma {:induction false} JoinedAt(g: Config, seen: seq<Seen>, landed: map<nat, U32>, i: nat)
    requires POINTER_SIZE < g.cellSize && i < |seen|
    ensures var at, r := Length(seen[..i]), LinkedRecord(g, seen[i], landed);
            at + |r| <= |Joined(g, seen, landed)| && Joined(g, seen, landed)[at..at + |r|] == r
  {
    hide LinkedRecord, Length;
    var n := |seen| - 1;
    var before, last := Joined(g, seen[..n], landed), LinkedRecord(g, seen[n], landed);
    JoinedLength(g, seen[..n], landed);
    if i < n {
      JoinedAt(g, seen[..n], landed, i);
      assert seen[..n][..i] == seen[..i] && seen[..n][i] == seen[i];
      SliceOfFront(before, last, Length(seen[..i]), |LinkedRecord(g, seen[i], landed)|);
    } else {
      SliceOfEnd(before, last);
    }
  }

  lemma SliceOfEnd(a: seq<Byte>, b: seq<Byte>)
    ensures (a + b)[|a|..|a| + |b|] == b
  {
  }

  lemma SliceOfFront(a: seq<Byte>, b: seq<Byte>, at: nat, n: nat)
    requires at + n <= |a|
    ensures (a + b)[at..at + n] == a[at..at + n]
  {
  }

  lemma DiskParts(g: Config, l: F.Limits, s: Capture)
    requires Inv(g, l, s) && DiskExact(g, l, s)
    ensures Valid(g, s.trail) && F.Placed(l, Packets(s.seen)) && AllPlaced(g, s.trail, s.seen)
    ensures |s.trail.cells| == |s.trail.full| + 1 && POINTER_SIZE < g.cellSize && |s.trail.tail| <= Room(g)
    ensures LogFrom(g, s.trail, 0) == Joined(g, s.seen, s.landed) && AllPointers(g, s.trail, s.seen, s.landed)
    ensures LandedRight(l, s.landed, Next(l, s)) && l.diskSize == g.diskSize
  {
    hide F.Run, F.Placed, AllPlaced, AllPointers, LandedRight, Joined, LogFrom, Position, Length;
  }

  /** A record that ends in its cell. */
  ghost predicate Whole(g: Config, t: Trail, e: Seen, r: seq<Byte>)
    requires POINTER_SIZE < g.cellSize && e.cell <= |t.full|
  {
    e.within + |r| <= |Raw(t, e.cell)| && Raw(t, e.cell)[e.within..e.within + |r|] == r
  }

  /** A record that goes on in the next cell. */
  ghost predicate Split(g: Config, t: Trail, e: Seen, r: seq<Byte>)
    requires POINTER_SIZE < g.cellSize && e.cell <= |t.full| && e.within <= Room(g) < e.within + |r|
  {
    var n := Room(g) - e.within;
    && e.cell < |t.full| && |t.full[e.cell]| == g.cellSize && t.full[e.cell][e.within..Room(g)] == r[..n]
    && |r| - n <= |Raw(t, e.cell + 1)| && Raw(t, e.cell + 1)[0..|r| - n] == r[n..]
  }

  /** The pieces of a record, in its cell and, when it goes on, in the next one. */
  ghost predicate Stands(g: Config, t: Trail, e: Seen, r: seq<Byte>)
    requires POINTER_SIZE < g.cellSize
  {
    && e.within <= Room(g) && e.cell <= |t.full| && 4 <= |r| <= 2 * Room(g) - e.within
    && (if e.within + |r| <= Room(g) then Whole(g, t, e, r) else Split(g, t, e, r))
  }

  lemma PiecesOf(g: Config, l: F.Limits, s: Capture, i: nat)
    requires Inv(g, l, s) && DiskExact(g, l, s) && i < |s.seen| && POINTER_SIZE < g.cellSize
    ensures var e, t := s.seen[i], s.trail;
            var r := LinkedRecord(g, e, s.landed);
            PlacedAt(g, t, e, Length(s.seen[..i])) && |r| == |e.record| && Stands(g, t, e, r)
  {
    hide Inv, DiskExact, Base, Position, Length, LogFrom, Joined, Enc, LinkedRecord, Valid, AllPointers, LandedRight, Stands;
    DiskParts(g, l, s);
    PlaceBefore(g, l, s, i);
    JoinedAt(g, s.seen, s.landed, i);
    LinkedLength(g, s.seen[i], s.landed);
    InCells(g, s.trail, s.seen[i], LinkedRecord(g, s.seen[i], s.landed));
  }

  /** What stands in the log stands in its cells. */
  lemma InCells(g: Config, t: Trail, e: Seen, r: seq<Byte>)
    requires Valid(g, t) && e.within <= Room(g) && e.cell <= |t.full| && 4 <= |r| <= 2 * Room(g) - e.within
    requires e.cell == |t.full| ==> e.within + |r| <= |t.tail|
    requires e.within + |r| > Room(g) ==>
               e.cell < |t.full| && (e.cell + 1 == |t.full| ==> e.within + |r| - Room(g) <= |t.tail|)
    requires var at := Position(g, e.cell, e.within);
             at + |r| <= |LogFrom(g, t, 0)| && LogFrom(g, t, 0)[at..at + |r|] == r
    ensures Stands(g, t, e, r)
  {
    hide Base, Valid, Position, LogFrom, Whole, Split;
    TrailSizes(g, t);
    if e.within + |r| <= Room(g) {
      InOneCell(g, t, e, r);
    } else {
      InBothCells(g, t, e, r);
    }
  }

  lemma InOneCell(g: Config, t: Trail, e: Seen, r: seq<Byte>)
    requires Valid(g, t) && e.cell <= |t.full| && e.within + |r| <= Room(g)
    requires e.cell == |t.full| ==> e.within + |r| <= |t.tail|
    requires var at := Position(g, e.cell, e.within);
             at + |r| <= |LogFrom(g, t, 0)| && LogFrom(g, t, 0)[at..at + |r|] == r
    ensures Whole(g, t, e, r)
  {
    hide Base, Valid, Position, LogFrom;
    TrailSizes(g, t);
    LogInCell(g, t, e.cell, e.within, |r|);
  }

  lemma InBothCells(g: Config, t: Trail, e: Seen, r: seq<Byte>)
    requires Valid(g, t) && e.within <= Room(g) < e.within + |r| <= 2 * Room(g) && e.cell < |t.full|
    requires e.cell + 1 == |t.full| ==> e.within + |r| - Room(g) <= |t.tail|
    requires var at := Position(g, e.cell, e.within);
             at + |r| <= |LogFrom(g, t, 0)| && LogFrom(g, t, 0)[at..at + |r|] == r
    ensures Split(g, t, e, r)
  {
    hide Base, Valid, Position, LogFrom;
    TrailSizes(g, t);
    FullSizes(g, t);
    var n := Room(g) - e.within;
    LogInCell(g, t, e.cell, e.within, n);
    LogInCell(g, t, e.cell + 1, 0, |r| - n);
    NextCellStart(g, e.cell, e.within);
    TwoSlices(LogFrom(g, t, 0), Position(g, e.cell, e.within), n, |r|, r);
  }

  lemma NextCellStart(g: Config, k: nat, w: nat)
    requires POINTER_SIZE < g.cellSize && w <= Room(g)
    ensures Position(g, k + 1, 0) == Position(g, k, w) + (Room(g) - w)
  {
    PositionStep(g, k + 1, 0);
    PositionPlus(g, k, w);
    MulStep(k + 1, Room(g));
  }

  lemma TwoSlices(log: seq<Byte>, at: nat, n: nat, m: nat, r: seq<Byte>)
    requires n <= m == |r| && at + m <= |log| && log[at..at + m] == r
    ensures log[at..at + n] == r[..n] && log[at + n..at + n + (m - n)] == r[n..]
  {
    assert log[at..at + m][..n] == log[at..at + n] && log[at..at + m][n..] == log[at + n..at + m];
  }

  lemma LinkedLength(g: Config, e: Seen, landed: map<nat, U32>)
    requires POINTER_SIZE < g.cellSize
    ensures |LinkedRecord(g, e, landed)| == |e.record|
  {
    hide Enc;
  }

  lemma FullSizes(g: Config, t: Trail)
    requires Valid(g, t)
    ensures forall k :: 0 <= k < |t.full| ==> |t.full[k]| == g.cellSize
  {
  }

  lemma RawOnDisk(g: Config, d: seq<Byte>, t: Trail, k: nat)
    requires Valid(g, t) && OnDisk(g, d, t) && k <= |t.full|
    ensures At(d, Base(g, t.cells[k]), Raw(t, k))
  {
    hide At, Base, Distinct;
  }

  lemma RawRead(g: Config, d: seq<Byte>, t: Trail, k: nat, w: nat, n: nat)
    requires Valid(g, t) && OnDisk(g, d, t) && k <= |t.full| && w + n <= |Raw(t, k)|
    ensures Get(d, Base(g, t.cells[k]) + w, n) == Raw(t, k)[w..w + n]
  {
    hide At, Base, Distinct, OnDisk, Get;
    RawOnDisk(g, d, t, k);
    ReadInCell(d, Base(g, t.cells[k]), Raw(t, k), w, n);
  }

  /** The mark a record starts with, or the link that landed on it. */
  function Head(e: Seen, landed: map<nat, U32>): seq<Byte> {
    if e.packet.offset in landed then Enc(landed[e.packet.offset], 4) else Enc(F.END, 4)
  }

  /** For every packet of every run whose header ends its link before the pointer, or on which no link landed, and whatever
      became of the other packets: it stands at the sum of the earlier lengths, and reading on from its offset by the
      cell pointers gives its link and then the rest of what was written of it. */
  lemma RecordOnDisk(g: Config, l: F.Limits, first: nat, xs: seq<Incoming>, d: seq<Byte>, i: nat)
    requires Ready(g, l, first) && Run(g, l, first, xs).Some? && i < |xs|
    requires var t := Run(g, l, first, xs).value.trail;
             |t.cells| == |t.full| + 1 && OnDisk(g, d, t)
    ensures var s := Run(g, l, first, xs).value;
            && Inv(g, l, s) && |s.seen| == |xs| && Describes(g, s.seen[i], xs[i])
            && PlacedAt(g, s.trail, s.seen[i], Length(s.seen[..i]))
            && (s.seen[i].within + 4 <= Room(g) || s.seen[i].packet.offset !in s.landed ==>
                  ReadFrom(g, d, s.trail.cells[s.seen[i].cell], s.seen[i].within, |s.seen[i].record|)
                  == Head(s.seen[i], s.landed) + s.seen[i].record[4..])
  {
    hide Run, Inv, DiskExact, OnDisk, ReadFrom, Length, Position, Base, LinkedRecord, Describes, Enc, Distinct, Record, Head;
    RunDisk(g, l, first, xs);
    RunSeen(g, l, first, xs);
    var s := Run(g, l, first, xs).value;
    PiecesOf(g, l, s, i);
    if s.seen[i].within + 4 <= Room(g) || s.seen[i].packet.offset !in s.landed {
      ReadRecord(g, l, s, d, i);
    }
  }

  lemma ReadRecord(g: Config, l: F.Limits, s: Capture, d: seq<Byte>, i: nat)
    requires Inv(g, l, s) && DiskExact(g, l, s) && i < |s.seen|
    requires POINTER_SIZE < g.cellSize && s.seen[i].cell < |s.trail.cells| == |s.trail.full| + 1 && s.seen[i].within <= Room(g)
    requires OnDisk(g, d, s.trail) && (s.seen[i].within + 4 <= Room(g) || s.seen[i].packet.offset !in s.landed)
    ensures |s.seen[i].record| >= 4
    ensures ReadFrom(g, d, s.trail.cells[s.seen[i].cell], s.seen[i].within, |s.seen[i].record|)
         == Head(s.seen[i], s.landed) + s.seen[i].record[4..]
  {
    hide Inv, DiskExact, OnDisk, Length, Position, Base, LinkedRecord, Enc, Head, ReadFrom, Valid, AllPointers, Stands;
    DiskParts(g, l, s);
    PiecesOf(g, l, s, i);
    var e, r := s.seen[i], LinkedRecord(g, s.seen[i], s.landed);
    HeadOfRecord(g, e, s.landed);
    if e.within + |r| <= Room(g) {
      ReadOne(g, d, s.trail, e, r);
    } else {
      PointerBehind(g, s, i);
      ReadTwo(g, d, s.trail, e, r);
    }
  }

  lemma ReadOne(g: Config, d: seq<Byte>, t: Trail, e: Seen, r: seq<Byte>)
    requires Valid(g, t) && OnDisk(g, d, t) && Stands(g, t, e, r) && e.within + |r| <= Room(g)
    ensures ReadFrom(g, d, t.cells[e.cell], e.within, |r|) == r
  {
    hide OnDisk, Base, Valid, Get, ReadFrom;
    TrailSizes(g, t);
    RawRead(g, d, t, e.cell, e.within, |r|);
    ReadInside(g, d, t.cells[e.cell], e.within, |r|);
  }

  lemma ReadInside(g: Config, d: seq<Byte>, cell: nat, w: nat, n: nat)
    requires POINTER_SIZE < g.cellSize && w + n <= Room(g)
    ensures ReadFrom(g, d, cell, w, n) == Get(d, Base(g, cell) + w, n)
  {
  }

  /** Reading over the end of a cell, into the one its pointer names. */
  lemma ReadAcross(g: Config, d: seq<Byte>, cell: nat, w: nat, n: nat)
    requires POINTER_SIZE < g.cellSize && w <= Room(g) < w + n <= 2 * Room(g)
    ensures ReadFrom(g, d, cell, w, n)
         == Get(d, Base(g, cell) + w, Room(g) - w) + Get(d, Base(g, NextCell(g, d, cell)) + 0, n - (Room(g) - w))
  {
    hide Get, NextCell, Base;
  }

  lemma ReadTwo(g: Config, d: seq<Byte>, t: Trail, e: Seen, r: seq<Byte>)
    requires Valid(g, t) && OnDisk(g, d, t) && Stands(g, t, e, r) && e.within + |r| > Room(g)
    requires PointsTo(g, t.full[e.cell], t.cells[e.cell + 1])
    ensures ReadFrom(g, d, t.cells[e.cell], e.within, |r|) == r
  {
    hide OnDisk, Base, Valid, PointsTo, ReadFrom, Whole, Split, Raw;
    TrailSizes(g, t);
    SplitPieces(g, t, e, r);
    ReadPieces(g, d, t, e.cell, e.within, r);
  }

  lemma ReadPieces(g: Config, d: seq<Byte>, t: Trail, k: nat, w: nat, r: seq<Byte>)
    requires Valid(g, t) && OnDisk(g, d, t) && |t.cells| == |t.full| + 1 && k < |t.full|
    requires POINTER_SIZE < g.cellSize && w <= Room(g) < w + |r| <= 2 * Room(g) && PointsTo(g, t.full[k], t.cells[k + 1])
    requires var n := Room(g) - w;
             && w + n <= |Raw(t, k)| && Raw(t, k)[w..w + n] == r[..n]
             && |r| - n <= |Raw(t, k + 1)| && Raw(t, k + 1)[0..0 + (|r| - n)] == r[n..]
    ensures ReadFrom(g, d, t.cells[k], w, |r|) == r
  {
    hide OnDisk, Base, Valid, Get, NextCell, PointsTo, ReadFrom, Raw;
    var n := Room(g) - w;
    PointerRead(g, d, t, k);
    ReadAcross(g, d, t.cells[k], w, |r|);
    RawRead(g, d, t, k, w, n);
    RawRead(g, d, t, k + 1, 0, |r| - n);
    Halves(r, n, Get(d, Base(g, t.cells[k]) + w, n), Get(d, Base(g, t.cells[k + 1]) + 0, |r| - n));
  }

  lemma SplitPieces(g: Config, t: Trail, e: Seen, r: seq<Byte>)
    requires POINTER_SIZE < g.cellSize && Stands(g, t, e, r) && e.within + |r| > Room(g)
    ensures var n := Room(g) - e.within;
            && e.cell < |t.full| && 0 <= n <= |r| && e.within + |r| <= 2 * Room(g)
            && e.within + n <= |Raw(t, e.cell)| && Raw(t, e.cell)[e.within..e.within + n] == r[..n]
            && |r| - n <= |Raw(t, e.cell + 1)| && Raw(t, e.cell + 1)[0..0 + (|r| - n)] == r[n..]
  {
  }

  lemma Halves(r: seq<Byte>, n: nat, a: seq<Byte>, b: seq<Byte>)
    requires n <= |r| && a == r[..n] && b == r[n..]
    ensures a + b == r
  {
  }

  lemma PointerBehind(g: Config, s: Capture, i: nat)
    requires POINTER_SIZE < g.cellSize && AllPointers(g, s.trail, s.seen, s.landed) && i < |s.seen|
    requires s.seen[i].within + |s.seen[i].record| > Room(g)
    requires s.seen[i].within + 4 <= Room(g) || s.seen[i].packet.offset !in s.landed
    ensures s.seen[i].cell < |s.trail.full| && s.seen[i].cell + 1 < |s.trail.cells|
    ensures PointsTo(g, s.trail.full[s.seen[i].cell], s.trail.cells[s.seen[i].cell + 1])
  {
    hide Enc;
    assert PointerStands(g, s.trail, s.seen[i], s.landed);
  }

  lemma HeadOfRecord(g: Config, e: Seen, landed: map<nat, U32>)
    requires POINTER_SIZE < g.cellSize && e.within <= Room(g) && |e.record| >= 4 && e.record[..4] == Enc(F.END, 4)
    requires e.within + 4 <= Room(g) || e.packet.offset !in landed
    ensures LinkedRecord(g, e, landed) == Head(e, landed) + e.record[4..]
  {
    hide Enc;
    assert e.record == e.record[..4] + e.record[4..];
  }

  // ----- reading links

  /** The number of the cell the log goes on in. */
  function NextOf(t: Trail, e: Seen): nat {
    if e.cell + 1 < |t.cells| then t.cells[e.cell + 1] else 0
  }

  /** The four bytes at the offset of a packet on which no link has landed: the mark, or as much of it as falls before
      the pointer and then the pointer. */
  function Blank(g: Config, e: Seen, next: nat): seq<Byte>
    requires POINTER_SIZE < g.cellSize && e.within <= Room(g)
  {
    if e.within + 4 <= Room(g) then Enc(F.END, 4)
    else Enc(F.END, 4)[..Room(g) - e.within] + Enc(next, POINTER_SIZE)[..e.within + 4 - Room(g)]
  }

  /** Over any run, whatever the links hit, the four bytes at a packet's offset are the link that landed there, else blank. */
  lemma HeadOnDisk(g: Config, l: F.Limits, s: Capture, d: seq<Byte>, i: nat)
    requires Inv(g, l, s) && DiskExact(g, l, s) && i < |s.seen| && OnDisk(g, d, s.trail)
    ensures POINTER_SIZE < g.cellSize && s.seen[i].within <= Room(g)
    ensures var e := s.seen[i];
            Get(d, e.packet.offset, 4)
            == if e.packet.offset in s.landed then Enc(s.landed[e.packet.offset], 4) else Blank(g, e, NextOf(s.trail, e))
  {
    hide Inv, DiskExact, OnDisk, Length, Position, Base, LinkedRecord, Enc, Get, Valid, AllPointers, LandedRight, Stands,
         PointerBytes;
    DiskParts(g, l, s);
    PiecesOf(g, l, s, i);
    var e, r := s.seen[i], LinkedRecord(g, s.seen[i], s.landed);
    HeadPieces(g, e, s.landed);
    if e.within + 4 <= Room(g) {
      HeadInRoom(g, d, s.trail, e, r);
    } else {
      PointerOf(g, s, i);
      var bytes := PointerBytes(g, e, NextOf(s.trail, e), s.landed);
      HeadOverEnd(g, d, s.trail, e, r, bytes);
      PointerHead(g, e, NextOf(s.trail, e), s.landed);
    }
  }

  lemma HeadInRoom(g: Config, d: seq<Byte>, t: Trail, e: Seen, r: seq<Byte>)
    requires Valid(g, t) && OnDisk(g, d, t) && Stands(g, t, e, r) && e.within + 4 <= Room(g)
    ensures Get(d, Base(g, t.cells[e.cell]) + e.within, 4) == r[..4]
  {
    hide OnDisk, Base, Valid, Get;
    TrailSizes(g, t);
    var w, raw := e.within, Raw(t, e.cell);
    if w + |r| <= Room(g) {
      FirstFour(raw, w, r, r);
    } else {
      FirstFour(raw, w, r[..Room(g) - w], r);
    }
    RawRead(g, d, t, e.cell, w, 4);
  }

  lemma HeadOverEnd(g: Config, d: seq<Byte>, t: Trail, e: Seen, r: seq<Byte>, bytes: seq<Byte>)
    requires Valid(g, t) && OnDisk(g, d, t) && Stands(g, t, e, r) && e.within + 4 > Room(g)
    requires e.cell < |t.full| && |t.full[e.cell]| == g.cellSize && t.full[e.cell][Room(g)..] == bytes
    ensures |bytes| == 8
    ensures Get(d, Base(g, t.cells[e.cell]) + e.within, 4) == r[..Room(g) - e.within] + bytes[..e.within + 4 - Room(g)]
  {
    hide OnDisk, Base, Valid, Get;
    TrailSizes(g, t);
    RawRead(g, d, t, e.cell, e.within, 4);
    OverTheEnd(t.full[e.cell], e.within, Room(g));
  }

  lemma FirstFour(raw: seq<Byte>, w: nat, piece: seq<Byte>, r: seq<Byte>)
    requires w + |piece| <= |raw| && raw[w..w + |piece|] == piece && 4 <= |piece| && piece <= r
    ensures raw[w..w + 4] == r[..4]
  {
    assert raw[w..w + |piece|][..4] == raw[w..w + 4];
  }

  lemma OverTheEnd(raw: seq<Byte>, w: nat, room: nat)
    requires w <= room <= w + 4 <= |raw|
    ensures raw[w..w + 4] == raw[w..room] + raw[room..][..w + 4 - room]
  {
  }

  lemma PointerOf(g: Config, s: Capture, i: nat)
    requires POINTER_SIZE < g.cellSize && AllPointers(g, s.trail, s.seen, s.landed) && i < |s.seen|
    ensures PointerStands(g, s.trail, s.seen[i], s.landed)
  {
  }

  /** The beginning of a record in the log. */
  lemma HeadPieces(g: Config, e: Seen, landed: map<nat, U32>)
    requires POINTER_SIZE < g.cellSize && e.within <= Room(g) && |e.record| >= 4 && e.record[..4] == Enc(F.END, 4)
    ensures var r := LinkedRecord(g, e, landed);
            && |r| == |e.record|
            && (e.within + 4 <= Room(g) ==> r[..4] == Head(e, landed))
            && (e.within + 4 > Room(g) ==> r[..Room(g) - e.within] == Head(e, landed)[..Room(g) - e.within])
  {
    hide Enc;
    assert e.record[..4][..if e.within + 4 > Room(g) then Room(g) - e.within else 4]
        == e.record[..if e.within + 4 > Room(g) then Room(g) - e.within else 4];
  }

  /** The beginning of the pointer behind a header that reaches over the end of the room. */
  lemma PointerHead(g: Config, e: Seen, next: nat, landed: map<nat, U32>)
    requires POINTER_SIZE < g.cellSize && Room(g) - 4 < e.within <= Room(g)
    ensures var n := Room(g) - e.within;
            |PointerBytes(g, e, next, landed)| == 8
            && PointerBytes(g, e, next, landed)[..4 - n]
               == (if e.packet.offset in landed then Enc(landed[e.packet.offset], 4)[n..] else Enc(next, POINTER_SIZE)[..4 - n])
            && (e.packet.offset in landed ==>
                  Enc(landed[e.packet.offset], 4)[..n] + Enc(landed[e.packet.offset], 4)[n..] == Enc(landed[e.packet.offset], 4))
  {
    hide Enc;
  }

  // ----- when a flow is found on disk

  /** Whether the bytes at a packet's offset say the right thing: a link that landed does when it is not the largest word;
      otherwise it is up to the blank bytes to lead to the successor, or to end the chain when there is none. */
  ghost predicate Right(g: Config, l: F.Limits, s: Capture, e: Seen)
    requires Inv(g, l, s)
  {
    if e.packet.offset in s.landed
    then e.packet.offset in Next(l, s)
         && F.CalDiff(Next(l, s)[e.packet.offset], e.packet.offset, l.diskSize) < F.END
    else l.diskSize > 0 && POINTER_SIZE < g.cellSize && e.within <= Room(g)
         && F.Leads(LE(Blank(g, e, NextOf(s.trail, e))), e.packet.offset, Next(l, s), l.diskSize)
  }

  lemma SmallWord(v: U32)
    ensures LE(Enc(v, 4)) == v
  {
    hide Enc, LE;
    DecodeEncode(v, 4);
    Pow2Constants();
    SmallMod(v, Pow2(32));
  }

  lemma RightIsRead(g: Config, l: F.Limits, s: Capture, d: seq<Byte>, i: nat)
    requires Inv(g, l, s) && DiskExact(g, l, s) && i < |s.seen| && OnDisk(g, d, s.trail) && l.diskSize > 0
    ensures ReadsRight(d, Next(l, s), s.seen[i].packet.offset, l.diskSize) <==> Right(g, l, s, s.seen[i])
  {
    hide Inv, DiskExact, OnDisk, Enc, LE, Get, Blank, F.Placed, F.Run, F.CalDiff, F.Target;
    DiskParts(g, l, s);
    HeadOnDisk(g, l, s, d, i);
    var o := s.seen[i].packet.offset;
    if o in s.landed {
      SmallWord(s.landed[o]);
      F.LinkExact(Next(l, s)[o], o, l.diskSize);
    }
  }

  /** The disk itself gives a flow back, from its indexed packets in index order and by the four bytes at each offset,
      exactly when the bytes of each of its packets say the right thing. */
  lemma FlowOnDisk(g: Config, l: F.Limits, first: nat, xs: seq<Incoming>, d: seq<Byte>, f: F.FlowMetadata)
    requires Ready(g, l, first) && Run(g, l, first, xs).Some?
    requires var t := Run(g, l, first, xs).value.trail;
             |t.cells| == |t.full| + 1 && OnDisk(g, d, t)
    ensures var s := Run(g, l, first, xs).value;
            && Inv(g, l, s) && l.diskSize > 0 && |s.seen| == |xs|
            && (GivenBack(d, l, Packets(s.seen), f, |xs|) <==>
                forall i :: 0 <= i < |xs| && xs[i].flow == f ==> Right(g, l, s, s.seen[i]))
  {
    hide Run, Inv, DiskExact, OnDisk, F.Run, Right, ReadsRight, GivenBack, Record;
    RunDisk(g, l, first, xs);
    RunSeen(g, l, first, xs);
    var s := Run(g, l, first, xs).value;
    InvParts(g, l, s);
    var ps := Packets(s.seen);
    GivenBackIff(d, l, ps, f, |xs|);
    forall i | 0 <= i < |xs|
      ensures ps[i].flow == xs[i].flow
      ensures ReadsRight(d, F.Run(l, ps).next, ps[i].offset, l.diskSize) <==> Right(g, l, s, s.seen[i])
    {
      assert Describes(g, s.seen[i], xs[i]);
      RightIsRead(g, l, s, d, i);
    }
  }

  lemma InvParts(g: Config, l: F.Limits, s: Capture)
    requires Inv(g, l, s)
    ensures F.Placed(l, Packets(s.seen)) && l.diskSize == g.diskSize > 0
    ensures s.index == F.Run(l, Packets(s.seen)).index && s.agg == F.Run(l, Packets(s.seen)).agg
    ensures LandedRight(l, s.landed, Next(l, s))
  {
    hide AllPlaced, Position, F.Run, F.Placed, LandedRight;
    PlaceInside2(g, s.trail);
  }

  /** For a header that ends its link before the pointer: right exactly when its link, if there is one to write, landed
      and is not the largest word. */
  lemma ClearRight(g: Config, l: F.Limits, s: Capture, e: Seen)
    requires Inv(g, l, s) && POINTER_SIZE < g.cellSize && e.within + 4 <= Room(g)
    ensures Right(g, l, s, e) <==>
            (e.packet.offset in Next(l, s) ==>
               && e.packet.offset in s.landed
               && F.CalDiff(Next(l, s)[e.packet.offset], e.packet.offset, l.diskSize) < F.END)
  {
    hide Inv, Enc, LE, F.CalDiff, F.Run, F.Placed;
    InvParts(g, l, s);
    SmallWord(F.END);
  }

  // ----- when every link lands

  /** Every link of the run is taken by the block buffer. */
  ghost predicate AllTaken(xs: seq<Incoming>) {
    forall i :: 0 <= i < |xs| ==> xs[i].taken
  }

  lemma {:induction false} TakenLands(g: Config, l: F.Limits, first: nat, xs: seq<Incoming>)
    requires Ready(g, l, first) && Run(g, l, first, xs).Some? && AllTaken(xs)
    ensures var s := Run(g, l, first, xs).value;
            Inv(g, l, s) && s.landed.Keys == Next(l, s).Keys
  {
    hide Inv, Accepts, Step, F.Run, F.Placed;
    if xs == [] {
      StartInv(g, l, first);
      NoneLanded(g, l, first);
    } else {
      var n := |xs| - 1;
      TakenLands(g, l, first, xs[..n]);
      StepInv(g, l, Run(g, l, first, xs[..n]).value, xs[n]);
      TakenStep(g, l, Run(g, l, first, xs[..n]).value, xs[n]);
    }
  }

  lemma NoneLanded(g: Config, l: F.Limits, first: nat)
    requires Inv(g, l, Start(first))
    ensures Start(first).landed.Keys == Next(l, Start(first)).Keys
  {
    hide Valid, AllPlaced, Position;
    assert Packets([]) == [];
  }

  lemma TakenStep(g: Config, l: F.Limits, s: Capture, x: Incoming)
    requires Inv(g, l, s) && Accepts(g, l, s, x) && Inv(g, l, Step(g, l, s, x)) && x.taken
    requires s.landed.Keys == Next(l, s).Keys
    ensures Step(g, l, s, x).landed.Keys == Next(l, Step(g, l, s, x)).Keys
  {
    hide Valid, AllPlaced, Base, F.Breaks, F.CalDiff, Enc, Patch, CellLog.Step, Feasible, Position, Length, F.Run, F.Placed,
         RecordOf, LandedRight, LinkOf, Packets;
    Accepted(g, l, s, x);
    NewOffset(g, l, s, x);
    ChainStep(g, l, s, x);
    PacketsStep(g, l, s, x);
    F.BreaksUnknown(l, s.agg, PacketOf(g, s, x));
  }

  lemma PacketsStep(g: Config, l: F.Limits, s: Capture, x: Incoming)
    requires Accepts(g, l, s, x)
    ensures Valid(g, s.trail) && Packets(Step(g, l, s, x).seen) == Packets(s.seen) + [PacketOf(g, s, x)]
  {
    hide Valid, Record;
    Accepted(g, l, s, x);
    SeenStep(g, l, s, x);
  }

  /** When every link is taken and none can be the largest word: all flows are given back exactly when every packet that
      nobody follows has the mark at its offset, and not a part of the cell pointer. */
  lemma AllFlowsOnDisk(g: Config, l: F.Limits, first: nat, xs: seq<Incoming>, d: seq<Byte>)
    requires Ready(g, l, first) && Run(g, l, first, xs).Some? && AllTaken(xs)
    requires l.offsetThreshold < F.END || l.diskSize <= F.END
    requires var t := Run(g, l, first, xs).value.trail;
             |t.cells| == |t.full| + 1 && OnDisk(g, d, t)
    ensures var s := Run(g, l, first, xs).value;
            && Inv(g, l, s) && l.diskSize > 0 && |s.seen| == |xs| && POINTER_SIZE < g.cellSize
            && (forall i :: 0 <= i < |xs| ==> s.seen[i].within <= Room(g))
            && ((forall f :: GivenBack(d, l, Packets(s.seen), f, |xs|)) <==>
                forall i :: 0 <= i < |xs| && s.seen[i].packet.offset !in Next(l, s) ==>
                  Blank(g, s.seen[i], NextOf(s.trail, s.seen[i])) == Enc(F.END, 4))
  {
    hide Run, Inv, DiskExact, OnDisk, F.Run, Right, GivenBack, Record, Blank, Enc, F.CalDiff, F.Placed, Next;
    RunDisk(g, l, first, xs);
    RunSeen(g, l, first, xs);
    TakenLands(g, l, first, xs);
    var s := Run(g, l, first, xs).value;
    InvParts(g, l, s);
    PlacesHere(g, l, s);
    forall i | 0 <= i < |xs|
      ensures Right(g, l, s, s.seen[i]) <==>
              (s.seen[i].packet.offset !in Next(l, s) ==> Blank(g, s.seen[i], NextOf(s.trail, s.seen[i])) == Enc(F.END, 4))
    {
      RightWhenTaken(g, l, s, i);
    }
    forall f
      ensures GivenBack(d, l, Packets(s.seen), f, |xs|) <==>
              forall i :: 0 <= i < |xs| && xs[i].flow == f ==> Right(g, l, s, s.seen[i])
    {
      FlowOnDisk(g, l, first, xs, d, f);
    }
    if forall f :: GivenBack(d, l, Packets(s.seen), f, |xs|) {
      forall i | 0 <= i < |xs|
        ensures Right(g, l, s, s.seen[i])
      {
        assert GivenBack(d, l, Packets(s.seen), xs[i].flow, |xs|);
      }
    }
  }

  lemma PlacesHere(g: Config, l: F.Limits, s: Capture)
    requires Inv(g, l, s)
    ensures POINTER_SIZE < g.cellSize && forall i :: 0 <= i < |s.seen| ==> s.seen[i].within <= Room(g)
  {
    hide F.Run, F.Placed, AllPlaced, Position, LandedRight;
    TrailSizes(g, s.trail);
    PlacesOf(g, s.trail, s.seen);
  }

  lemma RightWhenTaken(g: Config, l: F.Limits, s: Capture, i: nat)
    requires Inv(g, l, s) && i < |s.seen| && s.landed.Keys == Next(l, s).Keys
    requires l.offsetThreshold < F.END || l.diskSize <= F.END
    requires POINTER_SIZE < g.cellSize && s.seen[i].within <= Room(g)
    ensures Right(g, l, s, s.seen[i]) <==>
            (s.seen[i].packet.offset !in Next(l, s) ==> Blank(g, s.seen[i], NextOf(s.trail, s.seen[i])) == Enc(F.END, 4))
  {
    hide Inv, Enc, LE, F.CalDiff, F.Run, F.Placed, Blank;
    InvParts(g, l, s);
    F.NextNear(l, Packets(s.seen));
    var e := s.seen[i];
    var blank := Blank(g, e, NextOf(s.trail, e));
    BlankSize(g, e, NextOf(s.trail, e));
    SmallWord(F.END);
    LEInjective(blank, Enc(F.END, 4));
    assert s.landed.Keys == F.Run(l, Packets(s.seen)).next.Keys;
  }

  lemma BlankSize(g: Config, e: Seen, next: nat)
    requires POINTER_SIZE < g.cellSize && e.within <= Room(g)
    ensures |Blank(g, e, next)| == 4
  {
    hide Enc;
  }

  // ----- when the cell pointers are intact

  ghost predicate SparesAt(g: Config, t: Trail, e: Seen, diff: seq<Byte>)
    requires POINTER_SIZE < g.cellSize && |diff| == 4
  {
    e.within <= Room(g) && (e.within + 4 <= Room(g) || SparesPointer(g, e.within, diff, NextOf(t, e)))
  }

  /** Cell k was filled by a packet whose record goes on. */
  ghost predicate EndedBy(g: Config, seen: seq<Seen>, k: nat)
    requires POINTER_SIZE < g.cellSize
  {
    exists i :: 0 <= i < |seen| && seen[i].cell == k && seen[i].within + |seen[i].record| > Room(g)
  }

  ghost predicate AllEnded(g: Config, s: Capture)
    requires POINTER_SIZE < g.cellSize
  {
    forall k :: 0 <= k < |s.trail.full| ==> EndedBy(g, s.seen, k)
  }

  lemma StepEnded(g: Config, l: F.Limits, s: Capture, x: Incoming)
    requires Inv(g, l, s) && Accepts(g, l, s, x) && POINTER_SIZE < g.cellSize && AllEnded(g, s)
    ensures AllEnded(g, Step(g, l, s, x))
  {
    hide Valid, AllPlaced, Base, F.Breaks, Enc, Patch, CellLog.Step, Feasible, Position, Length, F.Run, F.Placed, RecordOf,
         LandedRight, LinkOf;
    Accepted(g, l, s, x);
    StepShape(g, l, s, x);
    SeenStep(g, l, s, x);
    NewCell(g, s, x);
    var seen' := Step(g, l, s, x).seen;
    forall k | 0 <= k < |Step(g, l, s, x).trail.full|
      ensures EndedBy(g, seen', k)
    {
      if k < |s.trail.full| {
        var i := EnderOf(g, s, k);
        assert seen'[i] == s.seen[i];
      } else {
        assert seen'[|s.seen|] == SeenOf(g, s, x);
      }
    }
  }

  lemma NewCell(g: Config, s: Capture, x: Incoming)
    requires Feasible(g, s.trail, ArrivalOf(x)) && POINTER_SIZE < g.cellSize
    ensures var t, e := CellLog.Step(g, s.trail, ArrivalOf(x)), SeenOf(g, s, x);
            && |t.full| <= |s.trail.full| + 1 && e.cell == |s.trail.full|
            && (|t.full| > |s.trail.full| ==> e.within + |e.record| > Room(g))
  {
    hide Distinct, Base, Enc, Record;
  }

  lemma {:induction false} RunEnded(g: Config, l: F.Limits, first: nat, xs: seq<Incoming>)
    requires Ready(g, l, first) && Run(g, l, first, xs).Some?
    ensures POINTER_SIZE < g.cellSize && AllEnded(g, Run(g, l, first, xs).value)
  {
    hide Inv, Accepts, Step, EndedBy;
    if xs != [] {
      RunInv(g, l, first, xs[..|xs| - 1]);
      RunEnded(g, l, first, xs[..|xs| - 1]);
      StepEnded(g, l, Run(g, l, first, xs[..|xs| - 1]).value, xs[|xs| - 1]);
    }
  }

  /** Over a whole run the pointers are intact exactly when every link that landed ends before the pointer of its cell or
      agrees with it. */
  lemma PointersIntactIff(g: Config, l: F.Limits, first: nat, xs: seq<Incoming>)
    requires Ready(g, l, first) && Run(g, l, first, xs).Some?
    ensures var s := Run(g, l, first, xs).value;
            && POINTER_SIZE < g.cellSize && |s.trail.cells| == |s.trail.full| + 1
            && (Linked(g, s.trail) <==>
                forall i :: 0 <= i < |s.seen| && s.seen[i].packet.offset in s.landed ==>
                  SparesAt(g, s.trail, s.seen[i], Enc(s.landed[s.seen[i].packet.offset], 4)))
  {
    hide Run, Inv, DiskExact, PointsTo, Ready, Enc, PointerStands, SparesAt, AllPointers, LogFrom, Joined, Valid, AllPlaced;
    RunDisk(g, l, first, xs);
    RunEnded(g, l, first, xs);
    var s := Run(g, l, first, xs).value;
    DiskParts(g, l, s);
    forall i | 0 <= i < |s.seen| && s.seen[i].packet.offset in s.landed && Linked(g, s.trail)
      ensures SparesAt(g, s.trail, s.seen[i], Enc(s.landed[s.seen[i].packet.offset], 4))
    {
      SparedWhenLinked(g, l, s, i);
    }
    if forall i :: 0 <= i < |s.seen| && s.seen[i].packet.offset in s.landed ==>
         SparesAt(g, s.trail, s.seen[i], Enc(s.landed[s.seen[i].packet.offset], 4)) {
      forall k | 0 <= k < |s.trail.full|
        ensures PointsTo(g, s.trail.full[k], s.trail.cells[k + 1])
      {
        var i := EnderOf(g, s, k);
        PointerOf(g, s, i);
        PointerSpared(g, s.trail, s.seen[i], s.landed);
      }
    }
  }

  lemma EnderOf(g: Config, s: Capture, k: nat) returns (i: nat)
    requires POINTER_SIZE < g.cellSize && AllEnded(g, s) && k < |s.trail.full|
    ensures i < |s.seen| && s.seen[i].cell == k && s.seen[i].within + |s.seen[i].record| > Room(g)
  {
    assert EndedBy(g, s.seen, k);
    i :| 0 <= i < |s.seen| && s.seen[i].cell == k && s.seen[i].within + |s.seen[i].record| > Room(g);
  }

  lemma SparedWhenLinked(g: Config, l: F.Limits, s: Capture, i: nat)
    requires Inv(g, l, s) && DiskExact(g, l, s) && i < |s.seen| && s.seen[i].packet.offset in s.landed
    requires POINTER_SIZE < g.cellSize && |s.trail.cells| == |s.trail.full| + 1 && Linked(g, s.trail)
    ensures SparesAt(g, s.trail, s.seen[i], Enc(s.landed[s.seen[i].packet.offset], 4))
  {
    hide Inv, DiskExact, Enc, Length, Position, Base, LogFrom, Joined, Valid, AllPlaced, AllPointers, LandedRight;
    DiskParts(g, l, s);
    PlaceBefore(g, l, s, i);
    var e, t := s.seen[i], s.trail;
    if e.within + 4 > Room(g) {
      PointerOf(g, s, i);
      assert PointsTo(g, t.full[e.cell], t.cells[e.cell + 1]);
      var v, n := Enc(s.landed[e.packet.offset], 4), Room(g) - e.within;
      var next := Enc(t.cells[e.cell + 1], POINTER_SIZE);
      assert v[n..] + next[4 - n..] == next;
      assert (v[n..] + next[4 - n..])[..4 - n] == v[n..];
    }
  }

  lemma PointerSpared(g: Config, t: Trail, e: Seen, landed: map<nat, U32>)
    requires POINTER_SIZE < g.cellSize && PointerStands(g, t, e, landed) && e.within + |e.record| > Room(g)
    requires e.packet.offset in landed ==> SparesAt(g, t, e, Enc(landed[e.packet.offset], 4))
    ensures PointsTo(g, t.full[e.cell], t.cells[e.cell + 1])
  {
    hide Enc;
    var next := Enc(t.cells[e.cell + 1], POINTER_SIZE);
    if e.packet.offset in landed && Room(g) - 4 < e.within <= Room(g) {
      var n := Room(g) - e.within;
      assert next == next[..4 - n] + next[4 - n..];
    }
  }

  // ----- two runs at the end of a cell

  lemma EncSplit(v: nat)
    requires v < 0x1_0000_0000
    ensures Enc(v, POINTER_SIZE) == Enc(v, 4) + Enc(0, 4)
  {
    hide Enc, LE;
    Pow2Constants();
    DecodeEncode(v, 8);
    DecodeEncode(v, 4);
    DecodeEncode(0, 4);
    LEConcat(Enc(v, 4), Enc(0, 4));
    LEInjective(Enc(v, 8), Enc(v, 4) + Enc(0, 4));
  }

  /** A packet of flow a that fills cell 0, then two short packets of flow b. */
  function Filling(g: Config, fields: seq<Byte>, filler: seq<Byte>, a: F.FlowMetadata, b: F.FlowMetadata, ts: U64): seq<Incoming> {
    [Incoming(fields, filler, 0, a, ts, true), Incoming(fields, [], 1, b, ts, true), Incoming(fields, [], 0, b, ts, true)]
  }

  ghost predicate Fillable(g: Config, l: F.Limits, fields: seq<Byte>, filler: seq<Byte>, a: F.FlowMetadata, b: F.FlowMetadata) {
    && Ready(g, l, 0) && g.cellNum >= 2 && a != b
    && |fields| + 4 == g.headerLen && 2 * g.headerLen <= Room(g) && |filler| == Room(g) - g.headerLen
    && g.headerLen + 8 < F.END && g.headerLen + 8 <= l.offsetThreshold
  }

  /** Wherever cells hold two headers, two packets are enough to lose a flow: the second is reported at the end of a cell's
      room, nobody follows it, and the bytes at its offset are the pointer of the cell, which reads as a link. */
  lemma UnfollowedOnPointer(g: Config, l: F.Limits, fields: seq<Byte>, filler: seq<Byte>, a: F.FlowMetadata,
                            b: F.FlowMetadata, ts: U64, d: seq<Byte>)
    requires Fillable(g, l, fields, filler, a, b)
    ensures var two := Run(g, l, 0, Filling(g, fields, filler, a, b, ts)[..2]);
            && two.Some? && Inv(g, l, two.value) && l.diskSize > 0 && |two.value.seen| == 2
            && |two.value.trail.cells| == |two.value.trail.full| + 1
            && (OnDisk(g, d, two.value.trail) ==>
                  !GivenBack(d, l, Packets(two.value.seen), b, 2) && Word(d, two.value.seen[1].packet.offset) == 1)
  {
    hide Run, Enc, Step, Valid, Accepts, Inv, OnDisk, GivenBack, Right, Blank, F.Run, F.Placed, DiskExact, Get, LE;
    var xs := Filling(g, fields, filler, a, b, ts)[..2];
    TwoPackets(g, l, fields, filler, a, b, ts);
    RunDisk(g, l, 0, xs);
    var s := Run(g, l, 0, xs).value;
    InvParts(g, l, s);
    TrailSizesOf(g, l, s);
    if OnDisk(g, d, s.trail) {
      FlowOnDisk(g, l, 0, xs, d, b);
      HeadOnDisk(g, l, s, d, 1);
      BlankIsPointer(g, s.seen[1], 1);
      F.LastFree(l, Packets(s.seen), b);
      assert !Right(g, l, s, s.seen[1]) by { NotRight(g, l, s, s.seen[1]); }
      assert xs[1].flow == b;
    }
  }

  lemma TrailSizesOf(g: Config, l: F.Limits, s: Capture)
    requires Inv(g, l, s)
    ensures |s.trail.cells| == |s.trail.full| + 1 && POINTER_SIZE < g.cellSize && Valid(g, s.trail)
  {
  }

  lemma BlankIsPointer(g: Config, e: Seen, next: nat)
    requires POINTER_SIZE < g.cellSize && e.within == Room(g) && next < 0x1_0000_0000
    ensures Blank(g, e, next) == Enc(next, 4) && LE(Enc(next, 4)) == next
  {
    hide Enc, LE;
    EncSplit(next);
    SmallWord(next);
    assert Enc(F.END, 4)[..0] + Enc(next, POINTER_SIZE)[..4] == Enc(next, 4);
  }

  lemma NotRight(g: Config, l: F.Limits, s: Capture, e: Seen)
    requires Inv(g, l, s) && e.packet.offset !in s.landed && e.packet.offset !in Next(l, s)
    requires POINTER_SIZE < g.cellSize && e.within <= Room(g) && LE(Blank(g, e, NextOf(s.trail, e))) != F.END
    ensures !Right(g, l, s, e)
  {
    hide Inv, Blank, LE;
  }

  /** The third packet mends that, as its link is written over the pointer: every flow is given back. But the pointer of
      cell 0 then names a cell by the distance of the two packets, and the log is lost behind it. */
  lemma LinkOnPointer(g: Config, l: F.Limits, fields: seq<Byte>, filler: seq<Byte>, a: F.FlowMetadata, b: F.FlowMetadata,
                      ts: U64, d: seq<Byte>)
    requires Fillable(g, l, fields, filler, a, b)
    ensures var three := Run(g, l, 0, Filling(g, fields, filler, a, b, ts));
            && three.Some? && Inv(g, l, three.value) && l.diskSize > 0
            && Misled(g, three.value.trail, g.headerLen + 8) && !Linked(g, three.value.trail)
            && (OnDisk(g, d, three.value.trail) ==> forall f :: GivenBack(d, l, Packets(three.value.seen), f, 3))
  {
    hide Run, Enc, Step, Valid, Accepts, Inv, OnDisk, GivenBack, Right, F.Run, F.Placed, DiskExact, PointsTo, AllPointers, LogFrom,
         Joined;
    var xs := Filling(g, fields, filler, a, b, ts);
    ThreePackets(g, l, fields, filler, a, b, ts);
    RunDisk(g, l, 0, xs);
    var s := Run(g, l, 0, xs).value;
    InvParts(g, l, s);
    DiskParts(g, l, s);
    LostPointer(g, s, g.headerLen + 8);
    if OnDisk(g, d, s.trail) {
      forall f
        ensures GivenBack(d, l, Packets(s.seen), f, 3)
      {
        FlowOnDisk(g, l, 0, xs, d, f);
      }
    }
  }

  /** Cell 0 points to a cell that is not the one the log goes on in. */
  ghost predicate Misled(g: Config, t: Trail, v: nat) {
    && POINTER_SIZE < g.cellSize && t.cells == [0, 1] && |t.full| == 1
    && PointsTo(g, t.full[0], v) && !PointsTo(g, t.full[0], 1)
  }

  lemma LostPointer(g: Config, s: Capture, v: nat)
    requires POINTER_SIZE < g.cellSize && s.trail.cells == [0, 1] && |s.trail.full| == 1 && |s.seen| == 3
    requires AllPointers(g, s.trail, s.seen, s.landed)
    requires var e := s.seen[1];
             && e.cell == 0 && e.within == Room(g) && |e.record| >= 4
             && e.packet.offset in s.landed && s.landed[e.packet.offset] == v
    requires 1 < v < 0x1_0000_0000
    ensures Misled(g, s.trail, v) && !Linked(g, s.trail)
  {
    hide Enc;
    var e := s.seen[1];
    assert PointerStands(g, s.trail, e, s.landed);
    EncSplit(1);
    EncSplit(v);
    assert Enc(v, 4)[0..] == Enc(v, 4) && Enc(1, POINTER_SIZE)[4..] == Enc(0, 4);
    assert s.trail.full[0][Room(g)..] == Enc(v, POINTER_SIZE);
    SmallWord(1);
    SmallWord(v);
    assert Enc(1, POINTER_SIZE)[..4] == Enc(1, 4) && Enc(v, POINTER_SIZE)[..4] == Enc(v, 4);
  }

  // ----- the states of these runs

  lemma {:induction false} RunPrefix(g: Config, l: F.Limits, first: nat, xs: seq<Incoming>, n: nat)
    requires Run(g, l, first, xs).Some? && n < |xs|
    ensures Run(g, l, first, xs[..n]).Some? && Accepts(g, l, Run(g, l, first, xs[..n]).value, xs[n])
    ensures Run(g, l, first, xs[..n + 1]) == Some(Step(g, l, Run(g, l, first, xs[..n]).value, xs[n]))
    decreases |xs|
  {
    hide Accepts, Step;
    if n == |xs| - 1 {
      assert xs[..n + 1] == xs;
    } else {
      RunPrefix(g, l, first, xs[..|xs| - 1], n);
      assert xs[..|xs| - 1][..n] == xs[..n] && xs[..|xs| - 1][..n + 1] == xs[..n + 1];
    }
  }

  lemma RunZero(g: Config, l: F.Limits, first: nat)
    ensures Run(g, l, first, []) == Some(Start(first))
  {
  }

  lemma RunOne(g: Config, l: F.Limits, first: nat, xs: seq<Incoming>, x: Incoming)
    requires Run(g, l, first, xs).Some? && Accepts(g, l, Run(g, l, first, xs).value, x)
    ensures Run(g, l, first, xs + [x]) == Some(Step(g, l, Run(g, l, first, xs).value, x))
  {
    hide Accepts, Step;
    assert (xs + [x])[..|xs|] == xs;
  }

  lemma FirstPacket(g: Config, l: F.Limits, x: Incoming)
    requires Ready(g, l, 0) && |x.fields| + 4 == g.headerLen && g.headerLen + |x.data| == Room(g)
    ensures Accepts(g, l, Start(0), x)
    ensures var s := Step(g, l, Start(0), x);
            && s.trail.cells == [0] && s.trail.full == [] && |s.trail.tail| == Room(g) && s.landed == map[]
            && s.agg.Keys == {x.flow} && s.agg[x.flow].lastOffset == 0
            && |s.seen| == 1 && s.seen[0].packet.offset == 0 && s.seen[0].within == 0
  {
    hide Enc, Record;
    StartValid(g, 0);
    assert Feasible(g, Start(0).trail, ArrivalOf(x));
  }

  lemma SecondPacket(g: Config, l: F.Limits, s: Capture, x: Incoming)
    requires Inv(g, l, s) && s.trail.cells == [0] && s.trail.full == [] && |s.trail.tail| == Room(g) && |s.seen| == 1
    requires x.flow !in s.agg && |x.fields| + 4 == g.headerLen && x.data == [] && g.headerLen <= Room(g) && x.nextCell == 1 < g.cellNum
    ensures Accepts(g, l, s, x)
    ensures var s' := Step(g, l, s, x);
            && s'.trail.cells == [0, 1] && |s'.trail.full| == 1 && |s'.trail.tail| == g.headerLen
            && x.flow in s'.agg && s'.agg[x.flow].lastOffset == Room(g) && s'.agg[x.flow].ts == x.ts
            && (forall f :: f in s.agg ==> f in s'.agg && s'.agg[f] == s.agg[f])
            && s'.landed == s.landed - {Room(g)} && |s'.seen| == 2 && s'.seen[0] == s.seen[0]
            && s'.seen[1].packet.offset == s'.seen[1].within == Room(g) && s'.seen[1].cell == 0 && |s'.seen[1].record| >= 4
  {
    hide Enc, Record, F.Placed, F.Run, Position, Length, AllPlaced, LandedRight;
    InvBounded(g, l, s);
    assert Feasible(g, s.trail, ArrivalOf(x));
  }

  lemma ThirdPacket(g: Config, l: F.Limits, s: Capture, x: Incoming)
    requires Inv(g, l, s) && s.trail.cells == [0, 1] && |s.trail.full| == 1 && |s.trail.tail| == g.headerLen
    requires g.headerLen + 8 < F.END && g.headerLen + 8 <= l.offsetThreshold && x.taken
    requires x.flow in s.agg && s.agg[x.flow].lastOffset == Room(g) && s.agg[x.flow].ts == x.ts
    requires |x.fields| + 4 == g.headerLen && x.data == [] && 2 * g.headerLen <= Room(g)
    ensures Accepts(g, l, s, x)
    ensures var s' := Step(g, l, s, x);
            && s'.trail.cells == [0, 1] && |s'.trail.full| == 1
            && Room(g) in s'.landed && s'.landed[Room(g)] == g.headerLen + 8
            && x.flow in s'.agg && (forall f :: f in s.agg && f != x.flow ==> f in s'.agg && s'.agg[f] == s.agg[f])
            && s'.seen == s.seen + [SeenOf(g, s, x)] && SeenOf(g, s, x).within == g.headerLen
            && s'.agg[x.flow].lastOffset == SeenOf(g, s, x).packet.offset
    ensures var s' := Step(g, l, s, x);
            && Inv(g, l, s') && Room(g) in Next(l, s') && l.diskSize > 0 && Room(g) < l.diskSize
            && F.CalDiff(Next(l, s')[Room(g)], Room(g), l.diskSize) == g.headerLen + 8
  {
    hide Enc, RecordOf, F.Placed, F.Run, Position, Length, AllPlaced, Patch, PointsTo, WithLink, LandedRight, Packets;
    InvBounded(g, l, s);
    assert Feasible(g, s.trail, ArrivalOf(x));
    var h, o := g.headerLen, Offset(g, s.trail);
    PlaceInside2(g, s.trail);
    F.DiffRange(o, Room(g), l.diskSize);
    assert F.CalDiff(o, Room(g), l.diskSize) == h + 8;
    SmallMod(h + 8, 0x1_0000_0000);
    SameTime(x.ts);
    assert !F.Breaks(l, s.agg, PacketOf(g, s, x));
    StepShape(g, l, s, x);
    StepInv(g, l, s, x);
    NextStep(g, l, s, x);
    assert CellLog.Step(g, s.trail, ArrivalOf(x)).cells == [0, 1];
  }

  lemma NextStep(g: Config, l: F.Limits, s: Capture, x: Incoming)
    requires Inv(g, l, s) && Accepts(g, l, s, x)
    ensures Inv(g, l, Step(g, l, s, x)) && F.Placed(l, Packets(s.seen)) && Valid(g, s.trail)
    ensures Next(l, Step(g, l, s, x)) == F.Step(l, F.Run(l, Packets(s.seen)), PacketOf(g, s, x)).next
  {
    hide Valid, AllPlaced, F.Run, F.Placed, F.Step, LandedRight, Step, Accepts, Packets, Position, Length;
    StepInv(g, l, s, x);
    Accepted(g, l, s, x);
    NewOffset(g, l, s, x);
    ChainStep(g, l, s, x);
    PacketsStep(g, l, s, x);
  }

  lemma SameTime(ts: U64)
    ensures F.Elapsed(ts, ts) == 0
  {
  }

  lemma TwoPackets(g: Config, l: F.Limits, fields: seq<Byte>, filler: seq<Byte>, a: F.FlowMetadata, b: F.FlowMetadata, ts: U64)
    requires Fillable(g, l, fields, filler, a, b)
    ensures var xs := Filling(g, fields, filler, a, b, ts);
            var two := Run(g, l, 0, xs[..2]);
            && two.Some? && Inv(g, l, two.value)
            && two.value.trail.cells == [0, 1] && |two.value.trail.full| == 1 && |two.value.trail.tail| == g.headerLen
            && two.value.agg.Keys == {a, b} && two.value.agg[a].lastOffset == 0
            && two.value.agg[b].lastOffset == Room(g) && two.value.agg[b].ts == ts
            && two.value.landed == map[] && |two.value.seen| == 2
            && two.value.seen[0].packet.offset == two.value.seen[0].within == 0
            && two.value.seen[1].packet.offset == two.value.seen[1].within == Room(g) && two.value.seen[1].cell == 0
            && |two.value.seen[1].record| >= 4
  {
    hide Run, Enc, Step, Valid, Accepts, Inv;
    var xs := Filling(g, fields, filler, a, b, ts);
    var x1, x2 := xs[0], xs[1];
    assert xs[..2] == [x1] + [x2];
    RunZero(g, l, 0);
    StartInv(g, l, 0);
    FirstPacket(g, l, x1);
    var s1 := Step(g, l, Start(0), x1);
    assert [] + [x1] == [x1];
    RunOne(g, l, 0, [], x1);
    StepInv(g, l, Start(0), x1);
    SecondPacket(g, l, s1, x2);
    RunOne(g, l, 0, [x1], x2);
    StepInv(g, l, s1, x2);
    AggStep(g, l, s1, x2);
  }

  lemma AggStep(g: Config, l: F.Limits, s: Capture, x: Incoming)
    requires Accepts(g, l, s, x)
    ensures Step(g, l, s, x).agg.Keys == s.agg.Keys + {x.flow}
  {
  }

  lemma ThreePackets(g: Config, l: F.Limits, fields: seq<Byte>, filler: seq<Byte>, a: F.FlowMetadata, b: F.FlowMetadata, ts: U64)
    requires Fillable(g, l, fields, filler, a, b)
    ensures var three := Run(g, l, 0, Filling(g, fields, filler, a, b, ts));
            && three.Some? && Inv(g, l, three.value) && POINTER_SIZE < g.cellSize
            && three.value.trail.cells == [0, 1] && |three.value.trail.full| == 1 && |three.value.seen| == 3
            && (var e := three.value.seen[1];
                && e.cell == 0 && e.within == Room(g) && |e.record| >= 4
                && e.packet.offset in three.value.landed && three.value.landed[e.packet.offset] == g.headerLen + 8)
            && (forall i :: 0 <= i < 3 ==> Right(g, l, three.value, three.value.seen[i]))
  {
    hide Run, Enc, Step, Valid, Accepts, Inv, F.Run, F.Placed, F.CalDiff, Right;
    var xs := Filling(g, fields, filler, a, b, ts);
    var x3 := xs[2];
    TwoPackets(g, l, fields, filler, a, b, ts);
    var s2 := Run(g, l, 0, xs[..2]).value;
    ThirdPacket(g, l, s2, x3);
    assert xs == xs[..2] + [x3];
    RunOne(g, l, 0, xs[..2], x3);
    var s := Step(g, l, s2, x3);
    InvParts(g, l, s);
    F.LastFree(l, Packets(s.seen), a);
    F.LastFree(l, Packets(s.seen), b);
    ClearRight(g, l, s, s.seen[0]);
    ClearRight(g, l, s, s.seen[2]);
    LandedIsRight(g, l, s, s.seen[1]);
  }

  lemma LandedIsRight(g: Config, l: F.Limits, s: Capture, e: Seen)
    requires Inv(g, l, s) && e.packet.offset in s.landed && e.packet.offset in Next(l, s)
    requires e.packet.offset < l.diskSize && F.CalDiff(Next(l, s)[e.packet.offset], e.packet.offset, l.diskSize) < F.END
    ensures Right(g, l, s, e)
  {
    hide Inv, F.CalDiff;
  }
}
