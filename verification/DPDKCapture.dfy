/** The capture object: one writer's position, the disk behind its block buffer, the aggregator and the index ring
    (src/probe/dpdkCapture.cpp). */
module DPDKCaptures {
  import opened Bytes
  import opened Buffers
  import opened CellLog
  import Wrappers
  import opened DiskChains
  import F = FlowChains
  import FlowDisk
  import opened PacketAggregators

  class DPDKCapture {
    const headerLen: nat       // sizeof(pcap_header)
    const cellSize: nat
    const cellNum: nat
    const diskSize: U64
    var writeOffset: nat
    var writeCell: nat
    const disk: array<Byte>
    const packetAggregator: PacketAggregator
    var index: seq<F.Packet>           // what went to the index ring, oldest first
    ghost var trail: Trail
    ghost var landed: map<nat, U32>
    ghost var seen: seq<FlowDisk.Seen>

    ghost function Conf(): Config {
      Config(headerLen, cellSize, cellNum, diskSize)
    }

    ghost predicate Geometry() {
      Sound(Conf()) && disk.Length == diskSize
    }

    ghost function Limit(): F.Limits {
      F.Limits(packetAggregator.offsetThreshold, packetAggregator.tsThreshold, diskSize)
    }

    ghost function View(): FlowDisk.Capture
      reads this, packetAggregator
    {
      FlowDisk.Capture(trail, packetAggregator.aggMap, index, landed, seen)
    }

    ghost predicate Ready()
      reads this, disk, packetAggregator
    {
      && Geometry() && FlowDisk.Inv(Conf(), Limit(), View()) && OnDisk(Conf(), disk[..], trail)
      && writeCell == Current(trail) && writeOffset == |trail.tail|
    }

    /** The start of `run`: the first cell is taken. */
    constructor (headerLen: nat, cellSize: nat, diskSize: U64, firstCell: nat, offsetThreshold: U64, tsThreshold: U64)
      requires POINTER_SIZE < cellSize <= diskSize && firstCell < diskSize / cellSize
      ensures Ready() && Conf() == Config(headerLen, cellSize, diskSize / cellSize, diskSize)
      ensures Limit() == F.Limits(offsetThreshold, tsThreshold, diskSize) && View() == FlowDisk.Start(firstCell)
    {
      hide At, FlowDisk.Inv;
      this.headerLen, this.cellSize, this.diskSize := headerLen, cellSize, diskSize;
      cellNum := diskSize / cellSize;
      writeOffset, writeCell := 0, firstCell;
      disk := new Byte[diskSize];
      packetAggregator := new PacketAggregator(offsetThreshold, tsThreshold);
      index, trail, landed, seen := [], Trail([firstCell], [], []), map[], [];
      new;
      QuotientFits(diskSize, cellSize);
      FlowDisk.StartInv(Conf(), Limit(), firstCell);
      CellInside(Conf(), firstCell);
      AtEmpty(disk[..], Base(Conf(), firstCell));
    }

    static lemma QuotientFits(x: nat, d: nat)
      requires d > 0
      ensures (x / d) * d <= x
    {
    }

    /** `getOffset` */
    method GetOffset(len: nat) returns (offset: nat)
      requires Geometry() && writeCell < cellNum && writeOffset + POINTER_SIZE <= cellSize
      modifies this`writeOffset
      ensures offset == Base(Conf(), writeCell) + old(writeOffset)
      ensures writeOffset == Advance(Conf(), old(writeOffset), headerLen + len)
    {
      var totalLen := headerLen + len;
      offset := writeOffset + writeCell * cellSize;
      writeOffset := writeOffset + totalLen;
      if writeOffset + POINTER_SIZE > cellSize {
        writeOffset := writeOffset + POINTER_SIZE;
      }
      CellInside(Conf(), writeCell);
      SmallMod(offset, diskSize);
      offset := offset % diskSize;
    }

    /** One write to the disk, inside one cell and right behind what the cell holds. */
    method Put(pos: nat, bytes: seq<Byte>, ghost cell: nat, ghost section: seq<Byte>)
      requires Geometry() && cell < cellNum && |section| + |bytes| <= cellSize
      requires pos == Base(Conf(), cell) + |section| && At(disk[..], Base(Conf(), cell), section)
      modifies disk
      ensures At(disk[..], Base(Conf(), cell), section + bytes)
      ensures forall other: nat, s {:trigger At(disk[..], Base(Conf(), other), s)} ::
                other != cell && |s| <= cellSize && At(old(disk[..]), Base(Conf(), other), s)
                ==> At(disk[..], Base(Conf(), other), s)
    {
      hide At, Base;
      CellInside(Conf(), cell);
      Extend(disk, pos, bytes, Base(Conf(), cell), section);
      forall other: nat, s | other != cell && |s| <= cellSize && At(old(disk[..]), Base(Conf(), other), s)
        ensures At(disk[..], Base(Conf(), other), s)
      {
        CellsApart(Conf(), cell, other);
      }
    }

    /** What a packet that starts a new cell leaves behind: the old cell full and pointing to the new one. */
    ghost predicate Turned(c: nat, tail: seq<Byte>, rest: nat, record: seq<Byte>)
      requires rest <= |record|
      reads this, disk
    {
      && At(disk[..], Base(Conf(), c), (tail + record[..rest]) + Enc(writeCell, POINTER_SIZE))
      && At(disk[..], Base(Conf(), writeCell), record[rest..])
    }

    ghost predicate Turning(header: seq<Byte>, data: seq<Byte>, offset: nat, tmpLen: nat, newOffset: nat,
                            c: nat, tail: seq<Byte>)
      reads this, disk
    {
      && Geometry() && |header| == headerLen && c < cellNum && writeCell < cellNum && c != writeCell
      && |tail| + tmpLen == Room(Conf()) && tmpLen < headerLen + |data| <= tmpLen + Room(Conf())
      && offset == Base(Conf(), c) + |tail| && newOffset == Base(Conf(), writeCell)
      && At(disk[..], Base(Conf(), c), tail)
    }

    /** The header does not fit the old cell: it is split there, or put behind the turn as a whole. */
    method SplitHeader(header: seq<Byte>, data: seq<Byte>, offset: nat, tmpLen: nat, newOffset: nat,
                       ghost c: nat, ghost tail: seq<Byte>)
      requires Turning(header, data, offset, tmpLen, newOffset, c, tail) && headerLen > tmpLen
      modifies disk
      ensures Turned(c, tail, tmpLen, header + data)
      ensures forall other: nat, s {:trigger At(disk[..], Base(Conf(), other), s)} ::
                other != c && other != writeCell && |s| <= cellSize && At(old(disk[..]), Base(Conf(), other), s)
                ==> At(disk[..], Base(Conf(), other), s)
    {
      hide At, Base, Enc;
      assert (header + data)[..tmpLen] == header[..tmpLen] && (header + data)[tmpLen..] == header[tmpLen..] + data;
      NewCell(writeCell);
      if tmpLen != 0 {
        Put(offset, header[..tmpLen], c, tail);
      } else {
        assert tail + header[..tmpLen] == tail;
      }
      Put(offset + tmpLen, Enc(writeCell, POINTER_SIZE), c, tail + header[..tmpLen]);
      assert [] + header[tmpLen..] == header[tmpLen..];
      if tmpLen == 0 {
        assert header[tmpLen..] == header;
        Put(newOffset, header, writeCell, []);
      } else {
        Put(newOffset, header[tmpLen..], writeCell, []);
      }
      Put(newOffset + headerLen - tmpLen, data, writeCell, header[tmpLen..]);
    }

    /** The header fits: the data goes on to the new cell, from its first byte again. */
    method SplitData(header: seq<Byte>, data: seq<Byte>, offset: nat, tmpLen: nat, newOffset: nat,
                     ghost c: nat, ghost tail: seq<Byte>)
      requires Turning(header, data, offset, tmpLen, newOffset, c, tail) && headerLen <= tmpLen
      modifies disk
      ensures Turned(c, tail, tmpLen, Record(Conf(), |tail|, header, data))
      ensures forall other: nat, s {:trigger At(disk[..], Base(Conf(), other), s)} ::
                other != c && other != writeCell && |s| <= cellSize && At(old(disk[..]), Base(Conf(), other), s)
                ==> At(disk[..], Base(Conf(), other), s)
    {
      hide At, Base, Enc;
      ghost var first := tmpLen - headerLen;
      SplitParts(Conf(), |tail|, header, data, tail);
      NewCell(writeCell);
      Put(offset, header, c, tail);
      if tmpLen > headerLen {
        Put(offset + headerLen, data[..tmpLen - headerLen], c, tail + header);
      } else {
        assert (tail + header) + data[..first] == tail + header;
      }
      Put(offset + tmpLen, Enc(writeCell, POINTER_SIZE), c, (tail + header) + data[..first]);
      assert [] + data[..|data| - first] == data[..|data| - first];
      Put(newOffset, data[..|data| + headerLen - tmpLen], writeCell, []);
    }

    static lemma SplitParts(g: Config, w: nat, header: seq<Byte>, data: seq<Byte>, tail: seq<Byte>)
      requires POINTER_SIZE < g.cellSize && |header| == g.headerLen
      requires w + g.headerLen <= Room(g) < w + g.headerLen + |data|
      ensures var first, r := Room(g) - w - g.headerLen, Record(g, w, header, data);
              && first <= |data| && Room(g) - w <= |r|
              && tail + r[..Room(g) - w] == (tail + header) + data[..first]
              && r[Room(g) - w..] == data[..|data| - first]
    {
      var first, r := Room(g) - w - g.headerLen, Record(g, w, header, data);
      if first == 0 {
        assert data[..|data| - first] == data && data[..first] == [];
        assert r == header + data;
      }
      assert r == header + data[..first] + data[..|data| - first];
      assert r[..Room(g) - w] == header + data[..first];
      SeqAssoc(tail, header, data[..first]);
    }

    /** Nothing is known of a cell that is not part of the log. */
    lemma NewCell(cell: nat)
      requires Geometry() && cell < cellNum
      ensures At(disk[..], Base(Conf(), cell), [])
    {
      CellInside(Conf(), cell);
      AtEmpty(disk[..], Base(Conf(), cell));
    }

    static lemma PlaceInCell(g: Config, cell: nat, w: nat)
      requires w < g.cellSize
      ensures (Base(g, cell) + w) % g.cellSize == w
    {
      DivUnique(Base(g, cell) + w, g.cellSize, cell, w);
    }

    /** `writePacketToPacketBuffer`, for the offset that `getOffset` gave; `ticket` is the value fetched from the shared
        cell counter, if it is needed. */
    method WritePacketToPacketBuffer(header: seq<Byte>, data: seq<Byte>, offset: nat, ticket: nat)
      requires Geometry() && Feasible(Conf(), trail, Arrival(header, data, ticket % cellNum))
      requires OnDisk(Conf(), disk[..], trail) && writeCell == Current(trail)
      requires offset == Base(Conf(), writeCell) + |trail.tail|
      requires writeOffset == Advance(Conf(), |trail.tail|, headerLen + |data|)
      modifies this`writeOffset, this`writeCell, this`trail, disk
      ensures trail == CellLog.Step(Conf(), old(trail), Arrival(header, data, ticket % cellNum))
      ensures CellLog.Valid(Conf(), trail) && OnDisk(Conf(), disk[..], trail)
      ensures writeCell == Current(trail) && writeOffset == |trail.tail|
    {
      hide At, Base, Enc, Distinct, OnDisk;
      StepValid(Conf(), trail, Arrival(header, data, ticket % cellNum));
      if writeOffset > cellSize {
        TurnCell(header, data, offset, ticket);
      } else {
        StayInCell(header, data, offset);
      }
      trail := CellLog.Step(Conf(), trail, Arrival(header, data, ticket % cellNum));
    }

    /** The packet fits the current cell. */
    method StayInCell(header: seq<Byte>, data: seq<Byte>, offset: nat)
      requires Geometry() && CellLog.Valid(Conf(), trail) && OnDisk(Conf(), disk[..], trail) && writeCell == Current(trail)
      requires |header| == headerLen && |trail.tail| + headerLen + |data| <= Room(Conf())
      requires offset == Base(Conf(), writeCell) + |trail.tail|
      modifies disk
      ensures OnDisk(Conf(), disk[..], trail.(tail := trail.tail + (header + data)))
    {
      hide At, Base, Enc, Distinct;
      Put(offset, header, writeCell, trail.tail);
      Put(offset + headerLen, data, writeCell, trail.tail + header);
      SeqAssoc(trail.tail, header, data);
      forall k | 0 <= k < |trail.full|
        ensures At(disk[..], Base(Conf(), trail.cells[k]), trail.full[k])
      {
        OtherCell(trail, k);
      }
    }

    /** The packet needs a new cell. */
    method TurnCell(header: seq<Byte>, data: seq<Byte>, offset: nat, ticket: nat)
      requires Geometry() && Feasible(Conf(), trail, Arrival(header, data, ticket % cellNum))
      requires OnDisk(Conf(), disk[..], trail) && writeCell == Current(trail)
      requires offset == Base(Conf(), writeCell) + |trail.tail|
      requires |trail.tail| + headerLen + |data| > Room(Conf())
      requires writeOffset == |trail.tail| + headerLen + |data| + POINTER_SIZE
      modifies this`writeOffset, this`writeCell, disk
      ensures writeCell == ticket % cellNum && writeOffset == |trail.tail| + headerLen + |data| - Room(Conf())
      ensures var t' := Append(Conf(), trail, Record(Conf(), |trail.tail|, header, data), writeCell);
              |t'.cells| == |t'.full| + 1 && OnDisk(Conf(), disk[..], t')
    {
      hide At, Base, Enc, Distinct;
      ghost var t, w, rest := trail, |trail.tail|, |trail.tail| + headerLen + |data| - Room(Conf());
      ghost var c := writeCell;
      assert c in t.cells;
      PlaceInCell(Conf(), 1, rest);
      BaseIs(Conf(), 1);
      PlaceInCell(Conf(), c, w);
      writeCell := ticket;
      writeCell := writeCell % cellNum;
      writeOffset := writeOffset % cellSize;
      var basicOffset := offset % cellSize;
      var tmpLen := cellSize - basicOffset - POINTER_SIZE;
      var newOffset := writeCell * cellSize;
      BaseIs(Conf(), writeCell);
      if headerLen > tmpLen {
        SplitHeader(header, data, offset, tmpLen, newOffset, c, t.tail);
      } else {
        SplitData(header, data, offset, tmpLen, newOffset, c, t.tail);
      }
      forall k | 0 <= k < |t.full|
        ensures At(disk[..], Base(Conf(), t.cells[k]), t.full[k])
      {
        OtherCell(t, k);
      }
      TurnedOnDisk(t, Record(Conf(), w, header, data));
    }

    static lemma BaseIs(g: Config, cell: nat)
      ensures Base(g, cell) == cell * g.cellSize
    {
    }

    static lemma OtherCell(t: Trail, k: nat)
      requires t.cells != [] && Distinct(t.cells) && k < |t.cells| - 1
      ensures t.cells[k] != Current(t) && t.cells[k] in t.cells
    {
      DistinctAt(t.cells, k, |t.cells| - 1);
    }

    lemma TurnedOnDisk(t: Trail, record: seq<Byte>)
      requires Geometry() && CellLog.Valid(Conf(), t) && |t.tail| + |record| > Room(Conf())
      requires FullCells(Conf(), disk[..], t.cells, t.full)
      requires Turned(Current(t), t.tail, Room(Conf()) - |t.tail|, record)
      ensures var t' := Append(Conf(), t, record, writeCell);
              |t'.cells| == |t'.full| + 1 && OnDisk(Conf(), disk[..], t')
    {
      hide At, Base, Enc, Distinct;
      var t' := Append(Conf(), t, record, writeCell);
      forall k | 0 <= k < |t'.full|
        ensures At(disk[..], Base(Conf(), t'.cells[k]), t'.full[k])
      {
        if k < |t.full| {
          assert t'.cells[k] == t.cells[k] && t'.cells[k + 1] == t.cells[k + 1] && t'.full[k] == t.full[k];
        } else {
          assert t'.cells[k] == Current(t) && t'.cells[k + 1] == writeCell;
        }
      }
    }

    /** `writeBefore`: the block buffer takes the bytes, or refuses them because their blocks are not in memory, and then
        nothing is written and nobody is told. */
    method WriteBefore(bytes: seq<Byte>, lastOffset: nat, taken: bool)
      requires lastOffset + |bytes| <= disk.Length
      modifies disk
      ensures disk[..] == if taken then WithLink(old(disk[..]), lastOffset, bytes) else old(disk[..])
    {
      if taken {
        Copy(disk, lastOffset, bytes);
      }
    }

    /** One captured packet; the result is the offset it is reported at. It is written, with the mark of a packet without
        successor, and then linked from the flow's previous packet or put into the index. */
    method Capture(fields: seq<Byte>, data: seq<Byte>, flow: F.FlowMetadata, ts: U64, ticket: nat, taken: bool)
      returns (offset: U64)
      requires Ready()
      requires Feasible(Conf(), trail, FlowDisk.ArrivalOf(FlowDisk.Incoming(fields, data, ticket % cellNum, flow, ts, taken)))
      modifies this`writeOffset, this`writeCell, this`index, this`trail, this`landed, this`seen, disk, packetAggregator
      ensures Ready()
      ensures var x := FlowDisk.Incoming(fields, data, ticket % cellNum, flow, ts, taken);
              && FlowDisk.Accepts(Conf(), Limit(), old(View()), x)
              && View() == FlowDisk.Step(Conf(), Limit(), old(View()), x)
              && offset == FlowDisk.Offset(Conf(), old(trail))
    {
      hide OnDisk, Base, CellLog.Step, Advance, Distinct, FlowDisk.Inv, F.Breaks, F.CalDiff, Feasible, CellLog.Valid, Enc, Patch;
      ghost var g, l, s, x := Conf(), Limit(), View(), FlowDisk.Incoming(fields, data, ticket % cellNum, flow, ts, taken);
      FlowDisk.InvBounded(g, l, s);
      FlowDisk.Accepted(g, l, s, x);
      FlowDisk.StepInv(g, l, s, x);
      FlowDisk.StepShape(g, l, s, x);
      FlowDisk.PlaceInside2(g, trail);
      AtOffset();
      var header := Enc(F.END, 4) + fields;
      offset := GetOffset(|data|);
      var last := packetAggregator.AddPacket(flow, offset, ts, diskSize);
      WritePacketToPacketBuffer(header, data, offset, ticket);
      seen, landed := seen + [FlowDisk.SeenOf(g, s, x)], landed - {offset as nat};
      if !F.Breaks(l, s.agg, FlowDisk.PacketOf(g, s, x)) {
        FlowDisk.FlowKnown(l, s.agg, FlowDisk.PacketOf(g, s, x));
      }
      if last != MAX_U64 {
        var diff := F.Truncate32(F.CalDiff(offset, last, diskSize));
        LinkInside(g, l, s, flow);
        FlowDisk.TrailSizes(g, trail);
        PatchOnDisk(g, disk[..], trail, last, Enc(diff, 4));
        PatchShape(g, trail, last, Enc(diff, 4));
        WriteBefore(Enc(diff, 4), last, taken);
        if taken {
          trail, landed := Patch(g, trail, last, Enc(diff, 4)), landed[last as nat := diff];
        }
      } else {
        index := index + [F.Packet(flow, offset, ts)];
      }
    }

    /** Every packet's bytes say the right thing about its successor, as FlowOnDisk asks. */
    ghost predicate AllRight(f: F.FlowMetadata)
      requires Ready()
      reads this, disk, packetAggregator
    {
      forall i :: 0 <= i < |seen| && seen[i].packet.flow == f ==> FlowDisk.Right(Conf(), Limit(), View(), seen[i])
    }

    /** The loop of `run`, on packets that fit when they arrive: the object follows the run model, and the bytes on disk give
        back exactly the flows whose packets all say the right thing. */
    method CaptureAll(xs: seq<FlowDisk.Incoming>, ghost first: nat)
      requires Ready() && View() == FlowDisk.Start(first) && FlowDisk.Ready(Conf(), Limit(), first)
      requires FlowDisk.Run(Conf(), Limit(), first, xs).Some? && forall i :: 0 <= i < |xs| ==> xs[i].nextCell < cellNum
      modifies this`writeOffset, this`writeCell, this`index, this`trail, this`landed, this`seen, disk, packetAggregator
      ensures Ready() && FlowDisk.Run(Conf(), Limit(), first, xs) == Wrappers.Some(View())
      ensures diskSize > 0 && F.Placed(Limit(), FlowDisk.Packets(seen))
      ensures forall f :: GivenBack(disk[..], Limit(), FlowDisk.Packets(seen), f, |xs|) <==> AllRight(f)
    {
      hide Ready, FlowDisk.Step, FlowDisk.Accepts;
      FlowDisk.RunZero(Conf(), Limit(), first);
      var i := 0;
      assert xs[..0] == [];
      while i < |xs|
        invariant 0 <= i <= |xs|
        invariant Ready() && FlowDisk.Run(Conf(), Limit(), first, xs[..i]) == Wrappers.Some(View())
      {
        FlowDisk.RunPrefix(Conf(), Limit(), first, xs, i);
        FlowDisk.Accepted(Conf(), Limit(), View(), xs[i]);
        SmallMod(xs[i].nextCell, cellNum);
        var _ := Capture(xs[i].fields, xs[i].data, xs[i].flow, xs[i].ts, xs[i].nextCell, xs[i].taken);
        i := i + 1;
      }
      assert xs[..i] == xs;
      FlowsReadable(xs, first);
    }

    lemma FlowsReadable(xs: seq<FlowDisk.Incoming>, first: nat)
      requires Ready() && FlowDisk.Ready(Conf(), Limit(), first)
      requires FlowDisk.Run(Conf(), Limit(), first, xs) == Wrappers.Some(View())
      ensures diskSize > 0 && F.Placed(Limit(), FlowDisk.Packets(seen))
      ensures forall f :: GivenBack(disk[..], Limit(), FlowDisk.Packets(seen), f, |xs|) <==> AllRight(f)
    {
      hide FlowDisk.Run, OnDisk, GivenBack, FlowDisk.Right, FlowDisk.Describes, FlowDisk.Inv;
      FlowDisk.TrailSizesOf(Conf(), Limit(), View());
      FlowDisk.InvParts(Conf(), Limit(), View());
      FlowDisk.RunSeen(Conf(), Limit(), first, xs);
      forall i | 0 <= i < |xs|
        ensures seen[i].packet.flow == xs[i].flow
      {
        FlowDisk.DescribedFlow(Conf(), seen[i], xs[i]);
      }
      forall f
        ensures GivenBack(disk[..], Limit(), FlowDisk.Packets(seen), f, |xs|) <==> AllRight(f)
      {
        FlowDisk.FlowOnDisk(Conf(), Limit(), first, xs, disk[..], f);
      }
    }

    lemma AtOffset()
      requires Ready()
      ensures CellLog.Valid(Conf(), trail) && writeCell < cellNum && writeOffset + POINTER_SIZE <= cellSize
      ensures FlowDisk.Offset(Conf(), trail) == Base(Conf(), writeCell) + writeOffset
    {
      hide Base, Distinct, OnDisk;
    }

    /** A link is written inside the cell of the packet it is written to. */
    static lemma LinkInside(g: Config, l: F.Limits, s: FlowDisk.Capture, flow: F.FlowMetadata)
      requires FlowDisk.Inv(g, l, s) && flow in s.agg
      ensures s.agg[flow].lastOffset + 4 <= g.diskSize
    {
      hide Base, Distinct, Position, FlowDisk.Length, F.Run, F.Placed;
      var j := FlowDisk.LastOne(g, l, s, flow);
      FlowDisk.PlaceBefore(g, l, s, j);
      FlowDisk.PlaceInside(g, s.trail.cells[s.seen[j].cell], s.seen[j].within);
    }
  }
}
