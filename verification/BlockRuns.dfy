/** Runs of the block buffer: writes, hand-outs and recycled blocks in any order, and what a handed-out block then says. */
module BlockRuns {
  import opened Bytes
  import opened Wrappers
  import opened BlockWindow
  import opened DataBlockBuffers

  datatype Op = WriteBlock(w: Write) | GetBlock(thread: nat) | RecycleBlock(block: nat)

  ghost predicate Enabled(g: Geometry, s: State, op: Op) {
    match op
    case WriteBlock(w) => Writable(g, s, w)
    case GetBlock(thread) => Shaped(g, s) && thread < |s.checks|
    case RecycleBlock(block) => Shaped(g, s) && block < g.totalBlockNum
  }

  ghost function After(g: Geometry, s: State, op: Op): State
    requires Enabled(g, s, op)
  {
    match op
    case WriteBlock(w) => AfterWrite(g, s, w)
    case GetBlock(thread) => AfterHandOut(g, s, thread)
    case RecycleBlock(block) => AfterRecycle(g, s, block)
  }

  /** The state after the operations, if every one of them can be called. */
  ghost function Run(g: Geometry, s: State, ops: seq<Op>): Option<State> {
    if ops == [] then Some(s)
    else
      var before := Run(g, s, ops[..|ops| - 1]);
      if before.None? || !Enabled(g, before.value, ops[|ops| - 1]) then None
      else Some(After(g, before.value, ops[|ops| - 1]))
  }

  lemma AfterShaped(g: Geometry, s: State, op: Op)
    requires Shaped(g, s) && Enabled(g, s, op)
    ensures Shaped(g, After(g, s, op))
  {
    match op
    case WriteBlock(w) =>
      hide AfterWrite, Shaped;
      AfterWriteShaped(g, s, w);
    case GetBlock(thread) =>
    case RecycleBlock(block) =>
  }

  lemma {:induction false} RunShaped(g: Geometry, s: State, ops: seq<Op>)
    requires Shaped(g, s) && Run(g, s, ops).Some?
    ensures Shaped(g, Run(g, s, ops).value)
  {
    hide Shaped, Enabled, After;
    if ops != [] {
      RunShaped(g, s, ops[..|ops| - 1]);
      AfterShaped(g, Run(g, s, ops[..|ops| - 1]).value, ops[|ops| - 1]);
    }
  }

  // ----- start times

  /** How many blocks the end of a write is past the block it starts in: none, or one when it reaches the block's end. */
  function BlocksPast(g: Geometry, w: Write): nat
    requires g.blockSize > 0
  {
    if w.pos % g.blockSize + |w.data| >= g.blockSize then 1 else 0
  }

  /** The end of a write, counted from the start of its first block, falls on a multiple of a writer's share of a block. */
  predicate EndsShare(g: Geometry, w: Write)
    requires 0 < g.rssNum <= g.blockSize
  {
    MarkPositive(g.blockSize, g.rssNum);
    (w.pos % g.blockSize + |w.data|) % (g.blockSize / g.rssNum) == 0
  }

  /** An accepted write of new data that reaches the end of a block offers its time stamp to the next one; at the end of
      a share of a block it offers it to the block after the one it ended in. */
  ghost predicate Offers(g: Geometry, s: State, op: Op, b: nat)
    requires Enabled(g, s, op)
  {
    && op.WriteBlock? && op.w.newData && Succeeds(g, s, op.w)
    && var first, past := op.w.pos / g.blockSize, BlocksPast(g, op.w);
       || (past == 1 && (first + 1) % g.totalBlockNum == b)
       || (EndsShare(g, op.w) && (first + past + 1) % g.totalBlockNum == b)
  }

  lemma WriteBlocks(g: Geometry, w: Write)
    requires Sound(g)
    ensures Crosses(g, w) <==> BlocksPast(g, w) == 1
    ensures OnMark(g, w) <==> EndsShare(g, w)
    ensures FirstBlock(g, w) == (w.pos / g.blockSize) % g.totalBlockNum
    ensures LastBlock(g, w) == (w.pos / g.blockSize + BlocksPast(g, w)) % g.totalBlockNum
    ensures (LastBlock(g, w) + 1) % g.totalBlockNum == (w.pos / g.blockSize + BlocksPast(g, w) + 1) % g.totalBlockNum
  {
    ModStep(w.pos / g.blockSize, g.totalBlockNum);
    ModStep(w.pos / g.blockSize + BlocksPast(g, w), g.totalBlockNum);
  }

  /** All time stamps offered to block b: those before its last recycling, and those since. */
  ghost function Stamps(g: Geometry, s: State, ops: seq<Op>, b: nat): (r: (seq<U64>, seq<U64>))
    requires Run(g, s, ops).Some?
  {
    if ops == [] then ([], [])
    else
      var n := |ops| - 1;
      var (earlier, lap) := Stamps(g, s, ops[..n], b);
      if ops[n] == RecycleBlock(b) then (earlier + lap, [])
      else if Offers(g, Run(g, s, ops[..n]).value, ops[n], b) then (earlier, lap + [ops[n].w.ts])
      else (earlier, lap)
  }

  /** The least of some time stamps; the largest word when there is none. */
  function Least(stamps: seq<U64>): (m: U64)
    ensures forall i :: 0 <= i < |stamps| ==> m <= stamps[i]
    ensures m == MAX_U64 || m in stamps
  {
    if stamps == [] then MAX_U64 else Min(Least(stamps[..|stamps| - 1]), stamps[|stamps| - 1])
  }

  lemma {:induction false} LeastConcat(a: seq<U64>, b: seq<U64>)
    ensures Least(a + b) == Min(Least(a), Least(b))
  {
    if b == [] {
      assert a + b == a;
    } else {
      LeastConcat(a, b[..|b| - 1]);
      assert (a + b)[..|a + b| - 1] == a + b[..|b| - 1];
    }
  }

  lemma OfferStep(g: Geometry, s: State, op: Op, b: nat)
    requires Enabled(g, s, op) && b < g.totalBlockNum
    ensures Shaped(g, s) && (Offers(g, s, op, b) ==> op.WriteBlock?)
    ensures After(g, s, op).starts[b] == if Offers(g, s, op, b) then Min(s.starts[b], op.w.ts) else s.starts[b]
  {
    hide Mapped, NewEnds, NewCounts, NewBytes, ReachedDisk, Mark, OnMark, Crosses, LastBlock, FirstBlock, BlocksPast, EndsShare;
    if op.WriteBlock? {
      WriteBlocks(g, op.w);
    }
  }

  lemma FreshStart(g: Geometry, s: State, b: nat)
    requires Fresh(g, s) && b < g.totalBlockNum
    ensures b < |s.starts| && s.starts[b] == MAX_U64
  {
  }

  /** Over any run a block's start time is the least of all time stamps ever offered to the block; nothing resets it. */
  lemma {:induction false} StartIsLeast(g: Geometry, s: State, ops: seq<Op>, b: nat)
    requires Fresh(g, s) && Run(g, s, ops).Some? && b < g.totalBlockNum
    ensures Shaped(g, Run(g, s, ops).value)
    ensures var (earlier, lap) := Stamps(g, s, ops, b);
            Run(g, s, ops).value.starts[b] == Least(earlier + lap)
  {
    hide Shaped, Enabled, After, Offers;
    RunShaped(g, s, ops);
    if ops == [] {
      FreshStart(g, s, b);
      assert Stamps(g, s, ops, b) == ([], []);
    } else {
      var n := |ops| - 1;
      StartIsLeast(g, s, ops[..n], b);
      OfferStep(g, Run(g, s, ops[..n]).value, ops[n], b);
      var (earlier, lap) := Stamps(g, s, ops[..n], b);
      LeastConcat(earlier, lap);
      if ops[n] == RecycleBlock(b) {
        assert (earlier + lap) + [] == earlier + lap;
      } else if Offers(g, Run(g, s, ops[..n]).value, ops[n], b) {
        assert (earlier + (lap + [ops[n].w.ts]))[..|earlier + lap|] == earlier + lap;
      }
    }
  }

  /** The start time a block is handed out with is that of its current lap, the least time stamp offered since it was last
      recycled, exactly when no earlier lap was offered a smaller one. */
  lemma StartOfLapIff(g: Geometry, s: State, ops: seq<Op>, thread: nat)
    requires Fresh(g, s) && Run(g, s, ops).Some? && thread < |Run(g, s, ops).value.checks|
    ensures Shaped(g, Run(g, s, ops).value)
    ensures var block := HandedOut(g, Run(g, s, ops).value, thread);
            var (earlier, lap) := Stamps(g, s, ops, block.blockId);
            && block.startTime == Least(earlier + lap)
            && (block.startTime == Least(lap) <==> forall i :: 0 <= i < |earlier| ==> Least(lap) <= earlier[i])
  {
    hide Run, Stamps, Fresh;
    RunOfFresh(g, s, ops);
    var b := Run(g, s, ops).value.checks[thread];
    StartIsLeast(g, s, ops, b);
    var (earlier, lap) := Stamps(g, s, ops, b);
    LeastConcat(earlier, lap);
  }

  lemma RunOfFresh(g: Geometry, s: State, ops: seq<Op>)
    requires Fresh(g, s) && Run(g, s, ops).Some?
    ensures Sound(g) && Shaped(g, s) && Shaped(g, Run(g, s, ops).value)
  {
    hide Run;
    RunShaped(g, s, ops);
  }

  // ----- end times

  /** A write of new data that reaches the end of a mapped block sets the end time of that block, even when the write is
      then refused; an accepted one at the end of a share of a block sets it for the block it ended in. */
  ghost predicate Closes(g: Geometry, s: State, op: Op, b: nat)
    requires Enabled(g, s, op)
  {
    && op.WriteBlock? && op.w.newData
    && var first, past := op.w.pos / g.blockSize, BlocksPast(g, op.w);
       || (past == 1 && BlockMapped(g, s.ids, op.w.pos) && first % g.totalBlockNum == b)
       || (Succeeds(g, s, op.w) && EndsShare(g, op.w) && (first + past) % g.totalBlockNum == b)
  }

  /** All time stamps that closed block b: those before its last recycling, and those since. */
  ghost function Closings(g: Geometry, s: State, ops: seq<Op>, b: nat): (r: (seq<U64>, seq<U64>))
    requires Run(g, s, ops).Some?
  {
    if ops == [] then ([], [])
    else
      var n := |ops| - 1;
      var (earlier, lap) := Closings(g, s, ops[..n], b);
      if ops[n] == RecycleBlock(b) then (earlier + lap, [])
      else if Closes(g, Run(g, s, ops[..n]).value, ops[n], b) then (earlier, lap + [ops[n].w.ts])
      else (earlier, lap)
  }

  /** The last of some time stamps; 0 when there is none. */
  function Last(stamps: seq<U64>): U64 {
    if stamps == [] then 0 else stamps[|stamps| - 1]
  }

  lemma CloseStep(g: Geometry, s: State, op: Op, b: nat)
    requires Enabled(g, s, op) && b < g.totalBlockNum
    ensures Shaped(g, s) && (Closes(g, s, op, b) ==> op.WriteBlock?)
    ensures After(g, s, op).ends[b] == if Closes(g, s, op, b) then op.w.ts else s.ends[b]
  {
    hide Mapped, NewStarts, NewCounts, NewBytes, ReachedDisk, Mark, OnMark, Crosses, LastBlock, BlocksPast, EndsShare;
    if op.WriteBlock? {
      WriteBlocks(g, op.w);
    }
  }

  lemma FreshEnd(g: Geometry, s: State, b: nat)
    requires Fresh(g, s) && b < g.totalBlockNum
    ensures b < |s.ends| && s.ends[b] == 0
  {
  }

  /** Over any run a block's end time is that of the last write that closed it, of an earlier lap when the current one has
      none: recycling does not reset it either. */
  lemma {:induction false} EndIsLast(g: Geometry, s: State, ops: seq<Op>, b: nat)
    requires Fresh(g, s) && Run(g, s, ops).Some? && b < g.totalBlockNum
    ensures Shaped(g, Run(g, s, ops).value)
    ensures var (earlier, lap) := Closings(g, s, ops, b);
            Run(g, s, ops).value.ends[b] == if lap != [] then Last(lap) else Last(earlier)
  {
    hide Shaped, Enabled, After, Closes;
    RunShaped(g, s, ops);
    if ops == [] {
      FreshEnd(g, s, b);
      assert Closings(g, s, ops, b) == ([], []);
    } else {
      var n := |ops| - 1;
      EndIsLast(g, s, ops[..n], b);
      CloseStep(g, Run(g, s, ops[..n]).value, ops[n], b);
      var (earlier, lap) := Closings(g, s, ops[..n], b);
      if ops[n] == RecycleBlock(b) {
        assert lap != [] ==> Last(earlier + lap) == Last(lap);
        assert lap == [] ==> earlier + lap == earlier;
      }
    }
  }

  /** The end time a block is handed out with: that of its current lap as soon as one write of the lap closed it. */
  lemma EndOfLap(g: Geometry, s: State, ops: seq<Op>, thread: nat)
    requires Fresh(g, s) && Run(g, s, ops).Some? && thread < |Run(g, s, ops).value.checks|
    ensures Shaped(g, Run(g, s, ops).value)
    ensures var block := HandedOut(g, Run(g, s, ops).value, thread);
            var (earlier, lap) := Closings(g, s, ops, block.blockId);
            block.endTime == if lap != [] then Last(lap) else Last(earlier)
  {
    hide Run, Closings, Fresh;
    RunOfFresh(g, s, ops);
    EndIsLast(g, s, ops, Run(g, s, ops).value.checks[thread]);
  }

  // ----- a run on which the start time fails

  /** One more operation. */
  lemma RunNext(g: Geometry, s: State, ops: seq<Op>, op: Op, b: nat)
    requires Run(g, s, ops).Some? && Enabled(g, Run(g, s, ops).value, op)
    ensures Run(g, s, ops + [op]) == Some(After(g, Run(g, s, ops).value, op))
    ensures var (earlier, lap) := Stamps(g, s, ops, b);
            Stamps(g, s, ops + [op], b)
            == if op == RecycleBlock(b) then (earlier + lap, [])
               else if Offers(g, Run(g, s, ops).value, op, b) then (earlier, lap + [op.w.ts]) else (earlier, lap)
  {
    hide Enabled, After, Offers;
    assert (ops + [op])[..|ops|] == ops;
  }

  /** A write of one whole block, whose block and next block are mapped. */
  lemma WholeBlock(g: Geometry, s: State, k: nat, d: seq<Byte>, ts: U64)
    requires Shaped(g, s) && g.totalBlockNum >= 2 && s.writers != [] && |d| == g.blockSize
    requires s.ids[k % g.totalBlockNum] == k % g.diskBlockNum
    requires s.ids[(k % g.totalBlockNum + 1) % g.totalBlockNum] == (k % g.diskBlockNum + 1) % g.diskBlockNum
    ensures var op := WriteBlock(Write(d, k * g.blockSize, 0, true, true, ts));
            && Enabled(g, s, op) && Offers(g, s, op, (k % g.totalBlockNum + 1) % g.totalBlockNum)
            && After(g, s, op).ids == s.ids && After(g, s, op).checks == s.checks && After(g, s, op).writers != []
            && Shaped(g, After(g, s, op))
  {
    hide NewStarts, NewEnds, NewCounts, NewBytes, ReachedDisk, Mark, OnMark, Shaped;
    assert Sound(g) && |s.ids| == g.totalBlockNum by { ShapedSizes(g, s); }
    DivUnique(k * g.blockSize, g.blockSize, k, 0);
    BlockFits(g);
    var op := WriteBlock(Write(d, k * g.blockSize, 0, true, true, ts));
    ModStep(k, g.totalBlockNum);
    AfterShaped(g, s, op);
  }

  lemma ShapedSizes(g: Geometry, s: State)
    requires Shaped(g, s)
    ensures Sound(g) && |s.ids| == |s.starts| == g.totalBlockNum
  {
  }

  /** A check thread hands out block b, which is then recycled. */
  lemma HandOutRecycle(g: Geometry, s: State, b: nat)
    requires Shaped(g, s) && b < g.totalBlockNum && s.checks == [b]
    ensures Enabled(g, s, GetBlock(0)) && Enabled(g, After(g, s, GetBlock(0)), RecycleBlock(b))
    ensures var s' := After(g, After(g, s, GetBlock(0)), RecycleBlock(b));
            && Shaped(g, s') && s'.ids == s.ids[b := Recycled(s.ids[b], g)] && s'.starts == s.starts
            && s'.writers == s.writers && s'.checks == [(b + 1) % g.totalBlockNum]
    ensures forall other :: !Offers(g, s, GetBlock(0), other)
                            && !Offers(g, After(g, s, GetBlock(0)), RecycleBlock(b), other)
  {
    AfterShaped(g, s, GetBlock(0));
    AfterShaped(g, After(g, s, GetBlock(0)), RecycleBlock(b));
  }

  function FirstLap(g: Geometry, d: seq<Byte>, ts: U64): seq<Op> {
    [WriteBlock(Write(d, 0 * g.blockSize, 0, true, true, ts))]
    + [GetBlock(0)] + [RecycleBlock(0)] + [GetBlock(0)] + [RecycleBlock(1)]
  }

  lemma AfterFirstLap(g: Geometry, s: State, d: seq<Byte>, ts: U64)
    requires Fresh(g, s) && g.totalBlockNum >= 2 && s.writers != [] && s.checks == [0] && |d| == g.blockSize
    ensures var r := Run(g, s, FirstLap(g, d, ts));
            && r.Some? && Shaped(g, r.value) && r.value.writers != [] && r.value.starts[1] == ts
            && r.value.ids[0] == g.totalBlockNum && r.value.ids[1] == g.totalBlockNum + 1
            && Stamps(g, s, FirstLap(g, d, ts), 1) == ([ts], [])
  {
    hide Run, Stamps, Enabled, After, Offers, Shaped;
    var t, w := g.totalBlockNum, WriteBlock(Write(d, 0 * g.blockSize, 0, true, true, ts));
    ShapedSizes(g, s);
    FreshStart(g, s, 1);
    SmallMods(g);
    WholeBlock(g, s, 0, d, ts);
    OfferStep(g, s, w, 1);
    var s1 := After(g, s, w);
    ShapedSizes(g, s1);
    HandOutRecycle(g, s1, 0);
    var s2 := After(g, s1, GetBlock(0));
    var s3 := After(g, s2, RecycleBlock(0));
    ShapedSizes(g, s3);
    HandOutRecycle(g, s3, 1);
    var s4 := After(g, s3, GetBlock(0));
    NothingRun(g, s, 1);
    RunNext(g, s, [], w, 1);
    assert [] + [w] == [w] && [] + [ts] == [ts] && [ts] + [] == [ts];
    RunNext(g, s, [w], GetBlock(0), 1);
    RunNext(g, s, [w] + [GetBlock(0)], RecycleBlock(0), 1);
    RunNext(g, s, [w] + [GetBlock(0)] + [RecycleBlock(0)], GetBlock(0), 1);
    RunNext(g, s, [w] + [GetBlock(0)] + [RecycleBlock(0)] + [GetBlock(0)], RecycleBlock(1), 1);
    var s5 := After(g, s4, RecycleBlock(1));
    ShapedSizes(g, s5);
  }

  lemma NothingRun(g: Geometry, s: State, b: nat)
    ensures Run(g, s, []) == Some(s) && Stamps(g, s, [], b) == ([], [])
  {
  }

  lemma SmallMods(g: Geometry)
    requires Sound(g) && g.totalBlockNum >= 2
    ensures var t, d := g.totalBlockNum, g.diskBlockNum;
            && 0 % t == 0 && 0 % d == 0 && 1 % t == 1 && 1 % d == 1 && t % t == 0 && t % d == t && (t + 1) % d == t + 1
            && Recycled(0, g) == t && Recycled(1, g) == t + 1
  {
    DivUnique(1, g.totalBlockNum, 0, 1);
    DivUnique(1, g.diskBlockNum, 0, 1);
    DivUnique(g.totalBlockNum, g.totalBlockNum, 1, 0);
    DivUnique(g.totalBlockNum, g.diskBlockNum, 0, g.totalBlockNum);
    DivUnique(g.totalBlockNum + 1, g.diskBlockNum, 0, g.totalBlockNum + 1);
  }

  /** Two laps of block 1, for every buffer of two blocks or more: it is written, handed out and recycled, and written
      again; what it then says is the time stamp of the first lap. */
  lemma TwoLaps(g: Geometry, s: State, d1: seq<Byte>, d2: seq<Byte>, t1: U64, t2: U64)
    requires Fresh(g, s) && g.totalBlockNum >= 2 && s.writers != [] && s.checks == [0]
    requires |d1| == |d2| == g.blockSize && t1 < t2
    ensures var second := WriteBlock(Write(d2, g.totalBlockNum * g.blockSize, 0, true, true, t2));
            var ops := FirstLap(g, d1, t1) + [second];
            && Run(g, s, ops).Some? && Run(g, s, ops).value.ids[1] == g.totalBlockNum + 1
            && Run(g, s, ops).value.starts[1] == t1 && Stamps(g, s, ops, 1) == ([t1], [t2])
  {
    hide Run, Stamps, Enabled, After, Offers, Shaped, FirstLap;
    ShapedSizes(g, s);
    SmallMods(g);
    AfterFirstLap(g, s, d1, t1);
    var s1 := Run(g, s, FirstLap(g, d1, t1)).value;
    var second := WriteBlock(Write(d2, g.totalBlockNum * g.blockSize, 0, true, true, t2));
    ShapedSizes(g, s1);
    WholeBlock(g, s1, g.totalBlockNum, d2, t2);
    OfferStep(g, s1, second, 1);
    RunNext(g, s, FirstLap(g, d1, t1), second, 1);
    assert [] + [t2] == [t2];
  }

  // ----- writer positions

  /** A writer of new data is recorded at the disk block of the byte after its last one, or of its first when that is not
      mapped; a write that is no new data moves nobody. */
  lemma WriterReaches(g: Geometry, s: State, w: Write)
    requires Writable(g, s, w) && |w.data| <= g.blockSize
    ensures AfterWrite(g, s, w).writers
         == if !w.newData then s.writers
            else s.writers[w.thread :=
                   ((if BlockMapped(g, s.ids, w.pos) then w.pos + |w.data| else w.pos) / g.blockSize) % g.diskBlockNum]
  {
    hide NewStarts, NewEnds, NewCounts, NewBytes;
    NextBlock(w.pos, |w.data|, g.blockSize);
    ModStep(w.pos / g.blockSize, g.diskBlockNum);
  }

  // ----- packet counts

  /** An accepted write that starts an indexed packet in block b. */
  ghost predicate Indexes(g: Geometry, s: State, op: Op, b: nat)
    requires Enabled(g, s, op)
  {
    && op.WriteBlock? && op.w.newData && op.w.newIndex && Succeeds(g, s, op.w)
    && (op.w.pos / g.blockSize) % g.totalBlockNum == b
  }

  ghost predicate HandsOut(g: Geometry, s: State, op: Op, b: nat)
    requires Enabled(g, s, op)
  {
    op.GetBlock? && s.checks[op.thread] == b
  }

  /** The indexed packets accepted into block b since it was last handed out. */
  ghost function Packets(g: Geometry, s: State, ops: seq<Op>, b: nat): nat
    requires Run(g, s, ops).Some?
  {
    if ops == [] then 0
    else
      var n := |ops| - 1;
      var before := Run(g, s, ops[..n]).value;
      if HandsOut(g, before, ops[n], b) then 0
      else Packets(g, s, ops[..n], b) + if Indexes(g, before, ops[n], b) then 1 else 0
  }

  lemma {:induction false} SumOfZeros(g: Geometry, counts: seq<nat>, b: nat, n: nat)
    requires |counts| == g.totalBlockNum * g.rssNum && n <= g.rssNum && b < g.totalBlockNum
    requires forall j :: 0 <= j < |counts| && j % g.totalBlockNum == b ==> counts[j] == 0
    ensures PacketSum(g, counts, b, n) == 0
  {
    if n > 0 {
      SumOfZeros(g, counts, b, n - 1);
      CountPlace(g, b, n - 1);
    }
  }

  lemma CountPlace(g: Geometry, b: nat, i: nat)
    requires b < g.totalBlockNum && i < g.rssNum
    ensures b + g.totalBlockNum * i < g.totalBlockNum * g.rssNum
    ensures (b + g.totalBlockNum * i) % g.totalBlockNum == b && (b + g.totalBlockNum * i) / g.totalBlockNum == i
  {
    MulMono(i, g.rssNum - 1, g.totalBlockNum);
    DivUnique(b + g.totalBlockNum * i, g.totalBlockNum, i, b);
  }

  /** Counts that differ in one place, of another block or of the i-th writer of this one. */
  lemma {:induction false} SumUpdated(g: Geometry, counts: seq<nat>, c: nat, i: nat, b: nat, n: nat)
    requires |counts| == g.totalBlockNum * g.rssNum && n <= g.rssNum && b < g.totalBlockNum
    requires c < g.totalBlockNum && i < g.rssNum
    ensures c + g.totalBlockNum * i < |counts|
    ensures PacketSum(g, counts[c + g.totalBlockNum * i := counts[c + g.totalBlockNum * i] + 1], b, n)
         == PacketSum(g, counts, b, n) + if c == b && i < n then 1 else 0
  {
    CountPlace(g, c, i);
    if n > 0 {
      SumUpdated(g, counts, c, i, b, n - 1);
      CountPlace(g, b, n - 1);
    }
  }

  lemma {:induction false} SumKept(g: Geometry, counts: seq<nat>, cleared: nat, b: nat, n: nat)
    requires |counts| == g.totalBlockNum * g.rssNum && n <= g.rssNum && b < g.totalBlockNum && cleared != b
    ensures PacketSum(g, Cleared(counts, cleared, g.totalBlockNum), b, n) == PacketSum(g, counts, b, n)
  {
    if n > 0 {
      SumKept(g, counts, cleared, b, n - 1);
      CountPlace(g, b, n - 1);
    }
  }

  lemma SumStep(g: Geometry, s: State, op: Op, b: nat)
    requires Shaped(g, s) && Enabled(g, s, op) && b < g.totalBlockNum
    ensures |After(g, s, op).counts| == |s.counts| == g.totalBlockNum * g.rssNum
    ensures PacketSum(g, After(g, s, op).counts, b, g.rssNum)
         == if HandsOut(g, s, op, b) then 0
            else PacketSum(g, s.counts, b, g.rssNum) + if Indexes(g, s, op, b) then 1 else 0
  {
    hide PacketSum, NewStarts, NewEnds, NewBytes, ReachedDisk, Mapped;
    match op
    case WriteBlock(w) =>
      SumUpdated(g, s.counts, FirstBlock(g, w), w.thread, b, g.rssNum);
    case GetBlock(thread) =>
      if s.checks[thread] == b {
        SumOfZeros(g, After(g, s, op).counts, b, g.rssNum);
      } else {
        SumKept(g, s.counts, s.checks[thread], b, g.rssNum);
      }
    case RecycleBlock(_) =>
  }

  lemma {:induction false} CountIsPackets(g: Geometry, s: State, ops: seq<Op>, b: nat)
    requires Fresh(g, s) && Run(g, s, ops).Some? && b < g.totalBlockNum
    ensures Shaped(g, Run(g, s, ops).value)
    ensures PacketSum(g, Run(g, s, ops).value.counts, b, g.rssNum) == Packets(g, s, ops, b)
  {
    hide Shaped, Enabled, After, HandsOut, Indexes, PacketSum, Fresh;
    RunOfFresh(g, s, ops);
    if ops == [] {
      FreshCounts(g, s, b);
    } else {
      CountIsPackets(g, s, ops[..|ops| - 1], b);
      SumStep(g, Run(g, s, ops[..|ops| - 1]).value, ops[|ops| - 1], b);
    }
  }

  /** The packet count a block is handed out with is the number of indexed packets accepted into it since it was last
      handed out, whichever threads wrote them and however often it was recycled. */
  lemma HandedOutCount(g: Geometry, s: State, ops: seq<Op>, thread: nat)
    requires Fresh(g, s) && Run(g, s, ops).Some? && thread < |Run(g, s, ops).value.checks|
    ensures Shaped(g, Run(g, s, ops).value)
    ensures var block := HandedOut(g, Run(g, s, ops).value, thread);
            block.packetCount == Packets(g, s, ops, block.blockId)
  {
    hide Run, Packets, Fresh, PacketSum;
    RunOfFresh(g, s, ops);
    CountIsPackets(g, s, ops, Run(g, s, ops).value.checks[thread]);
  }

  lemma FreshCounts(g: Geometry, s: State, b: nat)
    requires Fresh(g, s) && b < g.totalBlockNum
    ensures |s.counts| == g.totalBlockNum * g.rssNum && PacketSum(g, s.counts, b, g.rssNum) == 0
  {
    hide PacketSum;
    SumOfZeros(g, s.counts, b, g.rssNum);
  }

  // ----- bytes

  /** The disk address is covered by an accepted write. */
  ghost predicate Writes(g: Geometry, s: State, op: Op, a: nat)
    requires Enabled(g, s, op) && DiskSize(g) > 0
  {
    op.WriteBlock? && Succeeds(g, s, op.w) && Offset(a, op.w.pos % DiskSize(g), DiskSize(g)) < |op.w.data|
  }

  function BlockOfAddress(g: Geometry, a: nat): nat
    requires Sound(g)
  {
    (a / g.blockSize) % g.totalBlockNum
  }

  /** The byte that the last accepted write over a disk address left there since the block of the address was last
      recycled; without one, what the block held at that place when it was recycled, or at the start. */
  ghost function LastWritten(g: Geometry, s: State, ops: seq<Op>, a: nat): Byte
    requires Sound(g) && DiskSize(g) > 0 && BufferSize(g) > 0
    requires Run(g, s, ops).Some?
  {
    if ops == [] then ByteAt(s, a % BufferSize(g))
    else
      var n := |ops| - 1;
      var before := Run(g, s, ops[..n]).value;
      if Writes(g, before, ops[n], a) then
        var w := ops[n].w;
        w.data[Offset(a, w.pos % DiskSize(g), DiskSize(g))]
      else if ops[n] == RecycleBlock(BlockOfAddress(g, a)) then ByteAt(before, a % BufferSize(g))
      else LastWritten(g, s, ops[..n], a)
  }

  function ByteAt(s: State, i: nat): Byte {
    if i < |s.bytes| then s.bytes[i] else 0
  }

  /** All writes of the run touch two blocks at most. */
  ghost predicate ShortWrites(g: Geometry, ops: seq<Op>)
    requires Sound(g)
  {
    forall i :: 0 <= i < |ops| && ops[i].WriteBlock? ==> InTwoBlocks(g, ops[i].w)
  }

  lemma ByteStep(g: Geometry, s: State, op: Op, a: nat)
    requires Shaped(g, s) && Enabled(g, s, op) && g.diskBlockNum % g.totalBlockNum == 0
    requires op.WriteBlock? ==> InTwoBlocks(g, op.w)
    requires a < DiskSize(g) && BufferSize(g) > 0 && |After(g, s, op).ids| == g.totalBlockNum
    requires BlockMapped(g, After(g, s, op).ids, a)
    ensures op != RecycleBlock(BlockOfAddress(g, a)) ==> BlockMapped(g, s.ids, a)
    ensures ByteAt(After(g, s, op), a % BufferSize(g))
         == if Writes(g, s, op, a) then op.w.data[Offset(a, op.w.pos % DiskSize(g), DiskSize(g))]
            else ByteAt(s, a % BufferSize(g))
  {
    hide Mapped, NewStarts, NewEnds, NewCounts, NewBytes, ReachedDisk, DiskSize, BufferSize, Cleared;
    match op
    case WriteBlock(w) => WriteIsDiskWrite(g, s, w, a);
    case GetBlock(_) =>
    case RecycleBlock(_) =>
  }

  /** While the block of a disk address is mapped to it, memory holds what was last written to the address since then,
      and never what was written to another address that shares its place. */
  lemma {:induction false} MemoryIsLastWritten(g: Geometry, s: State, ops: seq<Op>, a: nat)
    requires Fresh(g, s) && Run(g, s, ops).Some?
    requires Sound(g) && g.diskBlockNum % g.totalBlockNum == 0 && ShortWrites(g, ops)
    requires a < DiskSize(g) && BufferSize(g) > 0
    requires |Run(g, s, ops).value.ids| == g.totalBlockNum && BlockMapped(g, Run(g, s, ops).value.ids, a)
    ensures ByteAt(Run(g, s, ops).value, a % BufferSize(g)) == LastWritten(g, s, ops, a)
  {
    hide Shaped, Enabled, After, Writes, Fresh, BlockMapped, DiskSize, BufferSize, ByteAt, InTwoBlocks;
    if ops != [] {
      var n := |ops| - 1;
      RunOfFresh(g, s, ops[..n]);
      var before := Run(g, s, ops[..n]).value;
      ShapedSizes(g, before);
      ByteStep(g, before, ops[n], a);
      if !Writes(g, before, ops[n], a) && ops[n] != RecycleBlock(BlockOfAddress(g, a)) {
        MemoryIsLastWritten(g, s, ops[..n], a);
      }
    }
  }

  lemma {:induction false} RunAligned(g: Geometry, s: State, ops: seq<Op>)
    requires Fresh(g, s) && Run(g, s, ops).Some? && Sound(g) && g.diskBlockNum % g.totalBlockNum == 0
    ensures Aligned(Run(g, s, ops).value.ids, g)
  {
    hide Shaped, Fresh, Enabled;
    if ops == [] {
      FreshAligned(g, s);
    } else {
      var n := |ops| - 1;
      RunAligned(g, s, ops[..n]);
      StepAligned(g, Run(g, s, ops[..n]).value, ops[n]);
    }
  }

  lemma StepAligned(g: Geometry, s: State, op: Op)
    requires Enabled(g, s, op) && Sound(g) && g.diskBlockNum % g.totalBlockNum == 0 && Aligned(s.ids, g)
    ensures Aligned(After(g, s, op).ids, g)
  {
    hide NewStarts, NewEnds, NewCounts, NewBytes, ReachedDisk, Cleared;
    if op.RecycleBlock? {
      RecycledAligned(s.ids[op.block], g);
    }
  }

  /** The i-th byte of a block, in memory or on disk. */
  function Address(g: Geometry, block: nat, i: nat): nat {
    block * g.blockSize + i
  }

  /** The bytes a block is handed out with are, address by address of the disk block it is handed out for, what was last
      written there since the block was mapped to it. */
  lemma HandedOutBytes(g: Geometry, s: State, ops: seq<Op>, thread: nat, i: nat)
    requires Fresh(g, s) && Run(g, s, ops).Some? && thread < |Run(g, s, ops).value.checks|
    requires Sound(g) && g.diskBlockNum % g.totalBlockNum == 0 && ShortWrites(g, ops) && i < g.blockSize
    ensures Shaped(g, Run(g, s, ops).value) && DiskSize(g) > 0 && BufferSize(g) > 0
    ensures var block := HandedOut(g, Run(g, s, ops).value, thread);
            && |block.buffer| == g.blockSize && Address(g, block.writePos, i) < DiskSize(g)
            && block.buffer[i] == LastWritten(g, s, ops, Address(g, block.writePos, i))
  {
    hide Run, LastWritten, Fresh, ShortWrites, Shaped, HandedOut, BlockMapped, Aligned, BufferSize, DiskSize, ByteAt, Address;
    RunOfFresh(g, s, ops);
    RunAligned(g, s, ops);
    var t := Run(g, s, ops).value;
    BufferAt(g, t, thread, i);
    AddressOf(g, t.ids, t.checks[thread], i);
    MemoryIsLastWritten(g, s, ops, Address(g, t.ids[t.checks[thread]], i));
  }

  lemma BufferAt(g: Geometry, s: State, thread: nat, i: nat)
    requires Shaped(g, s) && thread < |s.checks| && i < g.blockSize
    ensures var block, b := HandedOut(g, s, thread), s.checks[thread];
            && b < g.totalBlockNum == |s.ids| && block.writePos == s.ids[b]
            && |block.buffer| == g.blockSize && block.buffer[i] == ByteAt(s, Address(g, b, i))
  {
    hide PacketSum;
    BlockInBuffer(g, s.checks[thread]);
  }

  lemma AddressOf(g: Geometry, ids: seq<nat>, b: nat, i: nat)
    requires Sound(g) && Aligned(ids, g) && b < g.totalBlockNum && i < g.blockSize
    ensures BufferSize(g) > 0 && DiskSize(g) > 0
    ensures var a := Address(g, ids[b], i);
            a < DiskSize(g) && a % BufferSize(g) == Address(g, b, i) && BlockMapped(g, ids, a)
  {
    hide BufferSize;
    var a := Address(g, ids[b], i);
    DivUnique(a, g.blockSize, ids[b], i);
    MulMono(ids[b] + 1, g.diskBlockNum, g.blockSize);
    DivUnique(ids[b], g.diskBlockNum, 0, ids[b]);
    SlotOf(g, a);
    var r := a % BufferSize(g);
    assert r == (r / g.blockSize) * g.blockSize + r % g.blockSize;
  }

  // ----- after the hand-out

  /** No operation of the run recycles the block of an address or writes over the address. */
  ghost predicate Untouched(g: Geometry, s: State, ops: seq<Op>, a: nat)
    requires Sound(g) && DiskSize(g) > 0 && Run(g, s, ops).Some?
  {
    ops != [] ==>
      && Untouched(g, s, ops[..|ops| - 1], a)
      && ops[|ops| - 1] != RecycleBlock(BlockOfAddress(g, a))
      && !Writes(g, Run(g, s, ops[..|ops| - 1]).value, ops[|ops| - 1], a)
  }

  /** The bytes behind a pointer that was handed out stay what they were until the block is recycled, unless an accepted
      write covers their disk address. */
  lemma {:induction false} BytesStay(g: Geometry, s: State, ops: seq<Op>, a: nat)
    requires Shaped(g, s) && Run(g, s, ops).Some? && g.diskBlockNum % g.totalBlockNum == 0 && ShortWrites(g, ops)
    requires a < DiskSize(g) && BufferSize(g) > 0 && BlockMapped(g, s.ids, a) && Untouched(g, s, ops, a)
    ensures Shaped(g, Run(g, s, ops).value) && BlockMapped(g, Run(g, s, ops).value.ids, a)
    ensures ByteAt(Run(g, s, ops).value, a % BufferSize(g)) == ByteAt(s, a % BufferSize(g))
  {
    hide Shaped, Enabled, After, Writes, BlockMapped, DiskSize, BufferSize, ByteAt, InTwoBlocks;
    assert Sound(g) && |s.ids| == g.totalBlockNum by { ShapedSizes(g, s); }
    if ops != [] {
      var n := |ops| - 1;
      BytesStay(g, s, ops[..n], a);
      var before := Run(g, s, ops[..n]).value;
      ShapedSizes(g, before);
      AfterShaped(g, before, ops[n]);
      ShapedSizes(g, After(g, before, ops[n]));
      StaysMapped(g, before, ops[n], a);
      ByteStep(g, before, ops[n], a);
    }
  }

  lemma StaysMapped(g: Geometry, s: State, op: Op, a: nat)
    requires Shaped(g, s) && Enabled(g, s, op) && BlockMapped(g, s.ids, a) && op != RecycleBlock(BlockOfAddress(g, a))
    requires |After(g, s, op).ids| == g.totalBlockNum
    ensures BlockMapped(g, After(g, s, op).ids, a)
  {
    hide NewStarts, NewEnds, NewCounts, NewBytes, ReachedDisk, Cleared;
  }

  /** What `checkBlock` asks of one writer for a block. */
  predicate OutsideBarrier(g: Geometry, s: State, b: nat, writer: nat, delayed: nat)
    requires g.diskBlockNum > 0 && b < |s.ids| && writer < |s.writers|
  {
    1 <= Ahead(s.writers[writer], (s.ids[b] + delayed) % g.diskBlockNum, g.diskBlockNum)
      <= g.diskBlockNum - 2 * g.totalBlockNum - 1
  }

  /** New data does not reach a block that checkBlock let go, as long as its writer goes on from where it was by less than
      what is left of the barrier interval. */
  lemma NewDataSpares(g: Geometry, s: State, b: nat, w: Write, delayed: nat, a: nat)
    requires Writable(g, s, w) && b < g.totalBlockNum && InTwoBlocks(g, w)
    requires delayed < 2 * g.totalBlockNum && OutsideBarrier(g, s, b, w.thread, delayed)
    requires Ahead((w.pos / g.blockSize) % g.diskBlockNum, s.writers[w.thread], g.diskBlockNum) + delayed < 2 * g.totalBlockNum
    requires a < DiskSize(g) && a / g.blockSize == s.ids[b]
    ensures DiskSize(g) > 0 && !Writes(g, s, WriteBlock(w), a)
  {
    hide Mapped, Overlay, NewStarts, NewEnds, NewCounts, NewBytes, ReachedDisk, Mark, OnMark;
    var d, right := g.diskBlockNum, (s.ids[b] + delayed) % g.diskBlockNum;
    var from, at := s.writers[w.thread], (w.pos / g.blockSize) % d;
    WrapOnce(s.ids[b] + delayed, d);
    WrapOnce(from + d - right, d);
    WrapOnce(at + d - from, d);
    assert at != s.ids[b];
    WrapOnce(at + 1, d);
    assert (at + 1) % d != s.ids[b];
    if Offset(a, w.pos % DiskSize(g), DiskSize(g)) < |w.data| {
      CoveredBlock(g, w.pos, |w.data|, a);
    }
  }

  /** A write of two blocks at most covers addresses of its first disk block and of the next. */
  lemma CoveredBlock(g: Geometry, pos: nat, len: nat, a: nat)
    requires Sound(g) && a < DiskSize(g) && pos % g.blockSize + len <= 2 * g.blockSize
    requires Offset(a, pos % DiskSize(g), DiskSize(g)) < len
    ensures var at := (pos / g.blockSize) % g.diskBlockNum;
            a / g.blockSize == at || a / g.blockSize == (at + 1) % g.diskBlockNum
  {
    hide DiskSize;
    var k, size := Offset(a, pos % DiskSize(g), DiskSize(g)), DiskSize(g);
    OffsetAddress(a, pos, size);
    QuotientOfMod(pos + k, g.blockSize, g.diskBlockNum);
    assert size == g.blockSize * g.diskBlockNum by { SizeIs(g); }
    NextBlock(pos, k, g.blockSize);
    ModStep(pos / g.blockSize, g.diskBlockNum);
  }

  lemma SizeIs(g: Geometry)
    ensures DiskSize(g) == g.blockSize * g.diskBlockNum
  {
  }

  // ----- links

  /** A link is taken exactly when the blocks of its first byte and of the byte after its last are in memory; then it
      changes bytes and nothing else of the buffer, and otherwise nothing at all. */
  lemma LinkTaken(g: Geometry, s: State, link: seq<Byte>, lastOffset: nat, thread: nat)
    requires Writable(g, s, Write(link, lastOffset, thread, false, false, 0)) && |link| == 4 <= g.blockSize
    ensures var w := Write(link, lastOffset, thread, false, false, 0);
            && (Succeeds(g, s, w) <==> BlockMapped(g, s.ids, lastOffset) && BlockMapped(g, s.ids, lastOffset + 4))
            && AfterWrite(g, s, w) == s.(bytes := AfterWrite(g, s, w).bytes)
            && (!Succeeds(g, s, w) ==> AfterWrite(g, s, w) == s)
  {
    hide Overlay, Mark, OnMark, BufferSize, BlockMapped, Mapped, ReachedDisk;
    MappedIff(g, s.ids, lastOffset, |link|);
  }

  /** A link may come late, for every buffer of two blocks or more: a packet's block is handed out, and the link written
      over the packet before the block is recycled changes the bytes that were handed out. */
  lemma LateLink(g: Geometry, s: State, d: seq<Byte>, link: seq<Byte>, ts: U64)
    requires Fresh(g, s) && g.totalBlockNum >= 2
    requires s.writers != [] && s.checks == [0] && |d| == g.blockSize && |link| == 4 < g.blockSize && link[0] != d[0]
    ensures var written := [WriteBlock(Write(d, 0 * g.blockSize, 0, true, true, ts))];
            var linked := WriteBlock(Write(link, 0, 0, false, false, 0));
            && Run(g, s, written).Some? && Run(g, s, written + [GetBlock(0)] + [linked]).Some?
            && Shaped(g, Run(g, s, written).value) && Run(g, s, written).value.checks == [0]
            && HandedOut(g, Run(g, s, written).value, 0).blockId == 0
            && |HandedOut(g, Run(g, s, written).value, 0).buffer| == g.blockSize
            && HandedOut(g, Run(g, s, written).value, 0).buffer[0] == d[0]
            && ByteAt(Run(g, s, written + [GetBlock(0)] + [linked]).value, 0) == link[0]
  {
    hide Run, Stamps, Enabled, After, Offers, Shaped, HandedOut;
    var w, linked := WriteBlock(Write(d, 0 * g.blockSize, 0, true, true, ts)), WriteBlock(Write(link, 0, 0, false, false, 0));
    ShapedSizes(g, s);
    SmallMods(g);
    WholeBlock(g, s, 0, d, ts);
    var s1 := After(g, s, w);
    ShapedSizes(g, s1);
    HandOutRecycle(g, s1, 0);
    AfterShaped(g, s1, GetBlock(0));
    var s2 := After(g, s1, GetBlock(0));
    NothingRun(g, s, 0);
    RunNext(g, s, [], w, 0);
    assert [] + [w] == [w];
    RunNext(g, s, [w], GetBlock(0), 0);
    FirstByte(g, s, d, ts);
    FirstByteOut(g, s1);
    LinkByte(g, s, s1, s2, link);
    RunNext(g, s, [w] + [GetBlock(0)], linked, 0);
  }

  lemma FirstByte(g: Geometry, s: State, d: seq<Byte>, ts: U64)
    requires Fresh(g, s) && g.totalBlockNum >= 2 && s.writers != [] && |d| == g.blockSize
    requires Enabled(g, s, WriteBlock(Write(d, 0 * g.blockSize, 0, true, true, ts)))
    requires Succeeds(g, s, Write(d, 0 * g.blockSize, 0, true, true, ts))
    ensures var s' := After(g, s, WriteBlock(Write(d, 0 * g.blockSize, 0, true, true, ts)));
            s'.ids == s.ids && s'.checks == s.checks && ByteAt(s', 0) == d[0]
  {
    hide Mapped, NewStarts, NewEnds, NewCounts, ReachedDisk, Mark, OnMark;
    BlockFits(g);
    assert 0 * g.blockSize == 0;
    DivUnique(0, BufferSize(g), 0, 0);
  }

  lemma FirstByteOut(g: Geometry, s: State)
    requires Shaped(g, s) && s.checks == [0]
    ensures var block := HandedOut(g, s, 0);
            block.blockId == 0 && |block.buffer| == g.blockSize && block.buffer[0] == ByteAt(s, 0)
  {
    hide PacketSum;
    BlockFits(g);
    BufferAt(g, s, 0, 0);
    assert Address(g, 0, 0) == 0;
  }

  lemma LinkByte(g: Geometry, s: State, s1: State, s2: State, link: seq<Byte>)
    requires Fresh(g, s) && Shaped(g, s1) && s1.ids == s.ids && s1.writers != [] && s1.checks == [0] && Shaped(g, s2)
    requires Enabled(g, s1, GetBlock(0)) && s2 == After(g, s1, GetBlock(0)) && |link| == 4 < g.blockSize
    ensures var linked := WriteBlock(Write(link, 0, 0, false, false, 0));
            Enabled(g, s2, linked) && ByteAt(After(g, s2, linked), 0) == link[0]
  {
    hide NewStarts, NewEnds, NewCounts, ReachedDisk, Mark, OnMark, Cleared;
    BlockFits(g);
    DivUnique(0, BufferSize(g), 0, 0);
    DivUnique(0, g.blockSize, 0, 0);
    DivUnique(0, g.totalBlockNum, 0, 0);
    DivUnique(0, g.diskBlockNum, 0, 0);
  }
}
