/** Flow chains on disk: each packet's header holds the circular distance to the next packet of its flow
    (src-old/lib/packetAggregator.hpp and the link branch of src/probe/dpdkCapture.cpp). */
module FlowChains {
  import opened Bytes

  datatype FlowMetadata = FlowMetadata(
    sourceAddress: seq<Byte>, destinationAddress: seq<Byte>, sourcePort: U16, destinationPort: U16)

  datatype FlowAttr = FlowAttr(lastOffset: U64, ts: U64)

  type AggMap = map<FlowMetadata, FlowAttr>

  datatype Packet = Packet(flow: FlowMetadata, offset: U64, ts: U64)

  datatype Limits = Limits(offsetThreshold: U64, tsThreshold: U64, diskSize: U64)

  /** `flow_next_diff` of a packet without successor. */
  const END: U32 := 0xFFFF_FFFF

  // ----- distances

  /** Unsigned subtraction of 64-bit words, used on time stamps and on offsets. */
  function Elapsed(ts: U64, before: U64): U64 {
    (ts - before + 0x1_0000_0000_0000_0000) % 0x1_0000_0000_0000_0000
  }

  /** The offset, a disk length later when it is not behind the last one, in a 64-bit word. */
  function OrderedOffset(offset: U64, last: U64, diskSize: U64): U64 {
    if offset <= last then (offset + diskSize) % 0x1_0000_0000_0000_0000 else offset
  }

  function CalDiff(offset: nat, last: nat, diskSize: nat): nat
    requires last < diskSize
  {
    (offset + diskSize - last) % diskSize
  }

  function Truncate32(x: nat): U32 {
    x % 0x1_0000_0000
  }

  /** A packet that opens a new chain, which the index will point to. */
  predicate Breaks(l: Limits, agg: AggMap, p: Packet) {
    || p.flow !in agg
    || Elapsed(OrderedOffset(p.offset, agg[p.flow].lastOffset, l.diskSize), agg[p.flow].lastOffset) > l.offsetThreshold
    || Elapsed(p.ts, agg[p.flow].ts) > l.tsThreshold
  }

  /** The subtraction of words as plain numbers: the difference, or 2^64 more when that is negative. */
  lemma ElapsedInNumbers(ts: U64, before: U64)
    ensures Elapsed(ts, before) == if before <= ts then ts - before else ts + 0x1_0000_0000_0000_0000 - before
  {
    if before <= ts {
      DivUnique(ts - before + 0x1_0000_0000_0000_0000, 0x1_0000_0000_0000_0000, 1, ts - before);
    } else {
      DivUnique(ts - before + 0x1_0000_0000_0000_0000, 0x1_0000_0000_0000_0000, 0, ts - before + 0x1_0000_0000_0000_0000);
    }
  }

  /** On the disk the two word operations on offsets give the circular distance, even past 2^64. */
  lemma ApartInNumbers(offset: U64, last: U64, diskSize: U64)
    requires offset < diskSize && last < diskSize
    ensures Elapsed(OrderedOffset(offset, last, diskSize), last)
         == if last < offset then offset - last else offset + diskSize - last
  {
    var ordered := OrderedOffset(offset, last, diskSize);
    ElapsedInNumbers(ordered, last);
    if offset <= last && offset + diskSize >= 0x1_0000_0000_0000_0000 {
      DivUnique(offset + diskSize, 0x1_0000_0000_0000_0000, 1, offset + diskSize - 0x1_0000_0000_0000_0000);
    } else if offset <= last {
      DivUnique(offset + diskSize, 0x1_0000_0000_0000_0000, 0, offset + diskSize);
    }
  }

  /** A packet is linked exactly when its flow is known, its circular distance from the flow's last packet is within the
      offset threshold, and so is the time since then, counting a clock that went past 2^64 - 1 as started again at 0. */
  lemma LinkedIff(l: Limits, agg: AggMap, p: Packet)
    requires p.offset < l.diskSize && Bounded(l, agg)
    ensures !Breaks(l, agg, p) <==>
              && p.flow in agg
              && (var last := agg[p.flow].lastOffset;
                  if last < p.offset then p.offset - last <= l.offsetThreshold
                  else p.offset + l.diskSize - last <= l.offsetThreshold)
              && (var b := agg[p.flow].ts;
                  || (b <= p.ts && p.ts - b <= l.tsThreshold)
                  || (p.ts < b && p.ts + 0x1_0000_0000_0000_0000 - b <= l.tsThreshold))
  {
    hide Elapsed, OrderedOffset;
    if p.flow in agg {
      ElapsedInNumbers(p.ts, agg[p.flow].ts);
      ApartInNumbers(p.offset, agg[p.flow].lastOffset, l.diskSize);
    }
  }

  /** Where a link leads. */
  function Target(last: nat, diff: nat, diskSize: nat): nat
    requires diskSize > 0
  {
    (last + diff) % diskSize
  }

  lemma DiffRange(offset: nat, last: nat, diskSize: nat)
    requires offset < diskSize && last < diskSize
    ensures CalDiff(offset, last, diskSize) == if last <= offset then offset - last else offset + diskSize - last
    ensures Target(last, CalDiff(offset, last, diskSize), diskSize) == offset
  {
    if last <= offset {
      DivUnique(offset + diskSize - last, diskSize, 1, offset - last);
      DivUnique(offset, diskSize, 0, offset);
    } else {
      DivUnique(offset + diskSize - last, diskSize, 0, offset + diskSize - last);
      DivUnique(offset + diskSize, diskSize, 1, offset);
    }
  }

  /** The four bytes on disk lead from one packet to the other exactly when their distance is below 2^32 - 1. */
  lemma LinkExact(offset: nat, last: nat, diskSize: nat)
    requires offset < diskSize && last < diskSize
    ensures var d := CalDiff(offset, last, diskSize);
            Truncate32(d) != END && Target(last, Truncate32(d), diskSize) == offset <==> d < END
  {
    var d := CalDiff(offset, last, diskSize);
    DiffRange(offset, last, diskSize);
    var t := Truncate32(d);
    if t < d {
      TargetInjective(last, t, d, diskSize);
    }
  }

  lemma TargetInjective(last: nat, a: nat, b: nat, diskSize: nat)
    requires last < diskSize && a < diskSize && b < diskSize && a != b
    ensures Target(last, a, diskSize) != Target(last, b, diskSize)
  {
    TargetOf(last, a, diskSize);
    TargetOf(last, b, diskSize);
  }

  lemma TargetOf(last: nat, a: nat, diskSize: nat)
    requires last < diskSize && a < diskSize
    ensures Target(last, a, diskSize) == if last + a < diskSize then last + a else last + a - diskSize
  {
    if last + a < diskSize {
      DivUnique(last + a, diskSize, 0, last + a);
    } else {
      DivUnique(last + a, diskSize, 1, last + a - diskSize);
    }
  }

  /** A link is only made across a circular distance the threshold allows. */
  lemma LinkedDistance(l: Limits, agg: AggMap, p: Packet)
    requires !Breaks(l, agg, p) && agg[p.flow].lastOffset < l.diskSize && p.offset < l.diskSize
    requires p.offset != agg[p.flow].lastOffset
    ensures CalDiff(p.offset, agg[p.flow].lastOffset, l.diskSize) <= l.offsetThreshold
  {
    DiffRange(p.offset, agg[p.flow].lastOffset, l.diskSize);
    ApartInNumbers(p.offset, agg[p.flow].lastOffset, l.diskSize);
  }

  /** Every link the aggregator can make leads to its packet, exactly when the threshold or the disk rules out a distance
      of 2^32 - 1. */
  lemma LinksExactIff(l: Limits)
    requires l.diskSize > 0
    ensures (forall offset: U64, last: U64 :: Linkable(l, offset, last) ==> LinkLeads(l, offset, last))
       <==> l.offsetThreshold < END || l.diskSize <= END
  {
    forall offset: U64, last: U64 | Linkable(l, offset, last) && (l.offsetThreshold < END || l.diskSize <= END)
      ensures LinkLeads(l, offset, last)
    {
      DiffRange(offset, last, l.diskSize);
      ApartInNumbers(offset, last, l.diskSize);
      LinkExact(offset, last, l.diskSize);
    }
    if l.offsetThreshold >= END && l.diskSize > END {
      DiffRange(END, 0, l.diskSize);
      LinkExact(END, 0, l.diskSize);
      assert Linkable(l, END, 0) && !LinkLeads(l, END, 0);
    }
  }

  /** Two offsets that the aggregator links. */
  predicate Linkable(l: Limits, offset: U64, last: U64) {
    && offset < l.diskSize && last < l.diskSize && offset != last
    && Elapsed(OrderedOffset(offset, last, l.diskSize), last) <= l.offsetThreshold
  }

  predicate LinkLeads(l: Limits, offset: U64, last: U64)
    requires last < l.diskSize
  {
    var t := Truncate32(CalDiff(offset, last, l.diskSize));
    t != END && Target(last, t, l.diskSize) == offset
  }

  // ----- runs

  /** What the aggregator remembers, the packet each one is followed by, by offsets, and the index. */
  datatype Capture = Capture(agg: AggMap, next: map<nat, nat>, index: seq<Packet>)

  function Step(l: Limits, s: Capture, p: Packet): Capture {
    var agg, next := s.agg[p.flow := FlowAttr(p.offset, p.ts)], s.next - {p.offset as nat};
    if Breaks(l, s.agg, p) then Capture(agg, next, s.index + [p])
    else Capture(agg, next[s.agg[p.flow].lastOffset as nat := p.offset as nat], s.index)
  }

  ghost predicate Bounded(l: Limits, agg: AggMap) {
    forall f :: f in agg ==> agg[f].lastOffset < l.diskSize
  }

  /** Packets at distinct offsets on the disk. */
  ghost predicate Placed(l: Limits, ps: seq<Packet>) {
    ps == []
    || (var n := |ps| - 1;
        Placed(l, ps[..n]) && ps[n].offset < l.diskSize && forall i :: 0 <= i < n ==> ps[i].offset != ps[n].offset)
  }

  ghost function Run(l: Limits, ps: seq<Packet>): (s: Capture)
    requires Placed(l, ps)
    ensures Bounded(l, s.agg)
    decreases |ps|
  {
    if ps == [] then Capture(map[], map[], []) else Step(l, Run(l, ps[..|ps| - 1]), ps[|ps| - 1])
  }

  /** Four bytes that lead to the packet that follows, or end the chain when none does. */
  predicate Leads(word: nat, offset: nat, next: map<nat, nat>, diskSize: nat)
    requires diskSize > 0
  {
    if offset in next then word != END && Target(offset, word, diskSize) == next[offset] else word == END
  }

  // ----- the packets of a flow

  /** The offsets of a flow's packets, in order. */
  function OffsetsOf(ps: seq<Packet>, f: FlowMetadata): seq<nat> {
    if ps == [] then []
    else OffsetsOf(ps[..|ps| - 1], f) + if ps[|ps| - 1].flow == f then [ps[|ps| - 1].offset] else []
  }

  // ----- the chains of one flow

  ghost predicate IsChain(next: map<nat, nat>, c: seq<nat>) {
    && c != [] && (c[0] in next <==> |c| > 1)
    && (|c| > 1 ==> next[c[0]] == c[1] && IsChain(next, c[1..]))
  }

  /** Two maps that say the same of an offset. */
  ghost predicate Same(next: map<nat, nat>, next': map<nat, nat>, o: nat) {
    (o in next <==> o in next') && (o in next ==> next'[o] == next[o])
  }

  lemma {:induction false} ChainKept(next: map<nat, nat>, next': map<nat, nat>, c: seq<nat>)
    requires IsChain(next, c) && forall i :: 0 <= i < |c| ==> Same(next, next', c[i])
    ensures IsChain(next', c)
  {
    assert Same(next, next', c[0]);
    if |c| > 1 {
      assert forall i :: 0 <= i < |c| - 1 ==> c[1..][i] == c[i + 1];
      ChainKept(next, next', c[1..]);
    }
  }

  lemma {:induction false} ChainExtended(next: map<nat, nat>, next': map<nat, nat>, c: seq<nat>, o: nat)
    requires IsChain(next, c) && forall i :: 0 <= i < |c| - 1 ==> Same(next, next', c[i])
    requires c[|c| - 1] in next' && next'[c[|c| - 1]] == o && o !in next'
    ensures IsChain(next', c + [o])
  {
    if |c| == 1 {
      assert (c + [o])[1..] == [o];
    } else {
      assert Same(next, next', c[0]);
      assert (c + [o])[1..] == c[1..] + [o];
      assert forall i :: 0 <= i < |c| - 1 ==> c[1..][i] == c[i + 1];
      ChainExtended(next, next', c[1..], o);
    }
  }

  function Flatten(cs: seq<seq<nat>>): seq<nat> {
    if cs == [] then [] else Flatten(cs[..|cs| - 1]) + cs[|cs| - 1]
  }

  lemma {:induction false} FlattenMember(cs: seq<seq<nat>>, i: nat, j: nat)
    requires i < |cs| && j < |cs[i]|
    ensures cs[i][j] in Flatten(cs)
    decreases |cs|
  {
    if i < |cs| - 1 {
      FlattenMember(cs[..|cs| - 1], i, j);
    }
  }

  /** The chains of flow f after the packets ps. */
  ghost function Chains(l: Limits, ps: seq<Packet>, f: FlowMetadata): seq<seq<nat>>
    requires Placed(l, ps)
    decreases |ps|
  {
    if ps == [] then []
    else
      var n := |ps| - 1;
      var cs := Chains(l, ps[..n], f);
      if ps[n].flow != f then cs
      else if Breaks(l, Run(l, ps[..n]).agg, ps[n]) || cs == [] then cs + [[ps[n].offset]]
      else cs[..|cs| - 1] + [cs[|cs| - 1] + [ps[n].offset]]
  }

  /** The chains cs are those of flow f in the state s, and hold its offsets in order. */
  ghost predicate Holds(s: Capture, cs: seq<seq<nat>>, offsets: seq<nat>, f: FlowMetadata) {
    && AllChains(s.next, cs)
    && Flatten(cs) == offsets
    && HeadsOf(OffsetsOf(s.index, f), cs)
    && (f in s.agg <==> cs != [])
    && (cs != [] ==> cs[|cs| - 1] != [] && cs[|cs| - 1][|cs[|cs| - 1]| - 1] == s.agg[f].lastOffset)
  }

  ghost predicate AllChains(next: map<nat, nat>, cs: seq<seq<nat>>) {
    forall i :: 0 <= i < |cs| ==> IsChain(next, cs[i])
  }

  ghost predicate HeadsOf(heads: seq<nat>, cs: seq<seq<nat>>) {
    |heads| == |cs| && forall i :: 0 <= i < |cs| ==> cs[i] != [] && heads[i] == cs[i][0]
  }

  lemma {:induction false} OffsetsMember(ps: seq<Packet>, f: FlowMetadata, x: nat) returns (i: nat)
    requires x in OffsetsOf(ps, f)
    ensures i < |ps| && ps[i].flow == f && ps[i].offset == x
    decreases |ps|
  {
    var n := |ps| - 1;
    if ps[n].flow == f && ps[n].offset == x {
      i := n;
    } else {
      i := OffsetsMember(ps[..n], f, x);
    }
  }

  lemma FreshOffset(l: Limits, ps: seq<Packet>, f: FlowMetadata)
    requires Placed(l, ps) && ps != []
    ensures ps[|ps| - 1].offset !in OffsetsOf(ps[..|ps| - 1], f)
  {
    if ps[|ps| - 1].offset in OffsetsOf(ps[..|ps| - 1], f) {
      var i := OffsetsMember(ps[..|ps| - 1], f, ps[|ps| - 1].offset);
    }
  }

  lemma {:induction false} OneFlow(l: Limits, ps: seq<Packet>, f: FlowMetadata, g: FlowMetadata, x: nat)
    requires Placed(l, ps) && x in OffsetsOf(ps, f) && x in OffsetsOf(ps, g)
    ensures f == g
    decreases |ps|
  {
    var n := |ps| - 1;
    FreshOffset(l, ps, f);
    FreshOffset(l, ps, g);
    if ps[n].offset != x {
      OneFlow(l, ps[..n], f, g, x);
    }
  }

  ghost predicate NoDup(s: seq<nat>) {
    s == [] || (s[|s| - 1] !in s[..|s| - 1] && NoDup(s[..|s| - 1]))
  }

  lemma {:induction false} OffsetsDistinct(l: Limits, ps: seq<Packet>, f: FlowMetadata)
    requires Placed(l, ps)
    ensures NoDup(OffsetsOf(ps, f))
    decreases |ps|
  {
    if ps != [] {
      var n := |ps| - 1;
      OffsetsDistinct(l, ps[..n], f);
      FreshOffset(l, ps, f);
      if ps[n].flow == f {
        assert OffsetsOf(ps, f)[..|OffsetsOf(ps[..n], f)|] == OffsetsOf(ps[..n], f);
      } else {
        assert OffsetsOf(ps, f) == OffsetsOf(ps[..n], f);
      }
    }
  }

  // ----- one step keeps every flow's chains

  /** Successors that change only outside a set of chains leave them alone. */
  lemma AllKept(next: map<nat, nat>, next': map<nat, nat>, cs: seq<seq<nat>>, changed: set<nat>)
    requires AllChains(next, cs) && forall x :: x !in changed ==> Same(next, next', x)
    requires forall x :: x in Flatten(cs) ==> x !in changed
    ensures AllChains(next', cs)
  {
    hide IsChain, Same;
    forall i | 0 <= i < |cs|
      ensures IsChain(next', cs[i])
    {
      forall j | 0 <= j < |cs[i]|
        ensures Same(next, next', cs[i][j])
      {
        FlattenMember(cs, i, j);
      }
      ChainKept(next, next', cs[i]);
    }
  }

  /** In distinct offsets, the last one is in no earlier chain, and only once in its own. */
  lemma LastOffset(cs: seq<seq<nat>>)
    requires cs != [] && cs[|cs| - 1] != [] && NoDup(Flatten(cs))
    ensures var c := cs[|cs| - 1];
            var last := c[|c| - 1];
            && last !in Flatten(cs[..|cs| - 1]) && last !in c[..|c| - 1] && last in Flatten(cs)
  {
    var init, c := Flatten(cs[..|cs| - 1]), cs[|cs| - 1];
    assert Flatten(cs) == init + c;
    assert (init + c)[..|init + c| - 1] == init + c[..|c| - 1];
  }

  /** The offset remembered for a flow is one of its packets. */
  lemma Remembered(s: Capture, cs: seq<seq<nat>>, offsets: seq<nat>, f: FlowMetadata)
    requires Holds(s, cs, offsets, f) && f in s.agg
    ensures s.agg[f].lastOffset in offsets
  {
    hide AllChains, HeadsOf;
    FlattenMember(cs, |cs| - 1, |cs[|cs| - 1]| - 1);
  }

  lemma OtherFlow(l: Limits, s: Capture, cs: seq<seq<nat>>, offsets: seq<nat>, f: FlowMetadata, p: Packet)
    requires Holds(s, cs, offsets, f)
    requires p.flow != f && p.offset !in offsets && (p.flow in s.agg ==> s.agg[p.flow].lastOffset !in offsets)
    ensures Holds(Step(l, s, p), cs, offsets, f)
  {
    hide AllChains, HeadsOf, Breaks, Flatten, OffsetsOf;
    BreaksUnknown(l, s.agg, p);
    var changed := {p.offset as nat} + if Breaks(l, s.agg, p) then {} else {s.agg[p.flow].lastOffset as nat};
    AllKept(s.next, Step(l, s, p).next, cs, changed);
    IndexStep(s.index, p, f);
  }

  lemma BreaksUnknown(l: Limits, agg: AggMap, p: Packet)
    ensures p.flow !in agg ==> Breaks(l, agg, p)
  {
  }

  lemma IndexStep(index: seq<Packet>, p: Packet, f: FlowMetadata)
    ensures OffsetsOf(index + [p], f) == if p.flow == f then OffsetsOf(index, f) + [p.offset] else OffsetsOf(index, f)
  {
    assert (index + [p])[..|index|] == index;
  }

  lemma NewChain(l: Limits, s: Capture, cs: seq<seq<nat>>, offsets: seq<nat>, f: FlowMetadata, p: Packet)
    requires Holds(s, cs, offsets, f) && p.flow == f && p.offset !in offsets && Breaks(l, s.agg, p)
    ensures Holds(Step(l, s, p), cs + [[p.offset]], offsets + [p.offset], f)
  {
    hide AllChains, Breaks, Flatten, OffsetsOf;
    var next' := Step(l, s, p).next;
    AllKept(s.next, next', cs, {p.offset});
    assert IsChain(next', [p.offset]);
    OneMore(next', cs, [p.offset]);
    IndexStep(s.index, p, f);
  }

  lemma OneMore(next: map<nat, nat>, cs: seq<seq<nat>>, c: seq<nat>)
    requires AllChains(next, cs) && IsChain(next, c)
    ensures AllChains(next, cs + [c]) && Flatten(cs + [c]) == Flatten(cs) + c
  {
    hide IsChain;
    assert (cs + [c])[..|cs|] == cs;
  }

  lemma LongerChain(l: Limits, s: Capture, cs: seq<seq<nat>>, offsets: seq<nat>, f: FlowMetadata, p: Packet)
    requires Holds(s, cs, offsets, f)
    requires p.flow == f && p.offset !in offsets && !Breaks(l, s.agg, p) && NoDup(offsets)
    ensures cs != []
    ensures Holds(Step(l, s, p), cs[..|cs| - 1] + [cs[|cs| - 1] + [p.offset]], offsets + [p.offset], f)
  {
    hide AllChains, Breaks, Flatten, OffsetsOf, NoDup;
    BreaksUnknown(l, s.agg, p);
    var before, c := cs[..|cs| - 1], cs[|cs| - 1];
    var last, next' := s.agg[f].lastOffset, Step(l, s, p).next;
    Remembered(s, cs, offsets, f);
    LastOffset(cs);
    LastSplit(s.next, cs);
    AllKept(s.next, next', before, {p.offset as nat, last as nat});
    forall i | 0 <= i < |c| - 1
      ensures c[i] != last && c[i] != p.offset
    {
      assert c[..|c| - 1][i] == c[i];
      FlattenMember(cs, |cs| - 1, i);
    }
    ChainExtended(s.next, next', c, p.offset);
    OneMore(next', before, c + [p.offset]);
    SeqAssoc(Flatten(before), c, [p.offset as nat]);
    IndexStep(s.index, p, f);
  }

  lemma LastSplit(next: map<nat, nat>, cs: seq<seq<nat>>)
    requires AllChains(next, cs) && cs != []
    ensures AllChains(next, cs[..|cs| - 1]) && IsChain(next, cs[|cs| - 1])
    ensures Flatten(cs) == Flatten(cs[..|cs| - 1]) + cs[|cs| - 1]
  {
    hide IsChain;
  }

  /** After any run the successors of each flow form chains that are headed by its indexed packets and hold its offsets in
      order. */
  lemma {:induction false} AllFlows(l: Limits, ps: seq<Packet>, f: FlowMetadata)
    requires Placed(l, ps)
    ensures Holds(Run(l, ps), Chains(l, ps, f), OffsetsOf(ps, f), f)
    decreases |ps|
  {
    hide Holds, Step, Breaks;
    if ps == [] {
      NothingHeld(f);
    } else {
      AllFlows(l, ps[..|ps| - 1], f);
      AllFlows(l, ps[..|ps| - 1], ps[|ps| - 1].flow);
      FlowStep(l, ps, f);
    }
  }

  lemma FlowStep(l: Limits, ps: seq<Packet>, f: FlowMetadata)
    requires Placed(l, ps) && ps != []
    requires var init, p := ps[..|ps| - 1], ps[|ps| - 1];
             && Holds(Run(l, init), Chains(l, init, f), OffsetsOf(init, f), f)
             && Holds(Run(l, init), Chains(l, init, p.flow), OffsetsOf(init, p.flow), p.flow)
    ensures Holds(Run(l, ps), Chains(l, ps, f), OffsetsOf(ps, f), f)
  {
    hide Holds, Step, Breaks, Run, Chains, OffsetsOf, NoDup;
    var init, p := ps[..|ps| - 1], ps[|ps| - 1];
    var s, cs, offsets := Run(l, init), Chains(l, init, f), OffsetsOf(init, f);
    RunStep(l, ps, f);
    FreshOffset(l, ps, f);
    if p.flow != f {
      if p.flow in s.agg {
        Remembered(s, Chains(l, init, p.flow), OffsetsOf(init, p.flow), p.flow);
        if s.agg[p.flow].lastOffset in offsets {
          OneFlow(l, init, f, p.flow, s.agg[p.flow].lastOffset);
        }
      }
      OtherFlow(l, s, cs, offsets, f, p);
    } else if Breaks(l, s.agg, p) {
      NewChain(l, s, cs, offsets, f, p);
    } else {
      OffsetsDistinct(l, init, f);
      LongerChain(l, s, cs, offsets, f, p);
    }
  }

  lemma RunStep(l: Limits, ps: seq<Packet>, f: FlowMetadata)
    requires Placed(l, ps) && ps != []
    ensures var init, p, n := ps[..|ps| - 1], ps[|ps| - 1], |ps| - 1;
            var cs := Chains(l, init, f);
            && Run(l, ps) == Step(l, Run(l, init), p)
            && OffsetsOf(ps, f) == (if p.flow == f then OffsetsOf(init, f) + [p.offset] else OffsetsOf(init, f))
            && Chains(l, ps, f) == (if p.flow != f then cs
                                    else if Breaks(l, Run(l, init).agg, p) || cs == [] then cs + [[p.offset]]
                                    else cs[..|cs| - 1] + [cs[|cs| - 1] + [p.offset]])
  {
    hide Breaks, Step;
    IndexStep(ps[..|ps| - 1], ps[|ps| - 1], f);
    assert ps == ps[..|ps| - 1] + [ps[|ps| - 1]];
  }

  lemma NothingHeld(f: FlowMetadata)
    ensures Holds(Capture(map[], map[], []), [], [], f)
  {
  }

  lemma {:induction false} ChainEnd(next: map<nat, nat>, c: seq<nat>)
    requires IsChain(next, c)
    ensures c[|c| - 1] !in next
  {
    if |c| > 1 {
      ChainEnd(next, c[1..]);
    }
  }

  /** The packet a flow was last seen with has no successor yet. */
  lemma LastFree(l: Limits, ps: seq<Packet>, f: FlowMetadata)
    requires Placed(l, ps) && f in Run(l, ps).agg
    ensures Run(l, ps).agg[f].lastOffset !in Run(l, ps).next
  {
    hide Run, Chains, IsChain, Placed;
    AllFlows(l, ps, f);
    var s, cs := Run(l, ps), Chains(l, ps, f);
    LastSplit(s.next, cs);
    ChainEnd(s.next, cs[|cs| - 1]);
  }

  // ----- the limits of four bytes

  lemma {:induction false} FewerOffsets(ps: seq<Packet>, f: FlowMetadata)
    ensures |OffsetsOf(ps, f)| <= |ps|
  {
    if ps != [] {
      FewerOffsets(ps[..|ps| - 1], f);
    }
  }

  /** The four bytes written for a link lead to the packet they are written for, under the bound of LinksExactIff. */
  lemma GoodLink(l: Limits, agg: AggMap, p: Packet)
    requires !Breaks(l, agg, p) && agg[p.flow].lastOffset < l.diskSize && p.offset < l.diskSize
    requires p.offset != agg[p.flow].lastOffset && (l.offsetThreshold < END || l.diskSize <= END)
    ensures CalDiff(p.offset, agg[p.flow].lastOffset, l.diskSize) < END
  {
    LinkedDistance(l, agg, p);
    DiffRange(p.offset, agg[p.flow].lastOffset, l.diskSize);
  }

  /** Under that bound no successor of a run is 2^32 - 1 bytes or more away. */
  lemma {:induction false} NextNear(l: Limits, ps: seq<Packet>)
    requires Placed(l, ps) && (l.offsetThreshold < END || l.diskSize <= END)
    ensures forall o :: o in Run(l, ps).next ==>
              o < l.diskSize && Run(l, ps).next[o] < l.diskSize && CalDiff(Run(l, ps).next[o], o, l.diskSize) < END
    decreases |ps|
  {
    hide Breaks, CalDiff;
    if ps != [] {
      var n := |ps| - 1;
      var s, p := Run(l, ps[..n]), ps[n];
      NextNear(l, ps[..n]);
      BreaksUnknown(l, s.agg, p);
      if !Breaks(l, s.agg, p) {
        var j := LastSeen(l, ps[..n], p.flow);
        GoodLink(l, s.agg, p);
      }
    }
  }

  /** The remembered offset of a flow is that of one of its packets. */
  lemma {:induction false} LastSeen(l: Limits, ps: seq<Packet>, f: FlowMetadata) returns (j: nat)
    requires Placed(l, ps) && f in Run(l, ps).agg
    ensures j < |ps| && ps[j].flow == f && ps[j].offset == Run(l, ps).agg[f].lastOffset
    decreases |ps|
  {
    hide Breaks;
    var n := |ps| - 1;
    if ps[n].flow == f {
      j := n;
    } else {
      j := LastSeen(l, ps[..n], f);
    }
  }

  /** Without that bound a flow can be cut: two packets 2^32 - 1 bytes apart are linked by the very number that ends a
      chain, and only the first is in the index. */
  lemma LongLinkCuts(l: Limits, f: FlowMetadata, ts: U64)
    requires l.offsetThreshold >= END && l.diskSize > END
    ensures var ps := [Packet(f, 0, ts), Packet(f, END, ts)];
            && Placed(l, ps) && Run(l, ps).index == [ps[0]] && Run(l, ps).next == map[0 := END as nat]
            && !Leads(Truncate32(CalDiff(END, 0, l.diskSize)), 0, Run(l, ps).next, l.diskSize)
  {
    var p, q := Packet(f, 0, ts), Packet(f, END, ts);
    var ps := [p, q];
    assert ps[..1] == [p] && [p][..0] == [];
    assert Placed(l, []) && Placed(l, [p]) && Placed(l, ps);
    DiffRange(END, 0, l.diskSize);
    var s1 := Run(l, [p]);
    assert Run(l, []) == Capture(map[], map[], []);
    assert s1 == Capture(map[f := FlowAttr(0, ts)], map[], [p]);
    assert Run(l, ps) == Step(l, s1, q);
  }
}

/** The aggregator object. */
module PacketAggregators {
  import opened Bytes
  import opened FlowChains

  class PacketAggregator {
    const offsetThreshold: U64
    const tsThreshold: U64
    var aggMap: AggMap

    constructor (offsetThreshold: U64, tsThreshold: U64)
      ensures aggMap == map[] && this.offsetThreshold == offsetThreshold && this.tsThreshold == tsThreshold
    {
      this.offsetThreshold, this.tsThreshold, aggMap := offsetThreshold, tsThreshold, map[];
    }

    /** `addPacket`: the offset of the flow's previous packet, or the largest word when a new chain starts. */
    method AddPacket(meta: FlowMetadata, offset: U64, ts: U64, diskSize: U64) returns (last: U64)
      modifies this
      ensures aggMap == old(aggMap)[meta := FlowAttr(offset, ts)]
      ensures last == if Breaks(Limits(offsetThreshold, tsThreshold, diskSize), old(aggMap), Packet(meta, offset, ts))
                      then MAX_U64 else old(aggMap)[meta].lastOffset
      ensures meta !in old(aggMap) ==> last == MAX_U64
      ensures meta in old(aggMap) && offset < diskSize && old(aggMap)[meta].lastOffset < diskSize ==>
                var o, b := old(aggMap)[meta].lastOffset, old(aggMap)[meta].ts;
                last == if (if o < offset then offset - o else offset + diskSize - o) <= offsetThreshold
                           && (if b <= ts then ts - b else ts + 0x1_0000_0000_0000_0000 - b) <= tsThreshold
                        then o else MAX_U64
    {
      hide Elapsed, OrderedOffset;
      if meta in aggMap {
        ElapsedInNumbers(ts, aggMap[meta].ts);
        if offset < diskSize && aggMap[meta].lastOffset < diskSize {
          ApartInNumbers(offset, aggMap[meta].lastOffset, diskSize);
        }
      }
      last := MAX_U64;
      if meta !in aggMap {
        aggMap := aggMap[meta := FlowAttr(offset, ts)];
        return;
      }
      var it := aggMap[meta];
      var orderedOffset := OrderedOffset(offset, it.lastOffset, diskSize);
      if Elapsed(orderedOffset, it.lastOffset) > offsetThreshold || Elapsed(ts, it.ts) > tsThreshold {
        aggMap := aggMap[meta := FlowAttr(offset, ts)];
        return;
      }
      last := it.lastOffset;
      aggMap := aggMap[meta := FlowAttr(offset, ts)];
    }
  }
}
