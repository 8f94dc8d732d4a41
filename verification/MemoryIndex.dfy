/** What the flow index must answer, as a scan of the flows inserted so far. */
module FlowLog {
  import opened Bytes
  import opened Keys
  import opened SkipLog
  import opened BloomRows

  /** A flow: its position, and its four-tuple as the bytes of a QuarTurple struct. */
  datatype FlowIndex = FlowIndex(position: U64, key: seq<Byte>)

  /** The fields a flow is entered under, in the order they are written. */
  function Order(f: FlowIndex): seq<IndexType> {
    if |f.key| == 12 then [SRCIP, DSTIP, SRCPORT, DSTPORT]
    else if |f.key| == 40 then [SRCIPv6, DSTIPv6, SRCPORT, DSTPORT]
    else []
  }

  /** The bytes of one field of a flow. */
  function KeyOf(f: FlowIndex, t: IndexType): (key: seq<Byte>)
    requires t in Order(f)
    ensures |key| == Width(t)
  {
    match t
    case SRCIP => f.key[8..12]
    case DSTIP => f.key[4..8]
    case SRCPORT => f.key[2..4]
    case DSTPORT => f.key[0..2]
    case SRCIPv6 => f.key[24..40]
    case DSTIPv6 => f.key[8..24]
  }

  /** Is key the bytes of the member t names in the flow's struct? Only the two struct sizes have members. */
  predicate HasMember(f: FlowIndex, t: IndexType, key: seq<Byte>) {
    if |f.key| == 12 then
      var tuple := TupleIPv4(f.key);
      match t
      case SRCIP => key == Enc(tuple.srcip, 4)
      case DSTIP => key == Enc(tuple.dstip, 4)
      case SRCPORT => key == Enc(tuple.srcport, 2)
      case DSTPORT => key == Enc(tuple.dstport, 2)
      case _ => false
    else if |f.key| == 40 then
      var tuple := TupleIPv6(f.key);
      match t
      case SRCIPv6 => key == EncIPv6(tuple.srcip)
      case DSTIPv6 => key == EncIPv6(tuple.dstip)
      case SRCPORT => key == Enc(tuple.srcport, 2)
      case DSTPORT => key == Enc(tuple.dstport, 2)
      case _ => false
    else false
  }

  lemma PartBytes(key: seq<Byte>, i: nat, n: nat)
    requires i + n <= |key|
    ensures key[i..i + n] == Enc(Field(key, i, n), n)
  {
    EncodeDecode(key[i..i + n]);
  }

  /** The bytes a flow is entered under are those of the struct's members, and of nothing else. */
  lemma KeyIsMember(f: FlowIndex, t: IndexType, key: seq<Byte>)
    ensures HasMember(f, t, key) <==> t in Order(f) && KeyOf(f, t) == key
  {
    hide Enc, LE, EncIPv6, Field, IPv6At;
    if t in Order(f) {
      match t
      case SRCIP => PartBytes(f.key, 8, 4);
      case DSTIP => PartBytes(f.key, 4, 4);
      case SRCPORT => PartBytes(f.key, 2, 2);
      case DSTPORT => PartBytes(f.key, 0, 2);
      case SRCIPv6 => IPv6AddressBytes(f.key, 24);
      case DSTIPv6 => IPv6AddressBytes(f.key, 8);
    }
  }

  /** Insertion stops at the first field whose Bloom rows do not all fit the bitmap. */
  ghost predicate RecordedIn(h: Hash, k: nat, limit: nat, order: seq<IndexType>, f: FlowIndex, t: IndexType)
    requires forall u :: u in order ==> u in Order(f)
  {
    && order != []
    && AllBelow(Rows(h, k, order[0], LE(KeyOf(f, order[0]))), limit)
    && (order[0] == t || RecordedIn(h, k, limit, order[1..], f, t))
  }

  /** Is flow f entered under field t? */
  ghost predicate Recorded(h: Hash, k: nat, limit: nat, f: FlowIndex, t: IndexType) {
    RecordedIn(h, k, limit, Order(f), f, t)
  }

  lemma {:induction false} RecordedMeaning(h: Hash, k: nat, limit: nat, order: seq<IndexType>, f: FlowIndex, t: IndexType)
    requires forall u :: u in order ==> u in Order(f)
    requires RecordedIn(h, k, limit, order, f, t)
    ensures t in order && AllBelow(Rows(h, k, t, LE(KeyOf(f, t))), limit)
  {
    if order[0] != t {
      RecordedMeaning(h, k, limit, order[1..], f, t);
    }
  }

  ghost predicate FieldFits(h: Hash, k: nat, limit: nat, f: FlowIndex, t: IndexType)
    requires t in Order(f)
  {
    AllBelow(Rows(h, k, t, LE(KeyOf(f, t))), limit)
  }

  lemma RecordedFour(h: Hash, k: nat, limit: nat, order: seq<IndexType>, f: FlowIndex, t: IndexType)
    requires order == Order(f) && |order| == 4
    ensures Recorded(h, k, limit, f, t) <==>
              FieldFits(h, k, limit, f, order[0]) && (t == order[0] ||
              (FieldFits(h, k, limit, f, order[1]) && (t == order[1] ||
              (FieldFits(h, k, limit, f, order[2]) && (t == order[2] ||
              (FieldFits(h, k, limit, f, order[3]) && t == order[3]))))))
  {
    hide Rows, AllBelow, LE, KeyOf, Order;
    assert order[1..][1..] == order[2..] && order[2..][1..] == order[3..] && order[3..][1..] == [];
    assert RecordedIn(h, k, limit, order[3..], f, t) <==> FieldFits(h, k, limit, f, order[3]) && t == order[3];
    assert RecordedIn(h, k, limit, order[2..], f, t)
      <==> FieldFits(h, k, limit, f, order[2]) && (t == order[2] || RecordedIn(h, k, limit, order[3..], f, t));
    assert RecordedIn(h, k, limit, order[1..], f, t)
      <==> FieldFits(h, k, limit, f, order[1]) && (t == order[1] || RecordedIn(h, k, limit, order[2..], f, t));
  }

  /** A flow of an IPv4 struct is entered under its source address, destination address, source port and
      destination port, in this order, as far as the rows of each member fit. */
  lemma RecordedIPv4(h: Hash, k: nat, limit: nat, f: FlowIndex)
    requires |f.key| == 12
    ensures var tuple := TupleIPv4(f.key);
            var a := AllBelow(Rows(h, k, SRCIP, tuple.srcip), limit);
            var b := AllBelow(Rows(h, k, DSTIP, tuple.dstip), limit);
            var c := AllBelow(Rows(h, k, SRCPORT, tuple.srcport), limit);
            var d := AllBelow(Rows(h, k, DSTPORT, tuple.dstport), limit);
            && (Recorded(h, k, limit, f, SRCIP) <==> a)
            && (Recorded(h, k, limit, f, DSTIP) <==> a && b)
            && (Recorded(h, k, limit, f, SRCPORT) <==> a && b && c)
            && (Recorded(h, k, limit, f, DSTPORT) <==> a && b && c && d)
            && !Recorded(h, k, limit, f, SRCIPv6) && !Recorded(h, k, limit, f, DSTIPv6)
  {
    hide Rows, AllBelow, LE;
    forall t: IndexType {
      RecordedFour(h, k, limit, [SRCIP, DSTIP, SRCPORT, DSTPORT], f, t);
    }
  }

  /** The same for an IPv6 struct; a key of any other size is entered under nothing. */
  lemma RecordedIPv6(h: Hash, k: nat, limit: nat, f: FlowIndex)
    requires |f.key| == 40
    ensures var tuple := TupleIPv6(f.key);
            var a := AllBelow(Rows(h, k, SRCIPv6, tuple.srcip.Value()), limit);
            var b := AllBelow(Rows(h, k, DSTIPv6, tuple.dstip.Value()), limit);
            var c := AllBelow(Rows(h, k, SRCPORT, tuple.srcport), limit);
            var d := AllBelow(Rows(h, k, DSTPORT, tuple.dstport), limit);
            && (Recorded(h, k, limit, f, SRCIPv6) <==> a)
            && (Recorded(h, k, limit, f, DSTIPv6) <==> a && b)
            && (Recorded(h, k, limit, f, SRCPORT) <==> a && b && c)
            && (Recorded(h, k, limit, f, DSTPORT) <==> a && b && c && d)
            && !Recorded(h, k, limit, f, SRCIP) && !Recorded(h, k, limit, f, DSTIP)
  {
    hide Rows, AllBelow, LE;
    IPv6Bytes(f.key, 8);
    IPv6Bytes(f.key, 24);
    forall t: IndexType {
      RecordedFour(h, k, limit, [SRCIPv6, DSTIPv6, SRCPORT, DSTPORT], f, t);
    }
  }

  lemma RecordedNowhere(h: Hash, k: nat, limit: nat, f: FlowIndex, t: IndexType)
    ensures |f.key| != 12 && |f.key| != 40 ==> !Recorded(h, k, limit, f, t)
  {
  }

  /** On a bitmap with enough rows every field of every flow is recorded. */
  lemma {:induction false} AdequateRecorded(h: Hash, k: nat, limit: nat, order: seq<IndexType>, f: FlowIndex, t: IndexType)
    requires forall u :: u in order ==> u in Order(f)
    requires limit >= ADEQUATE_ROWS
    ensures RecordedIn(h, k, limit, order, f, t) <==> t in order
  {
    hide Rows, AllBelow, Pow2;
    if order != [] {
      var u := order[0];
      LEBound(KeyOf(f, u));
      AdequateReach(h, k, u, LE(KeyOf(f, u)), limit);
      if u != t {
        AdequateRecorded(h, k, limit, order[1..], f, t);
      }
    }
  }

  /** The insertions a field's skip list receives. */
  ghost function FieldLog(h: Hash, k: nat, limit: nat, flows: seq<FlowIndex>, t: IndexType): seq<Entry> {
    if flows == [] then []
    else FieldLog(h, k, limit, flows[..|flows| - 1], t) + FieldEntry(h, k, limit, flows[|flows| - 1], t)
  }

  ghost function FieldEntry(h: Hash, k: nat, limit: nat, f: FlowIndex, t: IndexType): seq<Entry> {
    if Recorded(h, k, limit, f, t) then
      RecordedMeaning(h, k, limit, Order(f), f, t);
      [MakeEntry(KeyOf(f, t), f.position)]
    else []
  }

  /** The low 32 bits of the positions of the recorded flows whose field t is key, newest first. */
  ghost function Expected(h: Hash, k: nat, limit: nat, flows: seq<FlowIndex>, t: IndexType, key: seq<Byte>): seq<U32> {
    if flows == [] then []
    else
      var f, rest := flows[|flows| - 1], Expected(h, k, limit, flows[..|flows| - 1], t, key);
      if Recorded(h, k, limit, f, t) && HasMember(f, t, key) then [f.position % 0x1_0000_0000] + rest else rest
  }

  /** The same for every inserted flow, with no Bloom filter in sight. */
  function Scan(flows: seq<FlowIndex>, t: IndexType, key: seq<Byte>): seq<U32> {
    if flows == [] then []
    else
      var f, rest := flows[|flows| - 1], Scan(flows[..|flows| - 1], t, key);
      if HasMember(f, t, key) then [f.position % 0x1_0000_0000] + rest else rest
  }

  /** A number is answered exactly when it is the position, modulo 2^32, of some flow with that member. */
  lemma {:induction false} ScanFinds(flows: seq<FlowIndex>, t: IndexType, key: seq<Byte>, p: U32)
    ensures p in Scan(flows, t, key)
       <==> exists i :: 0 <= i < |flows| && HasMember(flows[i], t, key) && flows[i].position % 0x1_0000_0000 == p
  {
    hide HasMember;
    if flows != [] {
      var init, f := flows[..|flows| - 1], flows[|flows| - 1];
      ScanFinds(init, t, key, p);
      assert forall i :: 0 <= i < |init| ==> init[i] == flows[i];
      if HasMember(f, t, key) {
        assert p in Scan(flows, t, key) <==> p == f.position % 0x1_0000_0000 || p in Scan(init, t, key);
      }
    }
  }

  lemma {:induction false} ExpectedIsScan(h: Hash, k: nat, limit: nat, flows: seq<FlowIndex>, t: IndexType, key: seq<Byte>)
    requires limit >= ADEQUATE_ROWS
    ensures Expected(h, k, limit, flows, t, key) == Scan(flows, t, key)
  {
    if flows != [] {
      ExpectedIsScan(h, k, limit, flows[..|flows| - 1], t, key);
      var f := flows[|flows| - 1];
      AdequateRecorded(h, k, limit, Order(f), f, t);
      KeyIsMember(f, t, key);
    }
  }

  /** Searching a field's log for a key is scanning the flows for it. */
  lemma {:induction false} LogAnswersExpected(h: Hash, k: nat, limit: nat, flows: seq<FlowIndex>, t: IndexType, key: seq<Byte>)
    requires |key| == Width(t)
    ensures Low32(Reverse(Matching(FieldLog(h, k, limit, flows, t), Rank(key)))) == Expected(h, k, limit, flows, t, key)
  {
    hide Rank, Recorded, HasMember, KeyOf;
    if flows != [] {
      var init, f := flows[..|flows| - 1], flows[|flows| - 1];
      var log, rank := FieldLog(h, k, limit, init, t), Rank(key);
      LogAnswersExpected(h, k, limit, init, t, key);
      MatchingConcat(log, FieldEntry(h, k, limit, f, t), rank);
      if Recorded(h, k, limit, f, t) {
        RecordedHere(h, k, limit, f, t);
        KeyIsMember(f, t, key);
        var e := MakeEntry(KeyOf(f, t), f.position);
        assert Matching([e], rank) == if e.rank == rank then [e] else [];
        RankInjective(KeyOf(f, t), key);
        ReverseSnoc(Matching(log, rank), e);
        assert ([e] + Reverse(Matching(log, rank)))[1..] == Reverse(Matching(log, rank));
      }
      assert Matching(log, rank) + [] == Matching(log, rank);
    }
  }

  lemma RecordedHere(h: Hash, k: nat, limit: nat, f: FlowIndex, t: IndexType)
    requires Recorded(h, k, limit, f, t)
    ensures t in Order(f) && FieldEntry(h, k, limit, f, t) == [MakeEntry(KeyOf(f, t), f.position)]
  {
    RecordedMeaning(h, k, limit, Order(f), f, t);
  }

  /** What an insertion that got through i fields, and no further, has recorded. */
  lemma {:induction false} RecordedPrefix(h: Hash, k: nat, limit: nat, order: seq<IndexType>, i: nat,
                                          f: FlowIndex, t: IndexType)
    requires forall u :: u in order ==> u in Order(f)
    requires i <= |order|
    requires forall j :: 0 <= j < i ==> AllBelow(Rows(h, k, order[j], LE(KeyOf(f, order[j]))), limit)
    requires i < |order| ==> !AllBelow(Rows(h, k, order[i], LE(KeyOf(f, order[i]))), limit)
    ensures RecordedIn(h, k, limit, order, f, t) <==> t in order[..i]
  {
    hide Rows, AllBelow, LE, KeyOf;
    if i > 0 {
      forall j | 0 <= j < i - 1
        ensures AllBelow(Rows(h, k, order[1..][j], LE(KeyOf(f, order[1..][j]))), limit)
      {
        assert order[1..][j] == order[j + 1];
      }
      RecordedPrefix(h, k, limit, order[1..], i - 1, f, t);
      assert order[..i] == [order[0]] + order[1..][..i - 1];
    }
  }

  ghost function EntryIf(f: FlowIndex, t: IndexType, order: seq<IndexType>): seq<Entry>
    requires t in order ==> t in Order(f)
  {
    if t in order then [MakeEntry(KeyOf(f, t), f.position)] else []
  }

  /** The entry a field receives is the one its flow is recorded with. */
  lemma EntryRecorded(h: Hash, k: nat, limit: nat, flows: seq<FlowIndex>, f: FlowIndex, i: nat, t: IndexType)
    requires i <= |Order(f)|
    requires forall j :: 0 <= j < i ==> AllBelow(Rows(h, k, Order(f)[j], LE(KeyOf(f, Order(f)[j]))), limit)
    requires i < |Order(f)| ==> !AllBelow(Rows(h, k, Order(f)[i], LE(KeyOf(f, Order(f)[i]))), limit)
    ensures FieldLog(h, k, limit, flows + [f], t) == FieldLog(h, k, limit, flows, t) + EntryIf(f, t, Order(f)[..i])
  {
    hide Rows, AllBelow, LE, KeyOf, Order;
    RecordedPrefix(h, k, limit, Order(f), i, f, t);
    assert (flows + [f])[..|flows|] == flows;
    if t in Order(f)[..i] {
      RecordedHere(h, k, limit, f, t);
    }
  }

  lemma {:induction false} FieldLogLength(h: Hash, k: nat, limit: nat, flows: seq<FlowIndex>, t: IndexType)
    ensures |FieldLog(h, k, limit, flows, t)| <= |flows|
  {
    hide Recorded;
    if flows != [] {
      FieldLogLength(h, k, limit, flows[..|flows| - 1], t);
    }
  }

  lemma OrderDistinct(f: FlowIndex, i: nat)
    requires i < |Order(f)|
    ensures Order(f)[i] !in Order(f)[..i]
  {
  }

  // ----- the Bloom gate

  ghost predicate LoggedKey(e: Entry, w: nat) {
    |e.key| == w && e.rank == Rank(e.key)
  }

  /** Every logged key has all its rows marked. */
  ghost predicate Gated(h: Hash, k: nat, cells: set<(nat, nat)>, col: nat, t: IndexType, log: seq<Entry>) {
    forall i :: 0 <= i < |log| ==> Marked(cells, col, Rows(h, k, t, LE(log[i].key)))
  }

  lemma GatedGrows(h: Hash, k: nat, cells: set<(nat, nat)>, more: set<(nat, nat)>, col: nat, t: IndexType, log: seq<Entry>)
    requires Gated(h, k, cells, col, t, log) && cells <= more
    ensures Gated(h, k, more, col, t, log)
  {
    hide Rows, LE;
  }

  lemma GatedMore(h: Hash, k: nat, cells: set<(nat, nat)>, col: nat, t: IndexType, log: seq<Entry>, e: Entry)
    requires Gated(h, k, cells, col, t, log) && Marked(cells, col, Rows(h, k, t, LE(e.key)))
    ensures Gated(h, k, cells, col, t, log + [e])
  {
    hide Rows, LE, Marked;
  }

  lemma RowsMarked(rows: seq<nat>, limit: nat, before: set<(nat, nat)>, after: set<(nat, nat)>, col: nat)
    requires AllBelow(rows, limit) && after == before + Mark(Reach(rows, limit), col)
    ensures Marked(after, col, rows)
  {
    hide Reach;
  }

  /** A key the gate turns away is in no logged entry. */
  lemma GateHidesNothing(h: Hash, k: nat, cells: set<(nat, nat)>, col: nat, t: IndexType, log: seq<Entry>, key: seq<Byte>)
    requires Gated(h, k, cells, col, t, log) && |key| == Width(t)
    requires forall i :: 0 <= i < |log| ==> LoggedKey(log[i], Width(t))
    requires !Marked(cells, col, Rows(h, k, t, LE(key)))
    ensures Matching(log, Rank(key)) == []
  {
    hide Rows, Marked, LE;
    forall i | 0 <= i < |log|
      ensures log[i].rank != Rank(key)
    {
      RankInjective(log[i].key, key);
    }
    MatchingNone(log, Rank(key));
  }
}

/** The in-memory flow index: src-old/lib/memoryIndex.hpp. */
module MemoryIndexes {
  import opened Bytes
  import opened Keys
  import opened SkipLog
  import opened SkipLists
  import opened BloomRows
  import opened BitMaps
  import opened PrefixBloomFilters
  import opened FlowLog

  const FIELDS: nat := 6

  /** Position of a field in the skip-list array, as in `enum IndexType`. */
  function Slot(t: IndexType): (i: nat)
    ensures i < FIELDS
  {
    match t
    case SRCIP => 0
    case DSTIP => 1
    case SRCPORT => 2
    case DSTPORT => 3
    case SRCIPv6 => 4
    case DSTIPv6 => 5
  }

  function FieldAt(i: nat): (t: IndexType)
    requires i < FIELDS
    ensures Slot(t) == i
  {
    if i == 0 then SRCIP else if i == 1 then DSTIP else if i == 2 then SRCPORT
    else if i == 3 then DSTPORT else if i == 4 then SRCIPv6 else DSTIPv6
  }

  lemma SlotInjective(t: IndexType)
    ensures FieldAt(Slot(t)) == t
  {
  }

  class MemoryIndex {
    const bloom: PrefixBloomFilter
    const lists: seq<SkipList>
    ghost var flows: seq<FlowIndex>   // the flows inserted, oldest first
    ghost var Repr: set<object>

    ghost predicate Valid()
      reads this, Repr
    {
      && Core()
      && forall t: IndexType ::
           lists[Slot(t)] in Repr && lists[Slot(t)].log == FieldLog(bloom.hash, bloom.k, bloom.Limit(), flows, t)
    }

    /** Everything but the link between the lists and the inserted flows. */
    ghost predicate Core()
      reads this`Repr, Repr
    {
      && FilterCore()
      && |lists| == FIELDS
      && (forall i :: 0 <= i < FIELDS ==> lists[i] in Repr && lists[i].Repr <= Repr)
      && (forall i, j :: 0 <= i < j < FIELDS ==> lists[i].Repr !! lists[j].Repr)
      && (forall i :: 0 <= i < FIELDS ==> ListCore(lists[i], FieldAt(i), {bloom, bloom.bitmap, bloom.bitmap.bitmap}))
      && (forall i :: 0 <= i < FIELDS ==>
           Gated(bloom.hash, bloom.k, bloom.Cells(), bloom.writingCol, FieldAt(i), lists[i].log))
    }

    ghost predicate FilterCore()
      reads this`Repr, Repr
    {
      && this !in Repr && bloom in Repr
      && bloom.bitmap != null && bloom.bitmap in Repr && bloom.bitmap.bitmap in Repr
      && bloom.Valid()
      && bloom.readingCol == bloom.writingCol
    }

    constructor (bitmap: BitMap, numHashFunctions: nat, hash: Hash)
      requires bitmap.Valid()
      ensures Valid() && fresh(Repr - {bitmap, bitmap.bitmap})
      ensures flows == [] && bloom.bitmap == bitmap && bloom.k == numHashFunctions && bloom.hash == hash
      ensures bitmap.colCount > 0 ==> bloom.Limit() == bitmap.rowCount
    {
      hide SkipList.Valid, BitMap.Valid, PrefixBloomFilter.Cells, Gated, ListCore, FieldLog, Width, Slot, FieldAt;
      var filter := new PrefixBloomFilter(bitmap, numHashFunctions, hash);
      filter.SetWritingCol(0);
      filter.SetReadingCol(0);
      var all, repr := MakeLists();
      bloom := filter;
      lists := all;
      flows := [];
      Repr := {filter, bitmap, bitmap.bitmap} + repr;
      new;
      forall i | 0 <= i < FIELDS
        ensures ListCore(lists[i], FieldAt(i), {bloom, bloom.bitmap, bloom.bitmap.bitmap})
        ensures Gated(bloom.hash, bloom.k, bloom.Cells(), bloom.writingCol, FieldAt(i), lists[i].log)
      {
        EmptyList(lists[i], FieldAt(i), {bloom, bloom.bitmap, bloom.bitmap.bitmap});
        NothingGated(bloom.hash, bloom.k, bloom.Cells(), bloom.writingCol, FieldAt(i));
      }
      forall t: IndexType
        ensures lists[Slot(t)].log == FieldLog(bloom.hash, bloom.k, bloom.Limit(), [], t)
      {
        SlotInjective(t);
        NothingLogged(bloom.hash, bloom.k, bloom.Limit(), t);
      }
    }

    static lemma EmptyList(list: SkipList, t: IndexType, outside: set<object>)
      requires list.Valid() && list.keyLen == Width(t) && list.log == [] && outside !! list.Repr
      ensures ListCore(list, t, outside)
    {
      hide SkipList.Valid;
    }

    static lemma NothingGated(h: Hash, k: nat, cells: set<(nat, nat)>, col: nat, t: IndexType)
      ensures Gated(h, k, cells, col, t, [])
    {
    }

    static lemma NothingLogged(h: Hash, k: nat, limit: nat, t: IndexType)
      ensures FieldLog(h, k, limit, [], t) == []
    {
    }

    /** One skip list per field, of eight levels per key byte. */
    static method MakeLists() returns (lists: seq<SkipList>, ghost repr: set<object>)
      ensures |lists| == FIELDS && fresh(repr)
      ensures forall i :: 0 <= i < FIELDS ==> lists[i].Valid() && lists[i] in repr && lists[i].Repr <= repr
      ensures forall i :: 0 <= i < FIELDS ==> lists[i].keyLen == Width(FieldAt(i)) && lists[i].log == []
      ensures forall i, j :: 0 <= i < j < FIELDS ==> lists[i].Repr !! lists[j].Repr
    {
      hide SkipList.Valid;
      lists := [];
      repr := {};
      for n := 0 to FIELDS
        invariant |lists| == n && fresh(repr)
        invariant forall i :: 0 <= i < n ==> lists[i].Valid() && lists[i] in repr && lists[i].Repr <= repr
        invariant forall i :: 0 <= i < n ==> lists[i].keyLen == Width(FieldAt(i)) && lists[i].log == []
        invariant forall i, j :: 0 <= i < j < n ==> lists[i].Repr !! lists[j].Repr
      {
        var w := Width(FieldAt(n));
        var list := new SkipList(8 * w, w, 8);
        lists := lists + [list];
        repr := repr + list.Repr;
      }
    }

    /** `insertIndex`: the flow's fields in order, each into the Bloom filter and then into its skip list,
        stopping at the first field the bitmap cannot hold. A key that is neither tuple size is ignored. */
    method InsertIndex(f: FlowIndex)
      requires Valid() && |flows| < 0xFFFF_FFFF_FFFF_FFFF
      modifies this, Repr
      ensures Valid() && fresh(Repr - old(Repr))
      ensures flows == old(flows) + [f]
      ensures bloom.Limit() == old(bloom.Limit())
    {
      hide KeyOf, Order, Rows, LE, AllBelow, SkipList.Valid, BitMap.Valid, BitMap.Cells, FieldLog;
      var i := InsertFields(f);
      forall t: IndexType
        ensures lists[Slot(t)].log == FieldLog(bloom.hash, bloom.k, bloom.Limit(), flows + [f], t)
      {
        EntryRecorded(bloom.hash, bloom.k, bloom.Limit(), flows, f, i, t);
      }
      flows := flows + [f];
    }

    /** The fields of one flow, up to the first that fails. */
    method InsertFields(f: FlowIndex) returns (i: nat)
      requires Valid() && |flows| < 0xFFFF_FFFF_FFFF_FFFF
      modifies this`Repr, Repr
      ensures Core() && fresh(Repr - old(Repr))
      ensures bloom.Limit() == old(bloom.Limit()) && bloom.k == old(bloom.k)
      ensures i <= |Order(f)| && forall j :: 0 <= j < i ==> Fits(f, Order(f)[j])
      ensures i < |Order(f)| ==> !Fits(f, Order(f)[i])
      ensures forall t: IndexType :: lists[Slot(t)].log == old(lists[Slot(t)].log) + EntryIf(f, t, Order(f)[..i])
    {
      hide KeyOf, Order, FieldLog, Rows, LE, AllBelow, SkipList.Valid, BitMap.Valid, BitMap.Cells;
      var order := Order(f);
      i := 0;
      while i < |order|
        invariant Core() && fresh(Repr - old(Repr)) && i <= |order|
        invariant bloom.Limit() == old(bloom.Limit()) && bloom.k == old(bloom.k)
        invariant forall j :: 0 <= j < i ==> Fits(f, order[j])
        invariant forall t: IndexType :: lists[Slot(t)].log == old(lists[Slot(t)].log) + EntryIf(f, t, order[..i])
      {
        var t := order[i];
        OrderDistinct(f, i);
        FieldLogLength(bloom.hash, bloom.k, bloom.Limit(), flows, t);
        var ok := InsertField(t, KeyOf(f, t), f.position);
        if !ok {
          return;
        }
        i := i + 1;
      }
    }

    ghost predicate Fits(f: FlowIndex, t: IndexType)
      requires t in Order(f) && bloom.bitmap != null
      reads bloom, bloom.bitmap
    {
      AllBelow(Rows(bloom.hash, bloom.k, t, LE(KeyOf(f, t))), bloom.Limit())
    }

    /** One field: Bloom filter first, skip list only if that succeeded. */
    method InsertField(t: IndexType, key: seq<Byte>, position: U64) returns (ok: bool)
      requires Core() && |key| == Width(t) && |lists[Slot(t)].log| < 0xFFFF_FFFF_FFFF_FFFF
      modifies this`Repr, bloom.bitmap.bitmap, lists[Slot(t)].Repr
      ensures Core() && fresh(Repr - old(Repr))
      ensures ok == AllBelow(Rows(bloom.hash, bloom.k, t, LE(key)), bloom.Limit())
      ensures lists[Slot(t)].log == old(lists[Slot(t)].log) + if ok then [MakeEntry(key, position)] else []
      ensures forall i :: 0 <= i < FIELDS && i != Slot(t) ==> lists[i].log == old(lists[i].log)
    {
      hide Rows, LE, Rank, Marked, Reach, AllBelow;
      ok := MarkField(t, key);
      if ok {
        InsertList(t, key, position);
      }
    }

    method MarkField(t: IndexType, key: seq<Byte>) returns (ok: bool)
      requires Core() && |key| == Width(t)
      modifies bloom.bitmap.bitmap
      ensures Core()
      ensures ok == AllBelow(Rows(bloom.hash, bloom.k, t, LE(key)), bloom.Limit())
      ensures ok ==> Marked(bloom.Cells(), bloom.writingCol, Rows(bloom.hash, bloom.k, t, LE(key)))
    {
      hide Rows, LE, Rank, Marked, Reach, AllBelow, SkipList.Valid, BitMap.Valid, BitMap.Cells;
      ok := InsertBloom(t, key);
      forall i | 0 <= i < FIELDS
        ensures Gated(bloom.hash, bloom.k, bloom.Cells(), bloom.writingCol, FieldAt(i), lists[i].log)
      {
        GatedGrows(bloom.hash, bloom.k, old(bloom.Cells()), bloom.Cells(), bloom.writingCol, FieldAt(i), lists[i].log);
      }
      if ok {
        RowsMarked(Rows(bloom.hash, bloom.k, t, LE(key)), bloom.Limit(), old(bloom.Cells()), bloom.Cells(), bloom.writingCol);
      }
    }

    method InsertList(t: IndexType, key: seq<Byte>, position: U64)
      requires Core() && |key| == Width(t) && |lists[Slot(t)].log| < 0xFFFF_FFFF_FFFF_FFFF
      requires Marked(bloom.Cells(), bloom.writingCol, Rows(bloom.hash, bloom.k, t, LE(key)))
      modifies this`Repr, lists[Slot(t)].Repr
      ensures Core() && fresh(Repr - old(Repr))
      ensures lists[Slot(t)].log == old(lists[Slot(t)].log) + [MakeEntry(key, position)]
      ensures forall i :: 0 <= i < FIELDS && i != Slot(t) ==> lists[i].log == old(lists[i].log)
    {
      hide Rows, LE, Rank, Marked, ListCore, Gated, Width, PrefixBloomFilter.Cells, SkipList.Valid, BitMap.Valid, BitMap.Cells;
      var list := lists[Slot(t)];
      SlotInjective(t);
      LogFits(list, t, {bloom, bloom.bitmap, bloom.bitmap.bitmap});
      forall i | 0 <= i < FIELDS
        ensures lists[i] in lists[i].Repr
      {
        ListOwned(lists[i], FieldAt(i), {bloom, bloom.bitmap, bloom.bitmap.bitmap});
      }
      GatedMore(bloom.hash, bloom.k, bloom.Cells(), bloom.writingCol, t, list.log, MakeEntry(key, position));
      InsertListed(list, t, key, position, {bloom, bloom.bitmap, bloom.bitmap.bitmap});
      Repr := Repr + list.Repr;
    }

    method InsertListed(list: SkipList, t: IndexType, key: seq<Byte>, position: U64, ghost outside: set<object>)
      requires ListCore(list, t, outside) && |key| == Width(t) && list.nodeNum < 0xFFFF_FFFF_FFFF_FFFF
      modifies list.Repr
      ensures ListCore(list, t, outside) && fresh(list.Repr - old(list.Repr))
      ensures list.log == old(list.log) + [MakeEntry(key, position)]
    {
      hide Rank, SkipList.Valid;
      var done := list.Insert(key, position, 0xFFFF_FFFF_FFFF_FFFF);
      assert forall o :: o in outside ==> o !in list.Repr;
    }

    static lemma ListOwned(list: SkipList, t: IndexType, outside: set<object>)
      requires ListCore(list, t, outside)
      ensures list in list.Repr
    {
      hide SkipList.Valid;
    }

    static lemma LogFits(list: SkipList, t: IndexType, outside: set<object>)
      requires ListCore(list, t, outside) && |list.log| < 0xFFFF_FFFF_FFFF_FFFF
      ensures list.nodeNum < 0xFFFF_FFFF_FFFF_FFFF && outside !! list.Repr
    {
      SortLogLength(list.log);
    }

    method InsertBloom(t: IndexType, key: seq<Byte>) returns (ok: bool)
      requires Core() && |key| == Width(t)
      modifies bloom.bitmap.bitmap
      ensures bloom.Valid() && ok == AllBelow(Rows(bloom.hash, bloom.k, t, LE(key)), bloom.Limit())
      ensures bloom.Cells()
           == old(bloom.Cells()) + Mark(Reach(Rows(bloom.hash, bloom.k, t, LE(key)), bloom.Limit()), bloom.writingCol)
    {
      hide Rows, LE, Rank, Marked, Reach, AllBelow;
      assert key[0..Width(t)] == key;
      if Width(t) == 4 {
        ok := bloom.InsertIPv4(U32At(key, 0), t);
      } else if Width(t) == 2 {
        ok := bloom.InsertPort(U16At(key, 0), t);
      } else {
        IPv6Bytes(key, 0);
        ok := bloom.InsertIPv6(IPv6At(key, 0), t);
      }
    }

    /** `searchIndex`: gate first, then the skip list. The gate never hides a recorded flow. */
    method SearchIndex(t: IndexType, key: seq<Byte>) returns (res: seq<U32>)
      requires Valid() && |key| >= Width(t)
      ensures res == if |key| == Width(t) then Expected(bloom.hash, bloom.k, bloom.Limit(), flows, t, key) else []
      ensures bloom.Limit() >= ADEQUATE_ROWS && |key| == Width(t) ==> res == Scan(flows, t, key)
    {
      hide Rank, Rows, Marked, LE;
      var list := lists[Slot(t)];
      SlotInjective(t);
      var open := Gate(t, key);
      assert |key| == Width(t) ==> key[..Width(t)] == key;
      if !open {
        if |key| == Width(t) {
          GateHidesNothing(bloom.hash, bloom.k, bloom.Cells(), bloom.readingCol, t, list.log, key);
          LogAnswersExpected(bloom.hash, bloom.k, bloom.Limit(), flows, t, key);
        }
        res := [];
      } else {
        res := list.FindByKey(key);
        if |key| == Width(t) {
          LogAnswersExpected(bloom.hash, bloom.k, bloom.Limit(), flows, t, key);
        }
      }
      if bloom.Limit() >= ADEQUATE_ROWS {
        ExpectedIsScan(bloom.hash, bloom.k, bloom.Limit(), flows, t, key);
      }
    }

    /** The Bloom test on the leading bytes of the key. */
    method Gate(t: IndexType, key: seq<Byte>) returns (open: bool)
      requires Core() && |key| >= Width(t)
      ensures open == Marked(bloom.Cells(), bloom.readingCol, Rows(bloom.hash, bloom.k, t, LE(key[..Width(t)])))
    {
      hide Rows, Marked, LE, Rank;
      assert key[0..Width(t)] == key[..Width(t)];
      if Width(t) == 4 {
        open := bloom.GetWholeIPv4(U32At(key, 0), t);
      } else if Width(t) == 2 {
        open := bloom.GetPort(U16At(key, 0), t);
        FullAnswerIsAllRows(bloom.hash, bloom.k, bloom.Cells(), bloom.readingCol, t, U16At(key, 0));
      } else {
        open := bloom.GetWholeIPv6(IPv6At(key, 0), t);
        IPv6Bytes(key, 0);
      }
    }
  }

  /** A field's skip list, away from the other objects of the index. */
  ghost predicate ListCore(list: SkipList, t: IndexType, outside: set<object>)
    reads list, list.Repr
  {
    && list.Valid()
    && list.keyLen == Width(t)
    && (forall e :: 0 <= e < |list.log| ==> LoggedKey(list.log[e], Width(t)))
    && outside !! list.Repr
  }
}
