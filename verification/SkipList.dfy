/** The towers of the skip list, as heights only. Position 0 is the head. */
module Towers {

  /** First position at or after `from` whose tower is taller than level l; |h| when there is none. */
  function NextTall(h: seq<nat>, from: nat, l: nat): (r: nat)
    requires from <= |h|
    ensures from <= r <= |h|
    ensures r < |h| ==> h[r] > l
    ensures forall j :: from <= j < r ==> h[j] <= l
    decreases |h| - from
  {
    if from == |h| || h[from] > l then from else NextTall(h, from + 1, l)
  }

  lemma NextTallUnique(h: seq<nat>, from: nat, l: nat, r: nat)
    requires from <= r <= |h|
    requires r < |h| ==> h[r] > l
    requires forall j :: from <= j < r ==> h[j] <= l
    ensures NextTall(h, from, l) == r
  {
  }

  function InsertAt<T>(s: seq<T>, k: nat, x: T): (r: seq<T>)
    requires k <= |s|
    ensures |r| == |s| + 1 && r[k] == x
    ensures forall i :: 0 <= i < k ==> r[i] == s[i]
    ensures forall i :: k < i < |r| ==> r[i] == s[i - 1]
  {
    s[..k] + [x] + s[k..]
  }

  /** Where a pointer that starts left of position k goes after a tower of height n is put at k. */
  lemma NextTallInsertLeft(h: seq<nat>, k: nat, n: nat, from: nat, l: nat)
    requires from <= k <= |h|
    ensures NextTall(InsertAt(h, k, n), from, l)
            == (var r := NextTall(h, from, l); if r < k then r else if n > l then k else r + 1)
  {
    var r := NextTall(h, from, l);
    NextTallUnique(InsertAt(h, k, n), from, l, if r < k then r else if n > l then k else r + 1);
  }

  /** A pointer that starts at or right of position k moves along by one. */
  lemma NextTallInsertRight(h: seq<nat>, k: nat, n: nat, from: nat, l: nat)
    requires k <= from <= |h|
    ensures NextTall(InsertAt(h, k, n), from + 1, l) == NextTall(h, from, l) + 1
  {
    NextTallUnique(InsertAt(h, k, n), from + 1, l, NextTall(h, from, l) + 1);
  }

  /** The positions a walk along level l visits after position i. */
  function Chain(h: seq<nat>, i: nat, l: nat): seq<nat>
    requires i < |h|
    decreases |h| - i
  {
    var j := NextTall(h, i + 1, l);
    if j == |h| then [] else [j] + Chain(h, j, l)
  }

  /** The positions of s whose towers are taller than l. */
  function Taller(s: seq<nat>, h: seq<nat>, l: nat): seq<nat> {
    if s == [] then [] else (if s[0] < |h| && h[s[0]] > l then [s[0]] else []) + Taller(s[1..], h, l)
  }

  /** A level visits positions in increasing order, so it is acyclic. */
  lemma {:induction false} ChainIncreases(h: seq<nat>, i: nat, l: nat)
    requires i < |h|
    ensures forall a, b :: 0 <= a < b < |Chain(h, i, l)| ==> Chain(h, i, l)[a] < Chain(h, i, l)[b]
    decreases |h| - i
  {
    var j := NextTall(h, i + 1, l);
    if j < |h| {
      ChainIncreases(h, j, l);
      forall b | 0 <= b < |Chain(h, j, l)|
        ensures j < Chain(h, j, l)[b]
      {
        ChainMembers(h, j, l, Chain(h, j, l)[b]);
      }
    }
  }

  /** A level visits exactly the positions whose towers reach it. */
  lemma {:induction false} ChainMembers(h: seq<nat>, i: nat, l: nat, x: nat)
    requires i < |h|
    ensures x in Chain(h, i, l) <==> i < x < |h| && h[x] > l
    decreases |h| - i
  {
    var j := NextTall(h, i + 1, l);
    if j < |h| {
      ChainMembers(h, j, l, x);
      assert x in Chain(h, i, l) <==> x == j || x in Chain(h, j, l);
    }
  }

  lemma TallerCons(x: nat, s: seq<nat>, h: seq<nat>, l: nat)
    requires x < |h|
    ensures Taller([x] + s, h, l) == (if h[x] > l then [x] else []) + Taller(s, h, l)
  {
    assert ([x] + s)[1..] == s;
  }

  /** Level l + 1 is the subsequence of level l made of the towers that also reach it. */
  lemma {:induction false} UpperLevelIsSubsequence(h: seq<nat>, i: nat, l: nat)
    requires i < |h|
    ensures Chain(h, i, l + 1) == Taller(Chain(h, i, l), h, l + 1)
    decreases |h| - i
  {
    var j := NextTall(h, i + 1, l);
    NextTallUpper(h, i + 1, l);
    if j < |h| {
      UpperLevelIsSubsequence(h, j, l);
      TallerCons(j, Chain(h, j, l), h, l + 1);
      if h[j] <= l + 1 {
        ChainSame(h, i, j, l + 1);
      }
    }
  }

  lemma ChainSame(h: seq<nat>, i: nat, j: nat, l: nat)
    requires i < |h| && j < |h| && NextTall(h, i + 1, l) == NextTall(h, j + 1, l)
    ensures Chain(h, i, l) == Chain(h, j, l)
  {
  }

  lemma NextTallUpper(h: seq<nat>, from: nat, l: nat)
    requires from <= |h|
    ensures var j := NextTall(h, from, l);
            NextTall(h, from, l + 1) == if j < |h| && h[j] <= l + 1 then NextTall(h, j + 1, l + 1) else j
  {
    var j := NextTall(h, from, l);
    NextTallUnique(h, from, l + 1, if j < |h| && h[j] <= l + 1 then NextTall(h, j + 1, l + 1) else j);
  }

  lemma {:induction false} BottomLevelLength(h: seq<nat>, i: nat)
    requires i < |h|
    requires forall x :: i < x < |h| ==> h[x] > 0
    ensures |Chain(h, i, 0)| == |h| - 1 - i
    decreases |h| - i
  {
    if i + 1 < |h| {
      NextTallUnique(h, i + 1, 0, i + 1);
      BottomLevelLength(h, i + 1);
    }
  }
}

/** The multi-level skip list: src-old/lib/skipList.hpp. */
module SkipLists {
  import opened Bytes
  import opened Keys
  import opened SkipLog
  import opened Towers

  class Node {
    const key: seq<Byte>
    const value: U64
    ghost const rank: nat
    var next: seq<Node?>

    constructor (key: seq<Byte>, value: U64, level: nat)
      ensures this.key == key && this.value == value && rank == Rank(key)
      ensures |next| == level && forall l :: 0 <= l < level ==> next[l] == null
    {
      this.key := key;
      this.value := value;
      this.rank := Rank(key);
      this.next := seq(level, _ => null);
    }
  }

  ghost function EntryOf(n: Node): Entry {
    Entry(n.rank, n.key, n.value)
  }

  /** The entries of a level-0 node sequence are its nodes' contents, without the head. */
  ghost predicate Listed(nodes: seq<Node>, entries: seq<Entry>) {
    |nodes| == |entries| + 1 && forall i :: 0 <= i < |entries| ==> entries[i] == EntryOf(nodes[i + 1])
  }

  /** The node a pointer of position i at level l must name. */
  ghost function Link(nodes: seq<Node>, h: seq<nat>, i: nat, l: nat): Node?
    requires |nodes| == |h| && i < |h|
  {
    var j := NextTall(h, i + 1, l);
    if j < |nodes| then nodes[j] else null
  }

  /** Pointers of the other nodes after inserting node n at position k. */
  lemma LinkInsertLeft(nodes: seq<Node>, h: seq<nat>, k: nat, n: Node, height: nat, i: nat, l: nat)
    requires |nodes| == |h| && i < k <= |h|
    ensures Link(InsertAt(nodes, k, n), InsertAt(h, k, height), i, l)
            == if height > l && NextTall(h, i + 1, l) >= k then n else Link(nodes, h, i, l)
  {
    NextTallInsertLeft(h, k, height, i + 1, l);
  }

  lemma LinkInsertRight(nodes: seq<Node>, h: seq<nat>, k: nat, n: Node, height: nat, i: nat, l: nat)
    requires |nodes| == |h| && k <= i < |h|
    ensures Link(InsertAt(nodes, k, n), InsertAt(h, k, height), i + 1, l) == Link(nodes, h, i, l)
  {
    NextTallInsertRight(h, k, height, i + 1, l);
  }

  /** The new node takes over the pointer of its predecessor on the level. */
  lemma LinkInserted(nodes: seq<Node>, h: seq<nat>, k: nat, n: Node, height: nat, p: nat, l: nat)
    requires |nodes| == |h| && p < k <= |h| && NextTall(h, p + 1, l) >= k
    ensures Link(InsertAt(nodes, k, n), InsertAt(h, k, height), k, l) == Link(nodes, h, p, l)
  {
    NextTallUnique(h, k, l, NextTall(h, p + 1, l));
    NextTallInsertRight(h, k, height, k, l);
  }

  /** k separates the nodes ranked below `rank` from the others. */
  ghost predicate Separates(nodes: seq<Node>, rank: nat, k: nat) {
    && 1 <= k <= |nodes|
    && (forall i :: 1 <= i < k ==> nodes[i].rank < rank)
    && (forall i :: k <= i < |nodes| ==> nodes[i].rank >= rank)
  }

  lemma SeparatesFirst(nodes: seq<Node>, entries: seq<Entry>, rank: nat)
    requires Listed(nodes, entries) && Sorted(entries)
    ensures Separates(nodes, rank, 1 + FirstNotLess(entries, rank))
  {
    var k := 1 + FirstNotLess(entries, rank);
    forall i | 1 <= i < |nodes|
      ensures if i < k then nodes[i].rank < rank else nodes[i].rank >= rank
    {
      assert entries[i - 1] == EntryOf(nodes[i]);
      if i >= k { SortedAt(entries, k - 1, i - 1); }
    }
  }

  /** p is the last position before k whose tower is taller than l. */
  ghost predicate IsPredecessor(h: seq<nat>, k: nat, l: nat, p: nat) {
    p < k <= |h| && h[p] > l && NextTall(h, p + 1, l) >= k
  }

  /** Every pointer of every tower names the next tower that reaches its level. */
  ghost predicate LinkedSeq(nodes: seq<Node>, h: seq<nat>)
    reads nodes
    requires |nodes| == |h|
  {
    forall i :: 0 <= i < |nodes| ==> RowLinked(nodes[i].next, nodes, h, i)
  }

  /** The pointer vectors of a node sequence. */
  ghost function NextTable(nodes: seq<Node>): (t: seq<seq<Node?>>)
    reads nodes
    ensures |t| == |nodes| && forall i :: 0 <= i < |t| ==> t[i] == nodes[i].next
  {
    seq(|nodes|, i requires 0 <= i < |nodes| reads nodes => nodes[i].next)
  }

  lemma OnlyPredecessor(h: seq<nat>, k: nat, l: nat, p: nat, i: nat)
    requires IsPredecessor(h, k, l, p) && i < k && h[i] > l
    ensures NextTall(h, i + 1, l) >= k <==> i == p
  {
  }

  /** Pointer (i, l) of an old node after the relinking is the pointer the longer list needs. */
  lemma RelinkedPointer(nodes: seq<Node>, h: seq<nat>, k: nat, n: Node, newLevel: nat, p: nat, i: nat, l: nat)
    requires |nodes| == |h| && 1 <= k <= |h| && i < |h| && l < h[i]
    requires l < newLevel ==> IsPredecessor(h, k, l, p)
    ensures Link(InsertAt(nodes, k, n), InsertAt(h, k, newLevel), if i < k then i else i + 1, l)
         == if l < newLevel && i == p then n else Link(nodes, h, i, l)
  {
    if i < k {
      LinkInsertLeft(nodes, h, k, n, newLevel, i, l);
      if l < newLevel { OnlyPredecessor(h, k, l, p, i); }
    } else {
      LinkInsertRight(nodes, h, k, n, newLevel, i, l);
    }
  }

  ghost predicate RowLinked(row: seq<Node?>, nodes: seq<Node>, h: seq<nat>, i: nat) {
    && |nodes| == |h| && i < |h| && |row| == h[i]
    && forall l :: 0 <= l < |row| ==> row[l] == Link(nodes, h, i, l)
  }

  ghost predicate RowRelinked(before: seq<Node?>, after: seq<Node?>, n: Node, newLevel: nat, pos: seq<nat>, i: nat) {
    && |after| == |before| && newLevel <= |pos|
    && forall l :: 0 <= l < |after| ==> after[l] == if l < newLevel && i == pos[l] then n else before[l]
  }

  lemma RelinkedTable(nodes: seq<Node>, h: seq<nat>, k: nat, n: Node, newLevel: nat, pos: seq<nat>,
                      before: seq<seq<Node?>>, nNext: seq<Node?>, after: seq<seq<Node?>>)
    requires |before| == |after| == |nodes| == |h| && 1 <= k <= |h|
    requires forall i :: 0 <= i < |h| ==> RowLinked(before[i], nodes, h, i)
    requires |nNext| == newLevel <= |pos| && forall l :: 0 <= l < newLevel ==> IsPredecessor(h, k, l, pos[l])
    requires forall l :: 0 <= l < newLevel ==>
      pos[l] < |before| && l < |before[pos[l]]| && nNext[l] == before[pos[l]][l]
    requires forall i :: 0 <= i < |after| ==> RowRelinked(before[i], after[i], n, newLevel, pos, i)
    ensures forall i :: 0 <= i <= |h| ==>
      RowLinked(InsertAt(after, k, nNext)[i], InsertAt(nodes, k, n), InsertAt(h, k, newLevel), i)
  {
    var t, nodes', h' := InsertAt(after, k, nNext), InsertAt(nodes, k, n), InsertAt(h, k, newLevel);
    NewRow(nodes, h, k, n, newLevel, pos, before, nNext);
    assert t[k] == nNext;
    forall i | 0 <= i < k
      ensures RowLinked(t[i], nodes', h', i)
    {
      OldRow(nodes, h, k, n, newLevel, pos, before[i], after[i], i);
    }
    forall i | k < i <= |h|
      ensures RowLinked(t[i], nodes', h', i)
    {
      OldRow(nodes, h, k, n, newLevel, pos, before[i - 1], after[i - 1], i - 1);
    }
  }

  lemma NewRow(nodes: seq<Node>, h: seq<nat>, k: nat, n: Node, newLevel: nat, pos: seq<nat>,
               before: seq<seq<Node?>>, row: seq<Node?>)
    requires |before| == |nodes| == |h| && 1 <= k <= |h|
    requires forall i :: 0 <= i < |h| ==> RowLinked(before[i], nodes, h, i)
    requires |row| == newLevel <= |pos| && forall l :: 0 <= l < newLevel ==> IsPredecessor(h, k, l, pos[l])
    requires forall l :: 0 <= l < newLevel ==>
      pos[l] < |before| && l < |before[pos[l]]| && row[l] == before[pos[l]][l]
    ensures RowLinked(row, InsertAt(nodes, k, n), InsertAt(h, k, newLevel), k)
  {
    forall l | 0 <= l < |row|
      ensures row[l] == Link(InsertAt(nodes, k, n), InsertAt(h, k, newLevel), k, l)
    {
      LinkInserted(nodes, h, k, n, newLevel, pos[l], l);
    }
  }

  lemma OldRow(nodes: seq<Node>, h: seq<nat>, k: nat, n: Node, newLevel: nat, pos: seq<nat>,
               before: seq<Node?>, after: seq<Node?>, j: nat)
    requires 1 <= k <= |h| && RowLinked(before, nodes, h, j)
    requires RowRelinked(before, after, n, newLevel, pos, j)
    requires forall l :: 0 <= l < newLevel ==> IsPredecessor(h, k, l, pos[l])
    ensures RowLinked(after, InsertAt(nodes, k, n), InsertAt(h, k, newLevel), if j < k then j else j + 1)
  {
    forall l | 0 <= l < |after|
      ensures after[l] == Link(InsertAt(nodes, k, n), InsertAt(h, k, newLevel), if j < k then j else j + 1, l)
    {
      RelinkedPointer(nodes, h, k, n, newLevel, if l < newLevel then pos[l] else 0, j, l);
    }
  }

  ghost predicate Distinct(nodes: seq<Node>) {
    nodes == [] || (nodes[0] !in nodes[1..] && Distinct(nodes[1..]))
  }

  lemma {:induction false} DistinctPairs(nodes: seq<Node>)
    ensures Distinct(nodes) <==> forall i, j :: 0 <= i < j < |nodes| ==> nodes[i] != nodes[j]
  {
    if nodes != [] {
      DistinctPairs(nodes[1..]);
      if Distinct(nodes) {
        forall i, j | 0 <= i < j < |nodes|
          ensures nodes[i] != nodes[j]
        {
          assert nodes[j] == nodes[1..][j - 1];
          if i > 0 { assert nodes[i] == nodes[1..][i - 1]; }
        }
      } else if nodes[0] in nodes[1..] {
        var j :| 0 <= j < |nodes[1..]| && nodes[1..][j] == nodes[0];
        assert nodes[j + 1] == nodes[0];
      } else {
        var i, j :| 0 <= i < j < |nodes[1..]| && nodes[1..][i] == nodes[1..][j];
        assert nodes[i + 1] == nodes[j + 1];
      }
    }
  }

  lemma DistinctInsert(nodes: seq<Node>, k: nat, n: Node)
    requires Distinct(nodes) && k <= |nodes| && n !in nodes
    ensures Distinct(InsertAt(nodes, k, n))
  {
    DistinctPairs(nodes);
    DistinctPairs(InsertAt(nodes, k, n));
  }

  /** A head of full height, then distinct nodes of height 1 to level, each with a key of the list's length. */
  ghost predicate Towering(nodes: seq<Node>, h: seq<nat>, head: Node, keyLen: nat, maxLevel: nat, level: nat) {
    && |nodes| == |h| > 0 && level <= maxLevel
    && nodes[0] == head && h[0] == maxLevel
    && Distinct(nodes)
    && (forall i :: 1 <= i < |nodes| ==> 1 <= h[i] <= level)
    && (forall i :: 1 <= i < |nodes| ==> |nodes[i].key| == keyLen && nodes[i].rank == Rank(nodes[i].key))
  }

  lemma ToweringInsert(nodes: seq<Node>, h: seq<nat>, head: Node, keyLen: nat, maxLevel: nat, level: nat,
                       k: nat, n: Node, newLevel: nat)
    requires Towering(nodes, h, head, keyLen, maxLevel, level)
    requires 1 <= k <= |nodes| && n !in nodes && |n.key| == keyLen && n.rank == Rank(n.key)
    requires 1 <= newLevel <= maxLevel
    ensures Towering(InsertAt(nodes, k, n), InsertAt(h, k, newLevel), head, keyLen, maxLevel,
                     if level < newLevel then newLevel else level)
  {
    DistinctInsert(nodes, k, n);
  }

  lemma TowerSizes(nodes: seq<Node>, h: seq<nat>, head: Node, keyLen: nat, maxLevel: nat, level: nat, entries: seq<Entry>)
    requires Towering(nodes, h, head, keyLen, maxLevel, level) && Listed(nodes, entries)
    ensures |nodes| == |h| == |entries| + 1
  {
  }

  lemma ListedInsert(nodes: seq<Node>, entries: seq<Entry>, k: nat, n: Node)
    requires Listed(nodes, entries) && 1 <= k <= |nodes|
    ensures Listed(InsertAt(nodes, k, n), InsertAt(entries, k - 1, EntryOf(n)))
  {
  }

  /** The sorted log after inserting e is the old one with e at its insertion point. */
  lemma SortedInsert(log: seq<Entry>, e: Entry)
    ensures var s := SortLog(log);
            SortLog(log + [e]) == InsertBefore(s, e) == InsertAt(s, FirstNotLess(s, e.rank), e)
  {
    InsertBeforeAt(SortLog(log), e, FirstNotLess(SortLog(log), e.rank));
    assert (log + [e])[..|log|] == log;
  }

  class SkipList {
    const maxLevel: nat
    const keyLen: nat
    const valueLen: nat
    const head: Node
    var level: nat
    var nodeNum: nat

    ghost var nodes: seq<Node>     // the head, then every node in level-0 order
    ghost var heights: seq<nat>    // their tower heights
    ghost var entries: seq<Entry>  // their contents, without the head
    ghost var log: seq<Entry>      // the insertions made, oldest first
    ghost var Repr: set<object>

    ghost predicate Valid()
      reads this, Repr
      ensures Valid() ==> this in Repr
    {
      && this in Repr
      && Core()
      && entries == SortLog(log)
    }

    ghost predicate Core()
      reads this, Repr
    {
      && Shape()
      && Linked()
      && Listed(nodes, entries)
      && Sorted(entries)
    }

    ghost predicate Shape()
      reads this
    {
      && KnownLength(keyLen) && 1 <= maxLevel
      && |nodes| == nodeNum + 1
      && Towering(nodes, heights, head, keyLen, maxLevel, level)
      && (forall i :: 0 <= i < |nodes| ==> nodes[i] in Repr)
    }

    ghost predicate Linked()
      reads this, Repr
      requires Shape()
    {
      LinkedSeq(nodes, heights)
    }

    constructor (maxLevel: nat, keyLen: nat, valueLen: nat)
      requires 1 <= maxLevel && KnownLength(keyLen)
      ensures Valid() && fresh(Repr)
      ensures this.maxLevel == maxLevel && this.keyLen == keyLen && this.valueLen == valueLen
      ensures level == 0 && nodeNum == 0 && log == []
    {
      this.maxLevel := maxLevel;
      this.keyLen := keyLen;
      this.valueLen := valueLen;
      level, nodeNum := 0, 0;
      var h := new Node(seq(keyLen, _ => 0), 0, maxLevel);
      head := h;
      nodes, heights, entries, log := [h], [maxLevel], [], [];
      Repr := {this, h};
    }

    // ----- what the levels look like

    /** Following next[l] from position i visits the positions of Chain(heights, i, l), then null. */
    ghost predicate Walks(c: seq<nat>, i: nat, l: nat)
      reads this, nodes
    {
      if c == [] then i < |nodes| && l < |nodes[i].next| && nodes[i].next[l] == null
      else c[0] < |nodes| && i < |nodes| && l < |nodes[i].next| && nodes[i].next[l] == nodes[c[0]] && Walks(c[1..], c[0], l)
    }

    lemma {:induction false} LevelWalk(i: nat, l: nat)
      requires Core() && i < |nodes| && l < heights[i]
      ensures Walks(Chain(heights, i, l), i, l)
      decreases |nodes| - i
    {
      assert RowLinked(nodes[i].next, nodes, heights, i);
      var j := NextTall(heights, i + 1, l);
      if j < |nodes| {
        LevelWalk(j, l);
        assert Chain(heights, i, l)[1..] == Chain(heights, j, l);
      }
    }

    /** A node of height h is on exactly the levels 0 .. h - 1. */
    lemma LevelMembers(l: nat, x: nat)
      requires Core()
      ensures x in Chain(heights, 0, l) <==> 0 < x < |nodes| && |nodes[x].next| > l
    {
      hide Rank;
      ChainMembers(heights, 0, l, x);
      if x < |nodes| { assert RowLinked(nodes[x].next, nodes, heights, x); }
    }

    /** Node positions are in key order. */
    lemma KeysAscend(x: nat, y: nat)
      requires Core() && 0 < x <= y < |nodes|
      ensures Rank(nodes[x].key) <= Rank(nodes[y].key)
    {
      hide Rank;
      SortedAt(entries, x - 1, y - 1);
    }

    /** No node reaches a level at or above `level`. */
    lemma EmptyAbove(l: nat)
      requires Core() && l >= level
      ensures Chain(heights, 0, l) == []
    {
      NextTallUnique(heights, 1, l, |heights|);
    }

    /** Each level is a walk from the head over increasing positions, hence acyclic and sorted by key; the
        bottom level holds all nodeNum nodes; each level above is the subsequence of taller nodes. */
    lemma LevelMeaning(l: nat)
      requires Valid() && l < maxLevel
      ensures var c := Chain(heights, 0, l);
              && Walks(c, 0, l)
              && (forall a, b :: 0 <= a < b < |c| ==> c[a] < c[b])
              && (l == 0 ==> |c| == nodeNum)
              && Chain(heights, 0, l + 1) == Taller(c, heights, l + 1)
              && (l >= level ==> c == [])
    {
      hide Rank, SortLog;
      LevelWalk(0, l);
      ChainIncreases(heights, 0, l);
      UpperLevelIsSubsequence(heights, 0, l);
      BottomLevelLength(heights, 0);
      if l >= level { EmptyAbove(l); }
    }

    /** Any level from 1 to maxLevel, by coin tosses. */
    method RandomLevel() returns (lvl: nat)
      requires 1 <= maxLevel
      ensures 1 <= lvl <= maxLevel
    {
      lvl := 1;
      var heads: bool := *;
      while heads && lvl < maxLevel
        invariant 1 <= lvl <= maxLevel
      {
        lvl := lvl + 1;
        heads := *;
      }
    }

    method CompareNodeKey(node: Node, key: seq<Byte>, ghost rank: nat) returns (c: int)
      requires |node.key| == |key| && KnownLength(|key|)
      requires node.rank == Rank(node.key) && rank == Rank(key)
      ensures c < 0 <==> node.rank < rank
      ensures c > 0 <==> node.rank > rank
    {
      CompareIsRankOrder(node.key, key);
      c := CompareKeys(node.key, key);
    }

    /** The descent shared by insertion and search: from level top - 1 down, stop on each level
        at the last tower whose key is smaller than the wanted one. */
    method Descend(key: seq<Byte>, top: nat, ghost rank: nat, ghost k: nat)
      returns (curr: Node, update: seq<Node?>, ghost pos: seq<nat>)
      requires Core() && |key| == keyLen && rank == Rank(key) && level <= top <= maxLevel
      requires Separates(nodes, rank, k)
      ensures curr == nodes[k - 1]
      ensures |update| == |pos| == maxLevel
      ensures forall l :: 0 <= l < top ==> IsPredecessor(heights, k, l, pos[l]) && update[l] == nodes[pos[l]]
    {
      curr := head;
      ghost var p := 0;
      update := seq(maxLevel, _ => null);
      pos := seq(maxLevel, _ => 0);
      for i := top downto 0
        invariant |update| == |pos| == maxLevel
        invariant 0 <= p < k && curr == nodes[p]
        invariant if i == top then p == 0 else IsPredecessor(heights, k, i, p)
        invariant forall l :: i <= l < top ==> IsPredecessor(heights, k, l, pos[l]) && update[l] == nodes[pos[l]]
      {
        curr, p := Advance(key, curr, i, rank, k, p);
        update := update[i := curr];
        pos := pos[i := p];
      }
      if top > 0 && p + 1 < |nodes| {
        NextTallUnique(heights, p + 1, 0, p + 1);
      }
    }

    /** Walk along level i while the next key is smaller. */
    method Advance(key: seq<Byte>, start: Node, i: nat, ghost rank: nat, ghost k: nat, ghost at: nat)
      returns (curr: Node, ghost p: nat)
      requires Core() && |key| == keyLen && rank == Rank(key)
      requires Separates(nodes, rank, k)
      requires at < k && start == nodes[at] && heights[at] > i
      ensures IsPredecessor(heights, k, i, p) && curr == nodes[p]
    {
      curr, p := start, at;
      while true
        invariant p < k && curr == nodes[p] && heights[p] > i
        decreases |nodes| - p
      {
        ghost var q := NextTall(heights, p + 1, i);
        var n := curr.next[i];
        if n == null {
          return;
        }
        var c := CompareNodeKey(n, key, rank);
        if c >= 0 {
          return;
        }
        curr, p := n, q;
      }
    }

    /** The relinking loop: on each level the new node takes over its predecessor's pointer. */
    static method Relink(ghost nodes: seq<Node>, n: Node, newLevel: nat, update: seq<Node?>, ghost pos: seq<nat>)
      requires n !in nodes && Distinct(nodes)
      requires |n.next| == newLevel <= |update| && newLevel <= |pos|
      requires forall l :: 0 <= l < newLevel ==> pos[l] < |nodes| && update[l] == nodes[pos[l]] && l < |nodes[pos[l]].next|
      modifies nodes, n
      ensures |n.next| == newLevel && forall l :: 0 <= l < newLevel ==> n.next[l] == old(nodes[pos[l]].next[l])
      ensures forall i :: 0 <= i < |nodes| ==> RowRelinked(old(nodes[i].next), nodes[i].next, n, newLevel, pos, i)
    {
      DistinctPairs(nodes);
      for l := 0 to newLevel
        invariant |n.next| == newLevel && forall m :: 0 <= m < l ==> n.next[m] == old(nodes[pos[m]].next[m])
        invariant forall i :: 0 <= i < |nodes| ==> RowRelinked(old(nodes[i].next), nodes[i].next, n, l, pos, i)
      {
        n.next := n.next[l := update[l].next[l]];
        update[l].next := update[l].next[l := n];
      }
    }

    /** Relink levels 0 .. newLevel - 1 around node n, which goes to position k. */
    static method Splice(ghost nodes: seq<Node>, ghost h: seq<nat>, n: Node, newLevel: nat, update: seq<Node?>,
                         ghost pos: seq<nat>, ghost k: nat)
      requires |nodes| == |h| && LinkedSeq(nodes, h)
      requires n !in nodes && Distinct(nodes)
      requires |n.next| == newLevel <= |update| && newLevel <= |pos| && 1 <= k <= |nodes|
      requires forall l :: 0 <= l < newLevel ==> IsPredecessor(h, k, l, pos[l]) && update[l] == nodes[pos[l]]
      modifies nodes, n
      ensures LinkedSeq(InsertAt(nodes, k, n), InsertAt(h, k, newLevel))
    {
      ghost var before := NextTable(nodes);
      Relink(nodes, n, newLevel, update, pos);
      ghost var after := NextTable(nodes);
      RelinkedTable(nodes, h, k, n, newLevel, pos, before, n.next, after);
      forall i | 0 <= i <= |nodes|
        ensures InsertAt(nodes, k, n)[i].next == InsertAt(after, k, n.next)[i]
      {
      }
    }

    /** `insert`: a key of the wrong length is ignored, a list already over maxNode nodes refuses. */
    method Insert(key: seq<Byte>, value: U64, maxNode: nat) returns (ok: bool)
      requires Valid()
      modifies Repr
      ensures Valid() && fresh(Repr - old(Repr))
      ensures ok <==> |key| != keyLen || old(nodeNum) <= maxNode
      ensures if |key| == keyLen && ok
              then entries == InsertBefore(old(entries), MakeEntry(key, value)) && log == old(log) + [MakeEntry(key, value)]
              else entries == old(entries) && log == old(log)
    {
      if |key| != keyLen {
        return true;
      }
      if nodeNum > maxNode {
        return false;
      }
      InsertNode(key, value, MakeEntry(key, value));
      ok := true;
    }

    method InsertNode(key: seq<Byte>, value: U64, ghost e: Entry)
      requires Valid() && |key| == keyLen && e == Entry(e.rank, key, value) && e.rank == Rank(key)
      modifies Repr
      ensures Valid() && fresh(Repr - old(Repr))
      ensures entries == InsertBefore(old(entries), e)
      ensures log == old(log) + [e]
    {
      ghost var k := 1 + FirstNotLess(entries, e.rank);
      SortLogSorted(log);
      SeparatesFirst(nodes, entries, e.rank);
      var n, newLevel := Place(key, value, e.rank, k);
      SortedInsert(log, e);
      ListedInsert(nodes, entries, k, n);
      Adopt(n, newLevel, k, e);
    }

    /** Make a node of random height and link it in at position k. */
    method Place(key: seq<Byte>, value: U64, ghost rank: nat, ghost k: nat) returns (n: Node, newLevel: nat)
      requires Valid() && |key| == keyLen && rank == Rank(key) && Separates(nodes, rank, k)
      modifies nodes
      ensures fresh(n) && n.key == key && n.value == value && n.rank == rank
      ensures 1 <= newLevel <= maxLevel
      ensures LinkedSeq(InsertAt(nodes, k, n), InsertAt(heights, k, newLevel))
    {
      newLevel := RandomLevel();
      n := new Node(key, value, newLevel);
      var top := if level > newLevel then level else newLevel;
      var curr, update, pos := Descend(key, top, rank, k);
      Splice(nodes, heights, n, newLevel, update, pos, k);
    }

    /** Account for a spliced node: it is now part of the list. */
    method Adopt(n: Node, newLevel: nat, ghost k: nat, ghost e: Entry)
      requires Shape() && this in Repr && 1 <= k <= |nodes| && Listed(nodes, entries)
      requires n !in nodes && |n.key| == keyLen && n.rank == Rank(n.key)
      requires 1 <= newLevel <= maxLevel
      requires LinkedSeq(InsertAt(nodes, k, n), InsertAt(heights, k, newLevel))
      requires Listed(InsertAt(nodes, k, n), InsertAt(entries, k - 1, e))
      requires InsertAt(entries, k - 1, e) == SortLog(log + [e])
      modifies this
      ensures Valid() && log == old(log) + [e]
      ensures entries == InsertAt(old(entries), k - 1, e)
      ensures nodes == InsertAt(old(nodes), k, n) && Repr == old(Repr) + {n} && nodeNum == old(nodeNum) + 1
    {
      hide LinkedSeq, SortLog, Rank, Sorted, Distinct, Towering, Listed;
      TowerSizes(nodes, heights, head, keyLen, maxLevel, level, entries);
      ToweringInsert(nodes, heights, head, keyLen, maxLevel, level, k, n, newLevel);
      SortLogSorted(log + [e]);
      nodes := InsertAt(nodes, k, n);
      heights := InsertAt(heights, k, newLevel);
      Repr := Repr + {n};
      entries := InsertAt(entries, k - 1, e);
      log := log + [e];
      nodeNum := nodeNum + 1;
      if level < newLevel {
        level := newLevel;
      }
    }

    /** The bottom level visits every node. */
    lemma BottomNext(p: nat)
      requires Shape() && Linked() && p < |nodes|
      ensures |nodes[p].next| > 0
      ensures nodes[p].next[0] == if p + 1 < |nodes| then nodes[p + 1] else null
    {
      assert RowLinked(nodes[p].next, nodes, heights, p);
      if p > 0 { assert heights[p] >= 1; }
      NextTallUnique(heights, p + 1, 0, p + 1);
    }

    /** node is the one at position q, or null past the end. */
    ghost predicate At(node: Node?, q: nat)
      reads this
    {
      1 <= q <= |nodes| && node == if q < |nodes| then nodes[q] else null
    }

    lemma Sizes()
      requires Core()
      ensures |nodes| == |entries| + 1 == nodeNum + 1 && nodes[0] == head && KnownLength(keyLen)
    {
    }

    lemma NodesCounted()
      requires Valid()
      ensures nodeNum == |SortLog(log)|
    {
    }

    lemma EntryAt(node: Node, q: nat)
      requires Shape() && Listed(nodes, entries) && At(node, q)
      ensures entries[q - 1] == EntryOf(node)
      ensures |node.key| == keyLen && KnownLength(keyLen) && node.rank == Rank(node.key)
    {
    }

    /** The first node whose key is not smaller than the wanted one. */
    method Seek(key: seq<Byte>, ghost rank: nat) returns (node: Node?, ghost q: nat)
      requires Core() && |key| == keyLen && rank == Rank(key)
      ensures At(node, q)
      ensures forall i :: 0 <= i < q - 1 ==> entries[i].rank < rank
      ensures forall i :: q - 1 <= i < |entries| ==> entries[i].rank >= rank
    {
      q := 1 + FirstNotLess(entries, rank);
      SeparatesFirst(nodes, entries, rank);
      var curr, _, _ := Descend(key, level, rank, q);
      BottomNext(q - 1);
      node := curr.next[0];
    }

    /** `findByKey`: the values under a key, newest first, truncated to 32 bits. */
    method FindByKey(key: seq<Byte>) returns (res: seq<U32>)
      requires Valid()
      ensures res == if |key| == keyLen then Low32(Reverse(Matching(log, Rank(key)))) else []
    {
      hide Rank, Shape, Linked, Listed, Sorted, Matching, Between, AnswerUpTo, Low32, Reverse, SortLog, Core;
      if |key| != keyLen {
        return [];
      }
      ghost var rank := Rank(key);
      SortLogMatching(log, rank);
      BetweenOne(entries, rank);
      AnswerAll(entries, rank, rank + 1);
      res := ScanKey(key, rank);
    }

    method ScanKey(key: seq<Byte>, ghost rank: nat) returns (res: seq<U32>)
      requires Core() && |key| == keyLen && rank == Rank(key)
      ensures res == AnswerUpTo(entries, rank, rank + 1, |entries|)
    {
      hide Rank, CompareKeys, Sorted, Shape, Linked, Listed;
      Sizes();
      var node, q := Seek(key, rank);
      AnswerNothingYet(entries, rank, rank + 1, q - 1);
      res := [];
      while node != null
        invariant At(node, q)
        invariant forall i :: q - 1 <= i < |entries| ==> entries[i].rank >= rank
        invariant res == AnswerUpTo(entries, rank, rank + 1, q - 1)
        decreases |nodes| - q
      {
        EntryAt(node, q);
        BottomNext(q);
        CompareIsRankOrder(node.key, key);
        var c := CompareKeys(node.key, key);
        if c > 0 {
          break;
        }
        if c == 0 {
          res := res + [node.value % 0x1_0000_0000];
        }
        node := node.next[0];
        q := q + 1;
      }
      AnswerComplete(entries, rank, rank + 1, q - 1);
    }

    /** `findByRange`: the values of all keys in [begin, end), by key and newest first within a key. */
    method FindByRange(begin: seq<Byte>, end: seq<Byte>) returns (res: seq<U32>)
      requires Valid()
      ensures res == if |begin| == keyLen && |end| == keyLen
                     then Low32(Between(SortLog(log), Rank(begin), Rank(end))) else []
    {
      if |begin| != keyLen || |end| != keyLen {
        return [];
      }
      hide Rank, Shape, Linked, Listed, Sorted, Between, AnswerUpTo, Low32, SortLog, Core;
      AnswerAll(entries, Rank(begin), Rank(end));
      res := ScanRange(begin, end, Rank(begin), Rank(end));
    }

    method ScanRange(begin: seq<Byte>, end: seq<Byte>, ghost lo: nat, ghost hi: nat) returns (res: seq<U32>)
      requires Core() && |begin| == |end| == keyLen && lo == Rank(begin) && hi == Rank(end)
      ensures res == AnswerUpTo(entries, lo, hi, |entries|)
    {
      hide Rank, CompareKeys, Sorted, Shape, Linked, Listed;
      Sizes();
      var node, q := Seek(begin, lo);
      AnswerNothingYet(entries, lo, hi, q - 1);
      res := [];
      while node != null
        invariant At(node, q)
        invariant forall i :: q - 1 <= i < |entries| ==> entries[i].rank >= lo
        invariant res == AnswerUpTo(entries, lo, hi, q - 1)
        decreases |nodes| - q
      {
        EntryAt(node, q);
        BottomNext(q);
        CompareIsRankOrder(node.key, begin);
        CompareIsRankOrder(node.key, end);
        var fromBegin := CompareKeys(node.key, begin);
        if fromBegin >= 0 && CompareKeys(node.key, end) >= 0 {
          break;
        }
        if fromBegin >= 0 {
          res := res + [node.value % 0x1_0000_0000];
        }
        node := node.next[0];
        q := q + 1;
      }
      AnswerComplete(entries, lo, hi, q - 1);
    }

    /** `outputToChar`: every key followed by its value, in key order. */
    method OutputToChar() returns (data: seq<Byte>)
      requires Valid() && valueLen <= 8
      ensures data == Flat(SortLog(log), valueLen)
    {
      hide Core, Flat, FlatUpTo, SortLog;
      FlatWritten(entries, valueLen);
      data := WriteFlat();
    }

    method WriteFlat() returns (data: seq<Byte>)
      requires Core()
      ensures data == FlatUpTo(entries, valueLen, |entries|)
    {
      hide Rank, Enc, FlatSize, Sorted, Shape, Linked, Listed;
      Sizes();
      data := seq(FlatSize(nodeNum, keyLen, valueLen), _ => 0);
      var offset: nat := 0;
      ghost var q := 1;
      BottomNext(0);
      var node := head.next[0];
      while node != null
        invariant At(node, q)
        invariant |data| == FlatSize(nodeNum, keyLen, valueLen)
        invariant offset <= |data| && data[..offset] == FlatUpTo(entries, valueLen, q - 1)
        decreases |nodes| - q
      {
        RowWritten(data, offset, node, q);
        data := PutBytes(data, offset, node.key);
        data := PutBytes(data, offset + keyLen, Enc(node.value, valueLen));
        offset := offset + keyLen + valueLen;
        BottomNext(q);
        node := node.next[0];
        q := q + 1;
      }
      FlatFilled();
    }

    lemma FlatFilled()
      requires Shape() && Listed(nodes, entries)
      ensures |FlatUpTo(entries, valueLen, |entries|)| == FlatSize(nodeNum, keyLen, valueLen)
    {
      KeysFit();
      FlatUpToLength(entries, keyLen, valueLen, |entries|);
    }

    lemma RowWritten(data: seq<Byte>, offset: nat, node: Node, q: nat)
      requires Shape() && Listed(nodes, entries) && At(node, q)
      requires |data| == FlatSize(nodeNum, keyLen, valueLen)
      requires offset <= |data| && data[..offset] == FlatUpTo(entries, valueLen, q - 1)
      ensures offset + keyLen + valueLen <= |data| && |node.key| == keyLen
      ensures var data' := PutBytes(PutBytes(data, offset, node.key), offset + keyLen, Enc(node.value, valueLen));
              data'[..offset + keyLen + valueLen] == FlatUpTo(entries, valueLen, q)
    {
      EntryAt(node, q);
      KeysFit();
      FlatUpToLength(entries, keyLen, valueLen, q - 1);
      RowFits(q, nodeNum, keyLen + valueLen);
      var data' := PutBytes(PutBytes(data, offset, node.key), offset + keyLen, Enc(node.value, valueLen));
      assert data'[..offset + keyLen + valueLen] == data[..offset] + node.key + Enc(node.value, valueLen);
    }

    lemma KeysFit()
      requires Shape() && Listed(nodes, entries)
      ensures forall e :: e in entries ==> |e.key| == keyLen
    {
    }

    /** `outputToCharCompact`: node count, directory, values. The write position wraps at 32 bits. */
    method OutputToCharCompact() returns (data: seq<Byte>)
      requires Valid() && valueLen <= 8
      ensures data == Emitted(SortLog(log), valueLen)
      ensures Fits(nodeNum, valueLen) ==> data == Compact(SortLog(log), valueLen)
    {
      hide Core, Directory, DirectoryUpTo, ValueBytes, SortLog, Enc, Fits, Written;
      NodesCounted();
      DirectoryWritten(entries);
      var directory, values := WriteCompact();
      data := Enc(nodeNum, 8) + directory + values;
      if Fits(nodeNum, valueLen) {
        WrittenFits(entries, valueLen);
      }
    }

    method WriteCompact() returns (directory: seq<Byte>, values: seq<Byte>)
      requires Core()
      ensures directory == DirectoryUpTo(entries, |entries|) && values == Written(entries, valueLen, |entries|)
    {
      hide Rank, Enc, ValueSize, WriteAt, Sorted, Written, Shape, Linked, Listed, DirectoryUpTo, LastKey, PutBytes;
      Sizes();
      NothingWritten(entries, valueLen);
      values := seq(ValueSize(nodeNum, valueLen), _ => 0);
      WrittenStart(entries, valueLen);
      directory := [];
      var offset: U32 := 0;
      var lastKey: seq<Byte> := [];
      ghost var q := 1;
      BottomNext(0);
      var node := head.next[0];
      while node != null
        invariant At(node, q)
        invariant offset == (q - 1) % 0x1_0000_0000 && lastKey == LastKey(entries, q - 1)
        invariant directory == DirectoryUpTo(entries, q - 1) && values == Written(entries, valueLen, q - 1)
        decreases |nodes| - q
      {
        EntryAt(node, q);
        WrittenStep(entries, valueLen, q);
        DirectoryStep(entries, q);
        OffsetWraps(q - 1);
        if lastKey != node.key {
          directory := directory + node.key + Enc(offset, 4);
          lastKey := node.key;
        }
        values := PutBytes(values, WriteAt(offset, valueLen), Enc(node.value, valueLen));
        offset := (offset + 1) % 0x1_0000_0000;
        BottomNext(q);
        node := node.next[0];
        q := q + 1;
      }
    }
  }

  function FlatSize(n: nat, keyLen: nat, valueLen: nat): nat {
    n * (keyLen + valueLen)
  }

  function ValueSize(n: nat, valueLen: nat): nat {
    n * valueLen
  }

  /** The last value starts below 2^32. */
  predicate Fits(n: nat, valueLen: nat) {
    n == 0 || ValueSize(n - 1, valueLen) < 0x1_0000_0000
  }

  /** Position of a value, computed in 32 bits. */
  function WriteAt(offset: U32, valueLen: nat): nat {
    (offset * valueLen) % 0x1_0000_0000
  }

  lemma RowFits(q: nat, n: nat, w: nat)
    requires 1 <= q <= n
    ensures (q - 1) * w + w <= n * w
  {
    MulStep(q, w);
    assert (n - q) * w == n * w - q * w;
  }

  /** `memcpy` into a byte buffer. */
  function PutBytes(buffer: seq<Byte>, offset: nat, data: seq<Byte>): (r: seq<Byte>)
    requires offset + |data| <= |buffer|
    ensures |r| == |buffer|
  {
    buffer[..offset] + data + buffer[offset + |data|..]
  }

  /** Every write stays inside the value array. */
  lemma WriteInside(i: nat, valueLen: nat, n: nat)
    requires i < n
    ensures WriteAt(i % 0x1_0000_0000, valueLen) + valueLen <= ValueSize(n, valueLen)
  {
    RowFits(i + 1, n, valueLen);
    MulMono(i % 0x1_0000_0000, i, valueLen);
    WriteAtBounds(i % 0x1_0000_0000, valueLen);
  }

  lemma WriteAtBounds(offset: U32, valueLen: nat)
    ensures WriteAt(offset, valueLen) <= offset * valueLen
    ensures offset * valueLen < 0x1_0000_0000 ==> WriteAt(offset, valueLen) == offset * valueLen
  {
  }

  /** The 32-bit write positions are the true ones for all n values exactly when the last value starts below 2^32. */
  lemma WritePosition(n: nat, valueLen: nat)
    ensures (forall i :: 0 <= i < n ==> WriteAt(i % 0x1_0000_0000, valueLen) == i * valueLen) <==> Fits(n, valueLen)
  {
    if Fits(n, valueLen) {
      forall i | 0 <= i < n
        ensures WriteAt(i % 0x1_0000_0000, valueLen) == i * valueLen
      {
        TruePosition(i, n, valueLen);
      }
    } else {
      assert WriteAt((n - 1) % 0x1_0000_0000, valueLen) < 0x1_0000_0000;
    }
  }

  lemma TruePosition(i: nat, n: nat, valueLen: nat)
    requires i < n && Fits(n, valueLen)
    ensures WriteAt(i % 0x1_0000_0000, valueLen) == i * valueLen
    ensures valueLen > 0 ==> i < 0x1_0000_0000
  {
    MulMono(i, n - 1, valueLen);
    if valueLen > 0 {
      MulMono(1, valueLen, i);
      WriteAtBounds(i, valueLen);
    }
  }

  // ----- the value array when positions wrap

  /** The value array after the first i writes. */
  function Written(s: seq<Entry>, valueLen: nat, i: nat): (r: seq<Byte>)
    requires i <= |s|
    ensures |r| == ValueSize(|s|, valueLen)
  {
    if i == 0 then seq(ValueSize(|s|, valueLen), _ => 0)
    else
      WriteInside(i - 1, valueLen, |s|);
      PutBytes(Written(s, valueLen, i - 1), WriteAt((i - 1) % 0x1_0000_0000, valueLen), Enc(s[i - 1].value, valueLen))
  }

  /** What `outputToCharCompact` returns for the entries s, however many there are. */
  function Emitted(s: seq<Entry>, valueLen: nat): seq<Byte> {
    Enc(|s|, 8) + Directory(s, [], 0) + Written(s, valueLen, |s|)
  }

  lemma WrittenStart(s: seq<Entry>, valueLen: nat)
    ensures Written(s, valueLen, 0) == seq(ValueSize(|s|, valueLen), _ => 0)
  {
  }

  lemma WrittenStep(s: seq<Entry>, valueLen: nat, q: nat)
    requires 0 < q <= |s|
    ensures var at := WriteAt((q - 1) % 0x1_0000_0000, valueLen);
            && at + valueLen <= |Written(s, valueLen, q - 1)|
            && Written(s, valueLen, q) == PutBytes(Written(s, valueLen, q - 1), at, Enc(s[q - 1].value, valueLen))
  {
    hide Enc, WriteAt, ValueSize;
    WriteInside(q - 1, valueLen, |s|);
  }

  /** The offset in a directory record is the low 32 bits of the position, also when the counter wrapped. */
  lemma OffsetWraps(i: nat)
    ensures Enc(i % 0x1_0000_0000, 4) == Enc(i, 4)
  {
    hide Enc, LE;
    Pow2Constants();
    DecodeEncode(i, 4);
    DecodeEncode(i % 0x1_0000_0000, 4);
    LEInjective(Enc(i % 0x1_0000_0000, 4), Enc(i, 4));
  }

  lemma {:induction false} WrittenPrefix(s: seq<Entry>, valueLen: nat, i: nat)
    requires i <= |s| && Fits(|s|, valueLen)
    ensures ValuesUpTo(s, valueLen, i) <= Written(s, valueLen, i)
  {
    hide Enc, WriteAt, Fits;
    if i > 0 {
      WrittenPrefix(s, valueLen, i - 1);
      WrittenStep(s, valueLen, i);
      TruePosition(i - 1, |s|, valueLen);
      PutBehind(Written(s, valueLen, i - 1), ValuesUpTo(s, valueLen, i - 1), Enc(s[i - 1].value, valueLen));
    }
  }

  lemma PutBehind(buffer: seq<Byte>, done: seq<Byte>, next: seq<Byte>)
    requires done <= buffer && |done| + |next| <= |buffer|
    ensures done + next <= PutBytes(buffer, |done|, next)
  {
  }

  lemma WrittenFits(s: seq<Entry>, valueLen: nat)
    requires Fits(|s|, valueLen)
    ensures Written(s, valueLen, |s|) == ValueBytes(s, valueLen)
  {
    WrittenPrefix(s, valueLen, |s|);
    ValuesWritten(s, valueLen);
  }

  /** When the last value starts at 2^32 or later, no write ever reaches its last byte. */
  lemma {:induction false} LastByteUnwritten(s: seq<Entry>, valueLen: nat, i: nat)
    requires i <= |s| && !Fits(|s|, valueLen)
    ensures ValueSize(|s|, valueLen) > 0 && Written(s, valueLen, i)[ValueSize(|s|, valueLen) - 1] == 0
  {
    MulStep(|s|, valueLen);
    if i > 0 {
      LastByteUnwritten(s, valueLen, i - 1);
      WrittenStep(s, valueLen, i);
      assert WriteAt((i - 1) % 0x1_0000_0000, valueLen) < 0x1_0000_0000;
    }
  }

  lemma {:induction false} TopByte(m: nat, n: nat)
    requires 0 < n <= m
    ensures Enc(Pow2(8 * m) - 1, n)[n - 1] == 255
  {
    Pow2Step8(m);
    var v := Pow2(8 * m) - 1;
    DivUnique(v, 256, Pow2(8 * (m - 1)) - 1, 255);
    if n > 1 {
      TopByte(m - 1, n - 1);
    }
  }

  /** The returned bytes are the compact form for every list of n entries, exactly when the last value starts below 2^32:
      beyond that the last value of any list loses its top byte. */
  lemma EmittedIff(n: nat, valueLen: nat)
    requires valueLen <= 8
    ensures (forall s: seq<Entry> :: |s| == n ==> Emitted(s, valueLen) == Compact(s, valueLen)) <==> Fits(n, valueLen)
    ensures !Fits(n, valueLen) ==>
              forall s: seq<Entry> :: |s| == n && Enc(s[n - 1].value, valueLen)[valueLen - 1] != 0 ==>
                Emitted(s, valueLen) != Compact(s, valueLen)
  {
    hide Enc, Written, ValueBytes, Directory, Fits;
    if Fits(n, valueLen) {
      forall s: seq<Entry> | |s| == n
        ensures Emitted(s, valueLen) == Compact(s, valueLen)
      {
        WrittenFits(s, valueLen);
      }
    } else {
      UnfitSize(n, valueLen);
      forall s: seq<Entry> | |s| == n && Enc(s[n - 1].value, valueLen)[valueLen - 1] != 0
        ensures Emitted(s, valueLen) != Compact(s, valueLen)
      {
        LastValueLost(s, valueLen);
      }
      var worst := seq(n, _ => Entry(0, [], MAX_U64));
      Pow2Constants();
      TopByte(8, valueLen);
      assert |worst| == n && worst[n - 1].value == MAX_U64;
      assert Emitted(worst, valueLen) != Compact(worst, valueLen);
    }
  }

  lemma UnfitSize(n: nat, valueLen: nat)
    requires !Fits(n, valueLen)
    ensures n > 0 && valueLen > 0
  {
  }

  lemma LastValueLost(s: seq<Entry>, valueLen: nat)
    requires !Fits(|s|, valueLen) && s != [] && valueLen > 0
    requires Enc(s[|s| - 1].value, valueLen)[valueLen - 1] != 0
    ensures Emitted(s, valueLen) != Compact(s, valueLen)
  {
    hide Enc, Written, ValueBytes, Directory, Fits;
    var n := |s|;
    LastByteUnwritten(s, valueLen, n);
    ValueAt(s, valueLen, n - 1);
    MulStep(n, valueLen);
    var values, at := ValueBytes(s, valueLen), (n - 1) * valueLen;
    assert values[at..at + valueLen][valueLen - 1] == values[at + valueLen - 1];
    var front := Enc(|s|, 8) + Directory(s, [], 0);
    assert (front + Written(s, valueLen, n))[|front|..] == Written(s, valueLen, n);
    assert (front + values)[|front|..] == values;
  }

  /** While the write positions are true, what is returned is lossless. */
  lemma EmittedLossless(s: seq<Entry>, keyLen: nat, valueLen: nat)
    requires 0 < valueLen && Fits(|s|, valueLen)
    requires forall e :: e in s ==> |e.key| == keyLen > 0
    ensures Expand(Emitted(s, valueLen), keyLen, valueLen) == Pairs(s, valueLen)
  {
    hide Enc, Written, ValueBytes, Directory, Expand, Pairs;
    WrittenFits(s, valueLen);
    if s != [] {
      TruePosition(|s| - 1, |s|, valueLen);
    }
    ExpandCompact(s, keyLen, valueLen);
  }
}
