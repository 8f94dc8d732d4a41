/** Following flow chains over bytes: what the four bytes at each packet's offset must say for a flow to be found again. */
module DiskChains {
  import opened Bytes
  import opened Buffers
  import F = FlowChains

  /** The link a reader finds at an offset. */
  function Word(d: seq<Byte>, offset: nat): nat {
    LE(Get(d, offset, 4))
  }

  /** The packets met from an offset on, by at most n links, each read from four bytes. */
  function FollowDisk(d: seq<Byte>, offset: nat, diskSize: nat, n: nat): (r: seq<nat>)
    requires diskSize > 0
    ensures r != [] && r[0] == offset
    decreases n
  {
    if Word(d, offset) == F.END || n == 0 then [offset]
    else [offset] + FollowDisk(d, F.Target(offset, Word(d, offset), diskSize), diskSize, n - 1)
  }

  function FollowAllDisk(d: seq<Byte>, heads: seq<nat>, diskSize: nat, n: nat): seq<nat>
    requires diskSize > 0
  {
    if heads == [] then []
    else FollowAllDisk(d, heads[..|heads| - 1], diskSize, n) + FollowDisk(d, heads[|heads| - 1], diskSize, n)
  }

  ghost predicate ReadsRight(d: seq<Byte>, next: map<nat, nat>, o: nat, diskSize: nat)
    requires diskSize > 0
  {
    F.Leads(Word(d, o), o, next, diskSize)
  }

  // ----- one chain

  lemma {:induction false} FollowGood(d: seq<Byte>, next: map<nat, nat>, c: seq<nat>, diskSize: nat, n: nat)
    requires diskSize > 0 && F.IsChain(next, c) && |c| <= n + 1
    requires forall j :: 0 <= j < |c| ==> ReadsRight(d, next, c[j], diskSize)
    ensures FollowDisk(d, c[0], diskSize, n) == c
    decreases |c|
  {
    hide Word, F.Target;
    assert ReadsRight(d, next, c[0], diskSize);
    if |c| > 1 {
      assert forall j :: 0 <= j < |c| - 1 ==> c[1..][j] == c[j + 1];
      FollowGood(d, next, c[1..], diskSize, n - 1);
    }
  }

  /** A chain that is found is read right at each of its packets, the last one included. */
  lemma {:induction false} FollowBack(d: seq<Byte>, next: map<nat, nat>, c: seq<nat>, diskSize: nat, n: nat, j: nat)
    requires diskSize > 0 && F.IsChain(next, c) && |c| <= n && j < |c|
    requires FollowDisk(d, c[0], diskSize, n) == c
    ensures ReadsRight(d, next, c[j], diskSize)
    decreases |c|
  {
    hide Word, F.Target;
    if |c| > 1 {
      assert FollowDisk(d, c[0], diskSize, n)[1..] == c[1..];
      if j > 0 {
        FollowBack(d, next, c[1..], diskSize, n - 1, j - 1);
      }
    }
  }

  // ----- all chains of a flow

  lemma {:induction false} FollowAllGood(d: seq<Byte>, next: map<nat, nat>, heads: seq<nat>, cs: seq<seq<nat>>,
                                         diskSize: nat, n: nat)
    requires diskSize > 0 && F.AllChains(next, cs) && |F.Flatten(cs)| <= n && F.HeadsOf(heads, cs)
    requires forall x :: x in F.Flatten(cs) ==> ReadsRight(d, next, x, diskSize)
    ensures FollowAllDisk(d, heads, diskSize, n) == F.Flatten(cs)
    decreases |cs|
  {
    hide F.IsChain, FollowDisk, ReadsRight;
    if cs != [] {
      FollowAllGood(d, next, heads[..|cs| - 1], cs[..|cs| - 1], diskSize, n);
      FollowGood(d, next, cs[|cs| - 1], diskSize, n);
    }
  }

  lemma {:induction false} NoDupAt(s: seq<nat>, i: nat, j: nat)
    requires F.NoDup(s) && i < j < |s|
    ensures s[i] != s[j]
  {
    if j < |s| - 1 {
      NoDupAt(s[..|s| - 1], i, j);
    } else {
      assert s[..|s| - 1][i] == s[i];
    }
  }

  lemma {:induction false} NoDupFront(a: seq<nat>, b: seq<nat>)
    requires F.NoDup(a + b)
    ensures F.NoDup(a)
    decreases |b|
  {
    if b == [] {
      assert a + b == a;
    } else {
      assert (a + b)[..|a + b| - 1] == a + b[..|b| - 1];
      NoDupFront(a, b[..|b| - 1]);
    }
  }

  /** In distinct offsets a piece that starts with the same offset starts at the same place. */
  lemma SameSplit(a: seq<nat>, f: seq<nat>, b: seq<nat>, c: seq<nat>)
    requires a + f == b + c && f != [] && c != [] && f[0] == c[0] && F.NoDup(b + c)
    ensures a == b && f == c
  {
    assert (a + f)[|a|] == f[0] && (b + c)[|b|] == c[0];
    if |a| < |b| {
      NoDupAt(b + c, |a|, |b|);
    } else if |b| < |a| {
      NoDupAt(b + c, |b|, |a|);
    } else {
      assert a == (a + f)[..|a|] && f == (a + f)[|a|..];
      assert b == (b + c)[..|b|] && c == (b + c)[|b|..];
    }
  }

  /** When the pieces add up to the chains, each piece is its chain. */
  lemma {:induction false} PiecesAreChains(d: seq<Byte>, heads: seq<nat>, cs: seq<seq<nat>>, diskSize: nat, n: nat, k: nat)
    requires diskSize > 0 && F.HeadsOf(heads, cs) && F.NoDup(F.Flatten(cs)) && k < |cs|
    requires FollowAllDisk(d, heads, diskSize, n) == F.Flatten(cs)
    ensures cs[k] != [] && FollowDisk(d, cs[k][0], diskSize, n) == cs[k]
    decreases |cs|
  {
    hide FollowDisk, F.NoDup;
    var m := |cs| - 1;
    var a, b := FollowAllDisk(d, heads[..m], diskSize, n), F.Flatten(cs[..m]);
    SameSplit(a, FollowDisk(d, heads[m], diskSize, n), b, cs[m]);
    if k < m {
      NoDupFront(b, cs[m]);
      PiecesAreChains(d, heads[..m], cs[..m], diskSize, n, k);
    }
  }

  lemma {:induction false} FlattenFind(cs: seq<seq<nat>>, x: nat) returns (k: nat, j: nat)
    requires x in F.Flatten(cs)
    ensures k < |cs| && j < |cs[k]| && cs[k][j] == x
    decreases |cs|
  {
    var m := |cs| - 1;
    if x in cs[m] {
      k := m;
      j :| j < |cs[m]| && cs[m][j] == x;
    } else {
      k, j := FlattenFind(cs[..m], x);
    }
  }

  lemma {:induction false} FlattenLonger(cs: seq<seq<nat>>, k: nat)
    requires k < |cs|
    ensures |cs[k]| <= |F.Flatten(cs)|
    decreases |cs|
  {
    if k < |cs| - 1 {
      FlattenLonger(cs[..|cs| - 1], k);
    }
  }

  // ----- the exact condition

  /** The flow is found: from its indexed packets, in index order, the bytes lead to exactly its packets, in order. */
  ghost predicate GivenBack(d: seq<Byte>, l: F.Limits, ps: seq<F.Packet>, f: F.FlowMetadata, n: nat)
    requires F.Placed(l, ps) && l.diskSize > 0
  {
    FollowAllDisk(d, F.OffsetsOf(F.Run(l, ps).index, f), l.diskSize, n) == F.OffsetsOf(ps, f)
  }

  /** Whatever the disk holds: a flow is found exactly when each of its packets is read right, those with a successor
      leading to it, those without ending the chain. */
  lemma GivenBackIff(d: seq<Byte>, l: F.Limits, ps: seq<F.Packet>, f: F.FlowMetadata, n: nat)
    requires F.Placed(l, ps) && l.diskSize > 0 && |ps| <= n
    ensures GivenBack(d, l, ps, f, n) <==>
            forall i :: 0 <= i < |ps| && ps[i].flow == f ==> ReadsRight(d, F.Run(l, ps).next, ps[i].offset, l.diskSize)
  {
    hide F.Run, F.Chains, F.IsChain, F.Placed, F.AllChains, ReadsRight, FollowAllDisk, FollowDisk, F.NoDup;
    F.AllFlows(l, ps, f);
    F.OffsetsDistinct(l, ps, f);
    F.FewerOffsets(ps, f);
    var s, cs := F.Run(l, ps), F.Chains(l, ps, f);
    var heads := F.OffsetsOf(s.index, f);
    if GivenBack(d, l, ps, f, n) {
      forall i | 0 <= i < |ps| && ps[i].flow == f
        ensures ReadsRight(d, s.next, ps[i].offset, l.diskSize)
      {
        OffsetIn(ps, f, i);
        var k, j := FlattenFind(cs, ps[i].offset);
        PiecesAreChains(d, heads, cs, l.diskSize, n, k);
        FlattenLonger(cs, k);
        ChainOf(s.next, cs, k);
        FollowBack(d, s.next, cs[k], l.diskSize, n, j);
      }
    } else if forall i :: 0 <= i < |ps| && ps[i].flow == f ==> ReadsRight(d, s.next, ps[i].offset, l.diskSize) {
      forall x | x in F.Flatten(cs)
        ensures ReadsRight(d, s.next, x, l.diskSize)
      {
        var i := F.OffsetsMember(ps, f, x);
      }
      FollowAllGood(d, s.next, heads, cs, l.diskSize, n);
    }
  }

  lemma ChainOf(next: map<nat, nat>, cs: seq<seq<nat>>, k: nat)
    requires F.AllChains(next, cs) && k < |cs|
    ensures F.IsChain(next, cs[k])
  {
  }

  lemma {:induction false} OffsetIn(ps: seq<F.Packet>, f: F.FlowMetadata, i: nat)
    requires i < |ps| && ps[i].flow == f
    ensures ps[i].offset in F.OffsetsOf(ps, f)
    decreases |ps|
  {
    if i < |ps| - 1 {
      OffsetIn(ps[..|ps| - 1], f, i);
    }
  }
}
