/** How the check threads share the blocks of the buffer: the starting points of `addCheckThread` and the steps of
    `getBlock` in src/probe/probeLib/dataBlockBuffer.hpp. */
module CheckThreads {
  import opened Bytes
  import opened Wrappers
  import opened BlockWindow
  import opened DataBlockBuffers
  import opened BlockRuns

  /** How often a thread was handed a block. */
  function HandOuts(ops: seq<Op>, thread: nat): nat {
    if ops == [] then 0
    else HandOuts(ops[..|ops| - 1], thread) + if ops[|ops| - 1] == GetBlock(thread) then 1 else 0
  }

  /** The check threads as `addCheckThread` registers them. */
  ghost predicate Registered(g: Geometry, s: State) {
    Shaped(g, s) && |s.checks| <= g.totalBlockNum && forall i :: 0 <= i < |s.checks| ==> s.checks[i] == i
  }

  /** Reducing before a step changes nothing. */
  lemma StepMod(x: nat, n: nat, t: nat)
    requires t > 0
    ensures (x % t + n) % t == (x + n) % t
  {
    assert x == (x / t) * t + x % t;
    var y := x % t + n;
    assert y == (y / t) * t + y % t;
    assert (x / t + y / t) * t == (x / t) * t + (y / t) * t;
    DivUnique(x + n, t, x / t + y / t, y % t);
  }

  lemma CheckStep(g: Geometry, s: State, op: Op, i: nat)
    requires Shaped(g, s) && Enabled(g, s, op) && i < |s.checks|
    ensures |After(g, s, op).checks| == |s.checks| && g.totalBlockNum > 0
    ensures After(g, s, op).checks[i]
         == if op == GetBlock(i) then (s.checks[i] + |s.checks|) % g.totalBlockNum else s.checks[i]
  {
    hide NewStarts, NewEnds, NewCounts, NewBytes, ReachedDisk, Cleared, Recycled;
  }

  lemma {:induction false} CheckAfter(g: Geometry, s: State, ops: seq<Op>, i: nat)
    requires Shaped(g, s) && Run(g, s, ops).Some? && i < |s.checks|
    ensures Shaped(g, Run(g, s, ops).value) && |Run(g, s, ops).value.checks| == |s.checks| && g.totalBlockNum > 0
    ensures Run(g, s, ops).value.checks[i] == (s.checks[i] + HandOuts(ops, i) * |s.checks|) % g.totalBlockNum
  {
    hide Enabled, After, Shaped;
    ShapedChecks(g, s, i);
    if ops == [] {
      DivUnique(s.checks[i], g.totalBlockNum, 0, s.checks[i]);
    } else {
      var n := |ops| - 1;
      CheckAfter(g, s, ops[..n], i);
      AfterShaped(g, Run(g, s, ops[..n]).value, ops[n]);
      CheckStep(g, Run(g, s, ops[..n]).value, ops[n], i);
      OneStepOn(s.checks[i], HandOuts(ops[..n], i), |s.checks|, g.totalBlockNum);
    }
  }

  lemma OneStepOn(start: nat, k: nat, n: nat, t: nat)
    requires t > 0
    ensures ((start + k * n) % t + n) % t == (start + (k + 1) * n) % t
  {
    var m, m' := k * n, (k + 1) * n;
    assert m' == m + n by { MulStep(k + 1, n); }
    StepMod(start + m, n, t);
  }

  /** After k hand-outs, among any other operations, the thread that started at block b is at block b + k * n, counted
      round the buffer, where n is the number of check threads. */
  lemma NextBlockOf(g: Geometry, s: State, ops: seq<Op>, i: nat)
    requires Shaped(g, s) && Run(g, s, ops).Some? && i < |s.checks|
    ensures Shaped(g, Run(g, s, ops).value) && |Run(g, s, ops).value.checks| == |s.checks| && g.totalBlockNum > 0
    ensures HandedOut(g, Run(g, s, ops).value, i).blockId
         == (s.checks[i] + HandOuts(ops, i) * |s.checks|) % g.totalBlockNum
  {
    hide Run, HandOuts, PacketSum;
    CheckAfter(g, s, ops, i);
  }

  lemma ShapedChecks(g: Geometry, s: State, i: nat)
    requires Shaped(g, s) && i < |s.checks|
    ensures s.checks[i] < g.totalBlockNum
  {
  }

  /** Thread i can come to hand out block b. */
  ghost predicate Reaches(g: Geometry, s: State, i: nat, b: nat)
    requires Shaped(g, s) && i < |s.checks|
  {
    exists ops: seq<Op> :: Run(g, s, ops).Some? && HandsNext(g, Run(g, s, ops).value, i, b)
  }

  ghost predicate HandsNext(g: Geometry, s: State, i: nat, b: nat) {
    Shaped(g, s) && i < |s.checks| && HandedOut(g, s, i).blockId == b
  }

  /** k hand-outs by one thread and nothing else. */
  function Only(i: nat, k: nat): (ops: seq<Op>)
    ensures HandOuts(ops, i) == k
  {
    if k == 0 then [] else
      assert (Only(i, k - 1) + [GetBlock(i)])[..|Only(i, k - 1)|] == Only(i, k - 1);
      Only(i, k - 1) + [GetBlock(i)]
  }

  lemma {:induction false} OnlyRuns(g: Geometry, s: State, i: nat, k: nat)
    requires Shaped(g, s) && i < |s.checks|
    ensures Run(g, s, Only(i, k)).Some? && |Run(g, s, Only(i, k)).value.checks| == |s.checks|
  {
    hide Shaped, After;
    if k > 0 {
      OnlyRuns(g, s, i, k - 1);
      RunShaped(g, s, Only(i, k - 1));
      NextBlockOf(g, s, Only(i, k - 1), i);
      CheckStep(g, Run(g, s, Only(i, k - 1)).value, GetBlock(i), i);
      RunNext(g, s, Only(i, k - 1), GetBlock(i), 0);
    }
  }

  lemma ReachesAfter(g: Geometry, s: State, i: nat, k: nat)
    requires Registered(g, s) && i < |s.checks|
    ensures g.totalBlockNum > 0 && Reaches(g, s, i, (i + k * |s.checks|) % g.totalBlockNum)
  {
    hide Run, PacketSum, HandedOut;
    OnlyRuns(g, s, i, k);
    NextBlockOf(g, s, Only(i, k), i);
    assert HandsNext(g, Run(g, s, Only(i, k)).value, i, (i + k * |s.checks|) % g.totalBlockNum);
  }

  /** Every block is handed out by some thread: block b by thread b mod n, after b / n blocks. */
  lemma EveryBlockReached(g: Geometry, s: State, b: nat)
    requires Registered(g, s) && |s.checks| > 0 && b < g.totalBlockNum
    ensures Reaches(g, s, b % |s.checks|, b)
  {
    hide Registered, Reaches;
    var n := |s.checks|;
    assert b == b % n + (b / n) * n;
    ReachesAfter(g, s, b % n, b / n);
    DivUnique(b, g.totalBlockNum, 0, b);
  }

  lemma Residue(x: nat, n: nat, t: nat)
    requires n > 0 && t > 0 && t % n == 0
    ensures (x % t) % n == x % n
  {
    ModOfMultiple(x, t, n);
  }

  lemma ThreadResidue(i: nat, k: nat, n: nat, t: nat)
    requires i < n && t > 0 && t % n == 0
    ensures ((i + k * n) % t) % n == i
  {
    Residue(i + k * n, n, t);
    DivUnique(i + k * n, n, k, i);
  }

  /** Different check threads never hand out the same block, in any run, exactly when their number divides that of the
      blocks. */
  lemma SharedOutIff(g: Geometry, s: State)
    requires Registered(g, s) && |s.checks| > 0
    ensures (forall i, j, b: nat :: (0 <= i < |s.checks| && 0 <= j < |s.checks|
                                     && Reaches(g, s, i, b) && Reaches(g, s, j, b)) ==> i == j)
       <==> g.totalBlockNum % |s.checks| == 0
  {
    hide Reaches;
    var n, t := |s.checks|, g.totalBlockNum;
    if t % n == 0 {
      forall i, j, b: nat | 0 <= i < n && 0 <= j < n && Reaches(g, s, i, b) && Reaches(g, s, j, b)
        ensures i == j
      {
        ReachedResidue(g, s, i, b);
        ReachedResidue(g, s, j, b);
      }
    } else {
      PastTheEnd(n, t);
      ReachesAfter(g, s, 0, t / n + 1);
      ReachesAfter(g, s, n - t % n, 0);
      DivUnique(n - t % n, t, 0, n - t % n);
    }
  }

  lemma ReachedResidue(g: Geometry, s: State, i: nat, b: nat)
    requires Registered(g, s) && i < |s.checks| && g.totalBlockNum % |s.checks| == 0 && Reaches(g, s, i, b)
    ensures b % |s.checks| == i
  {
    hide Run, HandedOut;
    var ops :| Run(g, s, ops).Some? && HandsNext(g, Run(g, s, ops).value, i, b);
    NextBlockOf(g, s, ops, i);
    ThreadResidue(i, HandOuts(ops, i), |s.checks|, g.totalBlockNum);
  }

  /** The first thread's step past the end of the buffer lands on the start of another thread. */
  lemma PastTheEnd(n: nat, t: nat)
    requires 0 < n <= t && t % n != 0
    ensures 0 < n - t % n < n && (0 + (t / n + 1) * n) % t == n - t % n
  {
    assert t == (t / n) * n + t % n;
    MulStep(t / n + 1, n);
    DivUnique((t / n + 1) * n, t, 1, n - t % n);
  }
}
