/** The lock-free ring between threads: src/lib/pipeRing.hpp.
    One producer thread runs put, one consumer thread runs get; every access to a shared
    variable is one atomic step, and the two threads interleave freely. */
module PipeRings {
  import opened Bytes
  import opened Wrappers

  // ----- the permuted slot layout

  ghost predicate IsCapacity(cap: nat) {
    cap >= 8 && IsPowerOfTwo(cap)
  }

  /** `pos & (capacity - 1)` */
  function Masked(i: nat, cap: nat): nat
    requires cap > 0
  {
    BitAnd(i, cap - 1)
  }

  /** `real_pos` of a masked position. */
  function RealPos(pos: nat, cap: nat): nat
    requires cap >= 8
  {
    BitAnd(pos, cap / 8 - 1) * 8 + pos / (cap / 8)
  }

  /** The slot of the i-th item ever put. */
  function Slot(i: nat, cap: nat): nat
    requires cap >= 8
  {
    RealPos(Masked(i, cap), cap)
  }

  lemma MaskIsMod(x: nat, n: nat)
    requires n > 0 && IsPowerOfTwo(n)
    ensures BitAnd(x, n - 1) == x % n
  {
    var k: nat :| n == Pow2(k);
    AndMask(x, k);
  }

  lemma SmallPowers(k: nat)
    requires k < 3
    ensures Pow2(k) <= 4
  {
    if k == 2 { assert Pow2(2) == 2 * Pow2(1); }
  }

  lemma EighthIsPower(cap: nat)
    requires IsCapacity(cap)
    ensures cap == 8 * (cap / 8) && cap / 8 > 0 && IsPowerOfTwo(cap / 8)
  {
    var k: nat :| cap == Pow2(k);
    if k < 3 {
      SmallPowers(k);
    } else {
      Pow2Add(3, k - 3);
      Pow2Constants();
      assert cap / 8 == Pow2(k - 3);
    }
  }

  /** The masked position of a slot, read back. */
  function Unslot(s: nat, cap: nat): nat
    requires cap >= 8
  {
    (s % 8) * (cap / 8) + s / 8
  }

  lemma RealPosForm(pos: nat, cap: nat)
    requires IsCapacity(cap) && pos < cap
    ensures var m := cap / 8; m > 0 && RealPos(pos, cap) == (pos % m) * 8 + pos / m && pos / m < 8
  {
    EighthIsPower(cap);
    MaskIsMod(pos, cap / 8);
    if pos / (cap / 8) >= 8 {
      DivAtLeast(pos, cap / 8, 8);
    }
  }

  lemma SwapDigits(pos: nat, m: nat)
    requires m > 0 && pos / m < 8
    ensures var s := (pos % m) * 8 + pos / m;
            s < 8 * m && (s % 8) * m + s / 8 == pos
  {
    DivUnique((pos % m) * 8 + pos / m, 8, pos % m, pos / m);
  }

  lemma UnslotRealPos(pos: nat, cap: nat)
    requires IsCapacity(cap) && pos < cap
    ensures RealPos(pos, cap) < cap && Unslot(RealPos(pos, cap), cap) == pos
  {
    hide RealPos, IsCapacity;
    EighthIsPower(cap);
    RealPosForm(pos, cap);
    SwapDigits(pos, cap / 8);
  }

  lemma RealPosUnslot(pos: nat, cap: nat)
    requires IsCapacity(cap) && pos < cap
    ensures Unslot(pos, cap) < cap && RealPos(Unslot(pos, cap), cap) == pos
  {
    EighthIsPower(cap);
    var m := cap / 8;
    var q := Unslot(pos, cap);
    MulMono(pos % 8, 7, m);
    DivUnique(q, m, pos % 8, pos / 8);
    RealPosForm(q, cap);
  }

  /** `real_pos` is a bijection on the positions below the capacity, with inverse Unslot. */
  lemma RealPosBijective(pos: nat, cap: nat)
    requires IsCapacity(cap) && pos < cap
    ensures RealPos(pos, cap) < cap && Unslot(RealPos(pos, cap), cap) == pos
    ensures Unslot(pos, cap) < cap && RealPos(Unslot(pos, cap), cap) == pos
  {
    hide RealPos, Unslot, IsCapacity;
    UnslotRealPos(pos, cap);
    RealPosUnslot(pos, cap);
  }

  lemma SlotBound(i: nat, cap: nat)
    requires IsCapacity(cap)
    ensures Masked(i, cap) == i % cap && Slot(i, cap) < cap
  {
    MaskIsMod(i, cap);
    RealPosBijective(i % cap, cap);
  }

  /** Two items less than a lap apart never share a slot. */
  lemma SlotDistinct(i: nat, j: nat, cap: nat)
    requires IsCapacity(cap) && i < j < i + cap
    ensures Slot(i, cap) != Slot(j, cap)
  {
    SlotBound(i, cap);
    SlotBound(j, cap);
    RealPosBijective(i % cap, cap);
    RealPosBijective(j % cap, cap);
    if i % cap == j % cap {
      LapApart(i, j, cap);
    }
  }

  lemma LapApart(i: nat, j: nat, n: nat)
    requires n > 0 && i < j && i % n == j % n
    ensures j >= i + n
  {
    var d := j / n - i / n;
    assert i == (i / n) * n + i % n && j == (j / n) * n + j % n;
    assert j - i == d * n by { assert d * n == (j / n) * n - (i / n) * n; }
    if d <= 0 {
      NonPositiveMultiple(d, n);
    } else {
      MultipleAtLeast(d, n);
    }
  }

  lemma NonPositiveMultiple(d: int, n: nat)
    requires d <= 0
    ensures d * n <= 0
  {
  }

  // ----- atomic steps

  datatype Ring<T> = Ring(capacity: nat, writePos: nat, readPos: nat, slots: seq<Option<T>>)

  /** Where the producer thread is inside put, with its local variables. */
  datatype Producer<T> = Ready | Waiting(item: T, pos: nat) | Storing(item: T, pos: nat) | Publishing(item: T, pos: nat)

  /** Where the consumer thread is inside get. */
  datatype Consumer<T> = Resting | Checking(pos: nat) | Loading(pos: nat) | Advancing(pos: nat, data: Option<T>)

  /** One atomic step of put(x). */
  function PutStep<T>(r: Ring<T>, p: Producer<T>, x: T): (Ring<T>, Producer<T>)
    requires r.capacity >= 8
  {
    match p
    case Ready => (r, Waiting(x, Masked(r.writePos, r.capacity)))
    case Waiting(item, pos) =>
      if r.writePos == r.capacity - 1 + r.readPos then (r, p) else (r, Storing(item, pos))
    case Storing(item, pos) =>
      var slot := RealPos(pos, r.capacity);
      (if slot < |r.slots| then r.(slots := r.slots[slot := Some(item)]) else r, Publishing(item, pos))
    case Publishing(_, _) => (r.(writePos := r.writePos + 1), Ready)
  }

  /** One atomic step of get(). */
  function GetStep<T>(r: Ring<T>, c: Consumer<T>): (Ring<T>, Consumer<T>)
    requires r.capacity >= 8
  {
    match c
    case Resting => (r, Checking(Masked(r.readPos, r.capacity)))
    case Checking(pos) => (r, if r.writePos == r.readPos then Resting else Loading(pos))
    case Loading(pos) =>
      var slot := RealPos(pos, r.capacity);
      (r, Advancing(pos, if slot < |r.slots| then r.slots[slot] else None))
    case Advancing(_, _) => (r.(readPos := r.readPos + 1), Resting)
  }

  /** Both threads, with the items put and got so far. */
  datatype System<T> = System(ring: Ring<T>, prod: Producer<T>, cons: Consumer<T>, sent: seq<T>, received: seq<Option<T>>)

  function Produce<T>(s: System<T>, x: T): System<T>
    requires s.ring.capacity >= 8
  {
    var (ring, prod) := PutStep(s.ring, s.prod, x);
    s.(ring := ring, prod := prod, sent := if s.prod.Publishing? then s.sent + [s.prod.item] else s.sent)
  }

  function Consume<T>(s: System<T>): System<T>
    requires s.ring.capacity >= 8
  {
    var (ring, cons) := GetStep(s.ring, s.cons);
    s.(ring := ring, cons := cons, received := if s.cons.Advancing? then s.received + [s.cons.data] else s.received)
  }

  ghost predicate Next<T(!new)>(s: System<T>, s': System<T>) {
    s.ring.capacity >= 8 && (s' == Consume(s) || exists x :: s' == Produce(s, x))
  }

  function Initial<T>(cap: nat): System<T> {
    System(Ring(cap, 0, 0, seq(cap, _ => None)), Ready, Resting, [], [])
  }

  // ----- the invariant

  ghost predicate Inv<T>(s: System<T>) {
    var r := s.ring;
    && IsCapacity(r.capacity) && |r.slots| == r.capacity
    && |s.sent| == r.writePos && |s.received| == r.readPos
    && r.readPos <= r.writePos <= r.readPos + r.capacity - 1
    && (forall i :: 0 <= i < r.readPos ==> s.received[i] == Some(s.sent[i]))
    && (forall i :: r.readPos <= i < r.writePos ==> Stored(r, i, s.sent[i]))
    && ProducerInv(r, s.prod)
    && ConsumerInv(r, s.cons, s.sent)
  }

  ghost predicate Stored<T>(r: Ring<T>, i: nat, item: T)
    requires r.capacity >= 8
  {
    Slot(i, r.capacity) < |r.slots| && r.slots[Slot(i, r.capacity)] == Some(item)
  }

  ghost predicate ProducerInv<T>(r: Ring<T>, p: Producer<T>)
    requires r.capacity >= 8
  {
    && (!p.Ready? ==> p.pos == Masked(r.writePos, r.capacity))
    && (p.Storing? || p.Publishing? ==> r.writePos < r.readPos + r.capacity - 1)
    && (p.Publishing? ==> Stored(r, r.writePos, p.item))
  }

  ghost predicate ConsumerInv<T>(r: Ring<T>, c: Consumer<T>, sent: seq<T>)
    requires r.capacity >= 8
  {
    && (!c.Resting? ==> c.pos == Masked(r.readPos, r.capacity))
    && (c.Loading? || c.Advancing? ==> r.readPos < r.writePos)
    && (c.Advancing? ==> r.readPos < |sent| && c.data == Some(sent[r.readPos]))
  }

  lemma InitialInv<T>(cap: nat)
    requires IsCapacity(cap)
    ensures Inv(Initial<T>(cap))
  {
  }

  /** Writing the next slot disturbs no item still in the ring. */
  lemma StoreKeeps<T>(r: Ring<T>, i: nat, item: T, x: T)
    requires IsCapacity(r.capacity) && |r.slots| == r.capacity && Stored(r, i, item)
    requires i < r.writePos < i + r.capacity
    ensures Slot(r.writePos, r.capacity) < |r.slots|
    ensures Stored(r.(slots := r.slots[Slot(r.writePos, r.capacity) := Some(x)]), i, item)
  {
    hide Slot;
    SlotBound(r.writePos, r.capacity);
    SlotDistinct(i, r.writePos, r.capacity);
  }

  lemma ProduceInv<T>(s: System<T>, x: T)
    requires Inv(s)
    ensures Inv(Produce(s, x))
  {
    hide RealPos, Masked;
    var r, s' := s.ring, Produce(s, x);
    if s.prod.Storing? {
      SlotBound(r.writePos, r.capacity);
      assert RealPos(s.prod.pos, r.capacity) == Slot(r.writePos, r.capacity);
      forall i | r.readPos <= i < r.writePos
        ensures Stored(s'.ring, i, s.sent[i])
      {
        StoreKeeps(r, i, s.sent[i], s.prod.item);
      }
    } else if s.prod.Publishing? {
      forall i | r.readPos <= i < r.writePos + 1
        ensures Stored(s'.ring, i, s'.sent[i])
      {
        if i < r.writePos { assert Stored(r, i, s.sent[i]); }
      }
    }
  }

  lemma ConsumeInv<T>(s: System<T>)
    requires Inv(s)
    ensures Inv(Consume(s))
  {
    hide RealPos, Masked;
    var r := s.ring;
    if s.cons.Loading? {
      SlotBound(r.readPos, r.capacity);
      assert Stored(r, r.readPos, s.sent[r.readPos]);
      assert RealPos(s.cons.pos, r.capacity) == Slot(r.readPos, r.capacity);
    } else if s.cons.Advancing? {
      forall i | r.readPos + 1 <= i < r.writePos
        ensures Stored(Consume(s).ring, i, s.sent[i])
      {
        assert Stored(r, i, s.sent[i]);
      }
    }
  }

  // ----- what every interleaving keeps

  ghost predicate IsRun<T(!new)>(run: seq<System<T>>, cap: nat) {
    run != [] && run[0] == Initial(cap) && forall i :: 0 <= i < |run| - 1 ==> Next(run[i], run[i + 1])
  }

  lemma {:induction false} RunInv<T(!new)>(run: seq<System<T>>, cap: nat, i: nat)
    requires IsCapacity(cap) && IsRun(run, cap) && i < |run|
    ensures Inv(run[i])
  {
    if i == 0 {
      InitialInv<T>(cap);
    } else {
      RunInv(run, cap, i - 1);
      var s, s' := run[i - 1], run[i];
      assert Next(s, s');
      if s' == Consume(s) {
        ConsumeInv(s);
      } else {
        var x :| s' == Produce(s, x);
        ProduceInv(s, x);
      }
    }
  }

  /** The queue the ring stands for: published and not yet taken. */
  function Queue<T>(s: System<T>): seq<T>
    requires s.ring.readPos <= |s.sent|
  {
    s.sent[s.ring.readPos..]
  }

  /** In every state of every interleaving: what was received is, in order, what was sent first; the rest is the
      queue, of at most capacity - 1 items; nothing is lost, duplicated or reordered. */
  lemma RunIsFifo<T(!new)>(run: seq<System<T>>, cap: nat, i: nat)
    requires IsCapacity(cap) && IsRun(run, cap) && i < |run|
    ensures var s := run[i];
            && s.ring.readPos <= |s.sent|
            && |s.received| + |Queue(s)| == |s.sent|
            && (forall j :: 0 <= j < |s.received| ==> s.received[j] == Some(s.sent[j]))
            && (forall j :: 0 <= j < |Queue(s)| ==> Queue(s)[j] == s.sent[|s.received| + j])
            && |Queue(s)| <= cap - 1
  {
    hide Slot;
    RunInv(run, cap, i);
    CapacityConstant(run, cap, i);
  }

  lemma {:induction false} CapacityConstant<T(!new)>(run: seq<System<T>>, cap: nat, i: nat)
    requires IsRun(run, cap) && i < |run|
    ensures run[i].ring.capacity == cap
  {
    hide RealPos, Masked;
    if i > 0 {
      CapacityConstant(run, cap, i - 1);
      assert Next(run[i - 1], run[i]);
    }
  }

  /** Every atomic step is a stutter of the queue, one put into a queue that has room, or one get from its front. */
  lemma StepRefinesQueue<T>(s: System<T>, x: T)
    requires Inv(s)
    ensures Inv(Produce(s, x)) && Inv(Consume(s))
    ensures if s.prod.Publishing?
            then |Queue(s)| < s.ring.capacity - 1 && Queue(Produce(s, x)) == Queue(s) + [s.prod.item]
            else Queue(Produce(s, x)) == Queue(s)
    ensures if s.cons.Advancing?
            then Queue(s) != [] && s.cons.data == Some(Queue(s)[0]) && Queue(Consume(s)) == Queue(s)[1..]
            else Queue(Consume(s)) == Queue(s)
  {
    hide RealPos, Masked;
    ProduceInv(s, x);
    ConsumeInv(s);
  }

  /** put waits exactly while the queue is full, get comes back empty exactly when the queue is empty. */
  lemma BlockingIsExact<T>(s: System<T>, x: T)
    requires Inv(s)
    ensures s.prod.Waiting? ==> (Produce(s, x) == s <==> |Queue(s)| == s.ring.capacity - 1)
    ensures s.cons.Checking? ==> (Consume(s).cons.Resting? <==> Queue(s) == [])
  {
    hide RealPos, Masked;
  }

  /** The consumer never reads the slot being written. */
  lemma NoRace<T>(s: System<T>)
    requires Inv(s) && s.prod.Storing? && s.cons.Loading?
    ensures RealPos(s.prod.pos, s.ring.capacity) != RealPos(s.cons.pos, s.ring.capacity)
  {
    hide RealPos, Masked;
    SlotDistinct(s.ring.readPos, s.ring.writePos, s.ring.capacity);
  }

  // ----- the limit of the design: one producer only

  /** Two threads may both read the same write position, store into the same slot and publish twice: on every ring, the
      first item is then lost, and of the two gets that follow, each run from start to finish, the second yields a slot
      nobody wrote. */
  lemma TwoProducersLoseAnItem<T>(cap: nat, a: T, b: T)
    requires IsCapacity(cap)
    ensures var r0 := Initial<T>(cap).ring;
            var (r1, p1) := PutStep(r0, Ready, a);         // first thread reads position 0
            var (r2, q1) := PutStep(r1, Ready, b);         // second thread reads position 0
            var (r3, p2) := PutStep(r2, p1, a);
            var (r4, q2) := PutStep(r3, q1, b);
            var (r5, p3) := PutStep(r4, p2, a);            // first thread stores
            var (r6, q3) := PutStep(r5, q2, b);            // second thread stores over it
            var (r7, p4) := PutStep(r6, p3, a);            // both publish
            var (r8, q4) := PutStep(r7, q3, b);
            && p4.Ready? && q4.Ready? && r8.writePos == 2
            && var (r9, got1) := WholeGetSteps(r8);
               var (r10, got2) := WholeGetSteps(r9);
               && got1 == Advancing(Masked(0, cap), Some(b)) && got2 == Advancing(Masked(1, cap), None)
               && r10.readPos == 2 && GetStep(r10, Checking(Masked(2, cap))).1.Resting?
  {
    hide RealPos, Masked;
    SlotBound(0, cap);
    SlotBound(1, cap);
    SlotDistinct(0, 1, cap);
  }

  /** The four steps of get() on a ring that is not empty, and what the last one returns. */
  function WholeGetSteps<T>(r: Ring<T>): (Ring<T>, Consumer<T>)
    requires r.capacity >= 8
  {
    var (r1, c1) := GetStep(r, Resting);
    var (r2, c2) := GetStep(r1, c1);
    var (r3, c3) := GetStep(r2, c2);
    (GetStep(r3, c3).0, c3)
  }

  // ----- a whole put and a whole get

  /** put(x) on a ring with room, start to finish. */
  lemma WholePut<T>(s: System<T>, x: T)
    requires Inv(s) && s.prod.Ready? && |Queue(s)| < s.ring.capacity - 1
    ensures var at := Slot(s.ring.writePos, s.ring.capacity);
            && at < |s.ring.slots|
            && Inv(s.(ring := s.ring.(slots := s.ring.slots[at := Some(x)], writePos := s.ring.writePos + 1),
                      sent := s.sent + [x]))
  {
    hide RealPos, Masked;
    var s1 := Produce(s, x);
    var s2 := Produce(s1, x);
    var s3 := Produce(s2, x);
    ProduceInv(s, x);
    ProduceInv(s1, x);
    ProduceInv(s2, x);
    ProduceInv(s3, x);
    SlotBound(s.ring.writePos, s.ring.capacity);
  }

  /** get() on a ring that is not empty, start to finish. */
  lemma WholeGet<T>(s: System<T>)
    requires Inv(s) && s.cons.Resting? && Queue(s) != []
    ensures var at := Slot(s.ring.readPos, s.ring.capacity);
            && at < |s.ring.slots| && s.ring.slots[at] == Some(Queue(s)[0])
            && Inv(s.(ring := s.ring.(readPos := s.ring.readPos + 1), received := s.received + [Some(Queue(s)[0])]))
  {
    hide RealPos, Masked;
    var s1 := Consume(s);
    var s2 := Consume(s1);
    var s3 := Consume(s2);
    ConsumeInv(s);
    ConsumeInv(s1);
    ConsumeInv(s2);
    ConsumeInv(s3);
    assert Stored(s.ring, s.ring.readPos, s.sent[s.ring.readPos]);
  }

  function Wrap<T>(s: seq<T>): (r: seq<Option<T>>)
    ensures |r| == |s| && forall i :: 0 <= i < |s| ==> r[i] == Some(s[i])
  {
    if s == [] then [] else Wrap(s[..|s| - 1]) + [Some(s[|s| - 1])]
  }

  // ----- the object

  class PipeRing<T(0)> {
    const capacity: nat
    var writePos: nat
    var readPos: nat
    var pointers: array?<Option<T>>
    ghost var sent: seq<T>

    /** The state of the ring between calls, as a state of the interleaved system. */
    ghost function View(): System<T>
      requires pointers != null
      reads this, pointers
    {
      System(Ring(capacity, writePos, readPos, pointers[..]), Ready, Resting, sent,
             Wrap(sent[..if readPos <= |sent| then readPos else 0]))
    }

    ghost predicate Valid()
      reads this, pointers
    {
      pointers != null && Inv(View())
    }

    ghost function Contents(): seq<T>
      requires Valid()
      reads this, pointers
    {
      sent[readPos..]
    }

    /** The constructor succeeds exactly for a power of two, and for capacity 0, whose predecessor wraps around. */
    constructor (capacity: U64)
      ensures this.capacity == capacity
      ensures InitSucceed() <==> capacity == 0 || IsPowerOfTwo(capacity)
      ensures IsCapacity(capacity) ==> Valid() && Contents() == [] && fresh(pointers)
    {
      this.capacity := capacity;
      writePos, readPos, sent := 0, 0, [];
      if capacity > 0 { PowerOfTwoTest(capacity); }
      if BitAnd(capacity, if capacity == 0 then MAX_U64 else capacity - 1) != 0 {
        pointers := null;
      } else {
        pointers := new Option<T>[capacity](_ => None);
      }
    }

    predicate InitSucceed()
      reads this
    {
      pointers != null
    }

    /** put, on a ring with room; on a full ring it waits for the consumer, as in BlockingIsExact. */
    method Put(x: T)
      requires Valid() && |Contents()| < capacity - 1
      modifies this, pointers
      ensures Valid() && pointers == old(pointers)
      ensures Contents() == old(Contents()) + [x]
    {
      hide RealPos, Masked, Inv;
      RoomFor();
      WholePut(View(), x);
      ghost var after := View().(ring := View().ring.(slots := pointers[..][Slot(writePos, capacity) := Some(x)],
                                                      writePos := writePos + 1), sent := sent + [x]);
      var pos := Masked(writePos, capacity);
      var realPos := RealPos(pos, capacity);
      pointers[realPos] := Some(x);
      writePos := writePos + 1;
      sent := sent + [x];
      assert sent[..readPos] == old(sent)[..readPos];
      assert View() == after;
    }

    lemma RoomFor()
      requires Valid()
      ensures readPos <= |sent| && |sent| == writePos && pointers.Length == capacity && capacity >= 8
    {
    }

    /** get */
    method Get() returns (data: Option<T>)
      requires Valid()
      modifies this
      ensures Valid() && pointers == old(pointers)
      ensures if old(Contents()) == [] then data == None && Contents() == []
              else data == Some(old(Contents())[0]) && Contents() == old(Contents())[1..]
    {
      hide RealPos, Masked, Inv;
      RoomFor();
      if writePos == readPos {
        return None;
      }
      WholeGet(View());
      ghost var after := View().(ring := View().ring.(readPos := readPos + 1),
                                 received := View().received + [Some(sent[readPos])]);
      var pos := Masked(readPos, capacity);
      var realPos := RealPos(pos, capacity);
      data := pointers[realPos];
      readPos := readPos + 1;
      assert sent[..readPos] == old(sent[..readPos]) + [sent[readPos - 1]];
      assert View() == after;
    }
  }
}
