/** A circular window of blocks onto a larger circular disk: src/probe/probeLib/dataBlockBuffer.hpp. */
module BlockWindow {
  import opened Bytes

  /** Blocks in memory, bytes per block, blocks on disk, writer threads. */
  datatype Geometry = Geometry(totalBlockNum: nat, blockSize: nat, diskBlockNum: nat, rssNum: nat)

  ghost predicate Sound(g: Geometry) {
    0 < g.totalBlockNum && 0 < g.blockSize && g.totalBlockNum * 4 < g.diskBlockNum && 0 < g.rssNum <= g.blockSize
  }

  function BufferSize(g: Geometry): nat { g.blockSize * g.totalBlockNum }
  function DiskSize(g: Geometry): nat { g.blockSize * g.diskBlockNum }

  // ----- the barrier tests

  /** How far w is ahead of right on the circle of disk blocks. */
  function Ahead(w: nat, right: nat, diskBlockNum: nat): nat
    requires right < diskBlockNum
  {
    (w + diskBlockNum - right) % diskBlockNum
  }

  function LeftBarrier(right: nat, g: Geometry): nat
    requires g.totalBlockNum * 2 < g.diskBlockNum
  {
    (right + g.diskBlockNum - g.totalBlockNum * 2) % g.diskBlockNum
  }

  /** `checkRSS`, on the two cases of the code. */
  predicate CheckRSS(w: nat, diskId: nat, delayed: nat, g: Geometry)
    requires g.totalBlockNum * 2 < g.diskBlockNum
  {
    var right := (diskId + delayed) % g.diskBlockNum;
    var left := LeftBarrier(right, g);
    || (left < right && (w > right || w < left))
    || (left > right && w > right && w < left)
  }

  /** `directCheckRSS` */
  predicate DirectCheckRSS(w: nat, diskId: nat, g: Geometry)
    requires g.totalBlockNum * 2 < g.diskBlockNum
  {
    var right := diskId % g.diskBlockNum;
    var left := LeftBarrier(right, g);
    || (left < right && (w >= right || w < left))
    || (left > right && w >= right && w < left)
  }

  lemma WrapOnce(x: nat, d: nat)
    requires 0 < d && x < 2 * d
    ensures x % d == if x < d then x else x - d
  {
    if x < d {
      DivUnique(x, d, 0, x);
    } else {
      DivUnique(x, d, 1, x - d);
    }
  }

  /** Going that far on from right leads to w, and no shorter way does. */
  lemma AheadLeads(w: nat, right: nat, d: nat, n: nat)
    requires w < d && right < d && n < d
    ensures Ahead(w, right, d) < d && ((right + n) % d == w <==> n == Ahead(w, right, d))
  {
    WrapOnce(w + d - right, d);
    WrapOnce(right + n, d);
  }

  /** Both tests are exactly membership in a circular interval that ends twice the buffer before the right barrier. */
  lemma CheckRSSExact(w: nat, diskId: nat, delayed: nat, g: Geometry)
    requires Sound(g) && w < g.diskBlockNum
    ensures CheckRSS(w, diskId, delayed, g) <==>
            1 <= Ahead(w, (diskId + delayed) % g.diskBlockNum, g.diskBlockNum) <= g.diskBlockNum - 2 * g.totalBlockNum - 1
  {
    var right := (diskId + delayed) % g.diskBlockNum;
    WrapOnce(right + g.diskBlockNum - g.totalBlockNum * 2, g.diskBlockNum);
    WrapOnce(w + g.diskBlockNum - right, g.diskBlockNum);
  }

  lemma DirectCheckRSSExact(w: nat, diskId: nat, g: Geometry)
    requires Sound(g) && w < g.diskBlockNum && diskId < g.diskBlockNum
    ensures DirectCheckRSS(w, diskId, g) <==>
            0 <= Ahead(w, diskId, g.diskBlockNum) <= g.diskBlockNum - 2 * g.totalBlockNum - 1
  {
    WrapOnce(diskId, g.diskBlockNum);
    WrapOnce(diskId + g.diskBlockNum - g.totalBlockNum * 2, g.diskBlockNum);
    WrapOnce(w + g.diskBlockNum - diskId, g.diskBlockNum);
  }

  // ----- recycling

  /** A recycled block moves one buffer length along the disk. */
  function Recycled(diskId: nat, g: Geometry): nat
    requires g.diskBlockNum > 0
  {
    (diskId + g.totalBlockNum) % g.diskBlockNum
  }

  ghost predicate Aligned(ids: seq<nat>, g: Geometry)
    requires g.totalBlockNum > 0
  {
    |ids| == g.totalBlockNum && forall b :: 0 <= b < |ids| ==> ids[b] < g.diskBlockNum && ids[b] % g.totalBlockNum == b
  }

  lemma ModSubtract(x: nat, d: nat, t: nat)
    requires t > 0 && d <= x && d % t == 0
    ensures (x - d) % t == x % t
  {
    assert x - d == (x / t - d / t) * t + x % t by {
      assert x == (x / t) * t + x % t && d == (d / t) * t;
      assert (x / t - d / t) * t == (x / t) * t - (d / t) * t;
    }
    DivUnique(x - d, t, x / t - d / t, x % t);
  }

  lemma ModAdd(x: nat, t: nat)
    requires t > 0
    ensures (x + t) % t == x % t
  {
    assert x + t == (x / t + 1) * t + x % t;
    DivUnique(x + t, t, x / t + 1, x % t);
  }

  lemma RecycledAligned(diskId: nat, g: Geometry)
    requires Sound(g) && g.diskBlockNum % g.totalBlockNum == 0 && diskId < g.diskBlockNum
    ensures Recycled(diskId, g) < g.diskBlockNum && Recycled(diskId, g) % g.totalBlockNum == diskId % g.totalBlockNum
  {
    ModAdd(diskId, g.totalBlockNum);
    WrapOnce(diskId + g.totalBlockNum, g.diskBlockNum);
    if diskId + g.totalBlockNum >= g.diskBlockNum {
      ModSubtract(diskId + g.totalBlockNum, g.diskBlockNum, g.totalBlockNum);
    }
  }

  /** Recycling keeps every block on the disk blocks it can serve exactly when the buffer divides the disk. */
  lemma AlignmentIff(g: Geometry)
    requires Sound(g)
    ensures (forall id: nat :: id < g.diskBlockNum ==> Recycled(id, g) % g.totalBlockNum == id % g.totalBlockNum)
       <==> g.diskBlockNum % g.totalBlockNum == 0
  {
    var t, d := g.totalBlockNum, g.diskBlockNum;
    if d % t == 0 {
      forall id: nat | id < d
        ensures Recycled(id, g) % t == id % t
      {
        RecycledAligned(id, g);
      }
    } else {
      WrapOnce(d - 1 + t, d);
      DivUnique(t - 1, t, 0, t - 1);
      DivUnique(d - 1, t, d / t, d % t - 1);
      assert Recycled(d - 1, g) % t != (d - 1) % t;
    }
  }

  // ----- writing into the window

  /** Where i stands, counted round the circle from at on. */
  function Offset(i: nat, at: nat, size: nat): nat
    requires at < size
  {
    if i >= at then i - at else i + size - at
  }

  /** The circular buffer after data is copied in at an index, in one piece or in two. */
  function Overlay(bytes: seq<Byte>, at: nat, data: seq<Byte>): (r: seq<Byte>)
    requires at < |bytes| && |data| <= |bytes|
    ensures |r| == |bytes|
  {
    if at + |data| <= |bytes| then bytes[..at] + data + bytes[at + |data|..]
    else
      var tmp := |bytes| - at;
      data[tmp..] + bytes[|data| - tmp..at] + data[..tmp]
  }

  lemma OverlayAt(bytes: seq<Byte>, at: nat, data: seq<Byte>, i: nat)
    requires at < |bytes| && |data| <= |bytes| && i < |bytes|
    ensures Overlay(bytes, at, data)[i]
         == if Offset(i, at, |bytes|) < |data| then data[Offset(i, at, |bytes|)] else bytes[i]
  {
  }

  /** Both blocks a write can touch are mapped to the disk blocks it means. */
  predicate Mapped(g: Geometry, ids: seq<nat>, pos: nat, len: nat)
    requires g.totalBlockNum > 0 && g.blockSize > 0 && g.diskBlockNum > 0 && |ids| == g.totalBlockNum
  {
    var block, disk := (pos / g.blockSize) % g.totalBlockNum, (pos / g.blockSize) % g.diskBlockNum;
    && ids[block] == disk
    && (pos % g.blockSize + len >= g.blockSize ==>
          ids[(block + 1) % g.totalBlockNum] == (disk + 1) % g.diskBlockNum)
  }

  /** The block a disk position falls into, in memory and on disk. */
  lemma SlotOf(g: Geometry, pos: nat)
    requires g.totalBlockNum > 0 && g.blockSize > 0
    ensures BufferSize(g) > 0
    ensures (pos % BufferSize(g)) / g.blockSize == (pos / g.blockSize) % g.totalBlockNum
    ensures (pos % BufferSize(g)) % g.blockSize == pos % g.blockSize
  {
    QuotientOfMod(pos, g.blockSize, g.totalBlockNum);
  }

  lemma NextBlock(pos: nat, k: nat, s: nat)
    requires s > 0 && pos % s + k < 2 * s
    ensures (pos + k) / s == pos / s + if pos % s + k >= s then 1 else 0
    ensures (pos + k) % s == pos % s + k - if pos % s + k >= s then s else 0
  {
    if pos % s + k >= s {
      DivUnique(pos + k, s, pos / s + 1, pos % s + k - s);
    } else {
      DivUnique(pos + k, s, pos / s, pos % s + k);
    }
  }

  lemma ModStep(x: nat, m: nat)
    requires m > 0
    ensures (x + 1) % m == (x % m + 1) % m
  {
    if x % m + 1 == m {
      DivUnique(x + 1, m, x / m + 1, 0);
      DivUnique(m, m, 1, 0);
    } else {
      DivUnique(x + 1, m, x / m, x % m + 1);
      DivUnique(x % m + 1, m, 0, x % m + 1);
    }
  }

  predicate BlockMapped(g: Geometry, ids: seq<nat>, pos: nat)
    requires g.totalBlockNum > 0 && g.blockSize > 0 && g.diskBlockNum > 0 && |ids| == g.totalBlockNum
  {
    ids[(pos / g.blockSize) % g.totalBlockNum] == (pos / g.blockSize) % g.diskBlockNum
  }

  /** Every byte of an accepted write lands in a block that is mapped to that byte's disk block. */
  lemma TouchedMapped(g: Geometry, ids: seq<nat>, pos: nat, len: nat, k: nat)
    requires Sound(g) && |ids| == g.totalBlockNum && Mapped(g, ids, pos, len)
    requires k < len && pos % g.blockSize + len <= 2 * g.blockSize
    ensures BlockMapped(g, ids, pos + k)
  {
    NextBlock(pos, k, g.blockSize);
    ModStep(pos / g.blockSize, g.totalBlockNum);
    ModStep(pos / g.blockSize, g.diskBlockNum);
  }

  ghost predicate AllMapped(g: Geometry, ids: seq<nat>, pos: nat, len: nat)
    requires Sound(g) && |ids| == g.totalBlockNum
  {
    forall k: nat :: k < len ==> MappedAt(g, ids, pos, k)
  }

  ghost predicate MappedAt(g: Geometry, ids: seq<nat>, pos: nat, k: nat)
    requires Sound(g) && |ids| == g.totalBlockNum
  {
    BlockMapped(g, ids, pos + k)
  }

  /** The two checks of a write speak for all its bytes, whatever is mapped, exactly when it touches two blocks at most. */
  lemma TouchedIff(g: Geometry, pos: nat, len: nat)
    requires Sound(g) && g.totalBlockNum >= 2
    ensures (forall ids: seq<nat> :: |ids| == g.totalBlockNum && Mapped(g, ids, pos, len) ==> AllMapped(g, ids, pos, len))
       <==> pos % g.blockSize + len <= 2 * g.blockSize
  {
    if pos % g.blockSize + len <= 2 * g.blockSize {
      forall ids: seq<nat> | |ids| == g.totalBlockNum && Mapped(g, ids, pos, len)
        ensures AllMapped(g, ids, pos, len)
      {
        forall k: nat | k < len
          ensures MappedAt(g, ids, pos, k)
        {
          TouchedMapped(g, ids, pos, len, k);
        }
      }
    } else {
      var ids := TwoMapped(g, pos);
      ThirdBlock(g, pos, ids);
      assert Mapped(g, ids, pos, len);
      assert !MappedAt(g, ids, pos, 2 * g.blockSize - pos % g.blockSize);
    }
  }

  /** Ids that map the block of a position and the next one, and nothing else. */
  ghost function TwoMapped(g: Geometry, pos: nat): (ids: seq<nat>)
    requires Sound(g) && g.totalBlockNum >= 2
    ensures |ids| == g.totalBlockNum
  {
    var block, disk := (pos / g.blockSize) % g.totalBlockNum, (pos / g.blockSize) % g.diskBlockNum;
    seq(g.totalBlockNum, i => if i == (block + 1) % g.totalBlockNum then (disk + 1) % g.diskBlockNum else disk)
  }

  lemma ThirdBlock(g: Geometry, pos: nat, ids: seq<nat>)
    requires Sound(g) && g.totalBlockNum >= 2 && ids == TwoMapped(g, pos)
    ensures var s, t, d := g.blockSize, g.totalBlockNum, g.diskBlockNum;
            && ids[(pos / s) % t] == (pos / s) % d
            && ids[((pos / s) % t + 1) % t] == ((pos / s) % d + 1) % d
            && !BlockMapped(g, ids, pos + (2 * s - pos % s))
  {
    var s, t, d, q := g.blockSize, g.totalBlockNum, g.diskBlockNum, pos / g.blockSize;
    assert pos == q * s + pos % s;
    DivUnique(pos + (2 * s - pos % s), s, q + 2, 0);
    WrapOnce(q % t + 1, t);
    WrapOnce(q % d + 1, d);
    ModStep(q, t);
    ModStep(q + 1, t);
    ModStep(q, d);
    ModStep(q + 1, d);
    WrapOnce((q + 1) % t + 1, t);
    WrapOnce((q + 1) % d + 1, d);
  }

  /** A write at most one block long is accepted exactly when the block of its first byte and the block of the byte
      after its last are mapped. */
  lemma MappedIff(g: Geometry, ids: seq<nat>, pos: nat, len: nat)
    requires Sound(g) && |ids| == g.totalBlockNum && len <= g.blockSize
    ensures Mapped(g, ids, pos, len) <==> BlockMapped(g, ids, pos) && BlockMapped(g, ids, pos + len)
  {
    NextBlock(pos, len, g.blockSize);
    ModStep(pos / g.blockSize, g.totalBlockNum);
    ModStep(pos / g.blockSize, g.diskBlockNum);
  }

  /** The residue modulo the buffer survives the residue modulo the disk when the buffer divides the disk. */
  lemma ModOfMod(x: nat, g: Geometry)
    requires Sound(g) && g.diskBlockNum % g.totalBlockNum == 0
    ensures DiskSize(g) > 0 && BufferSize(g) > 0
    ensures (x % DiskSize(g)) % BufferSize(g) == x % BufferSize(g)
  {
    var s, t, d := g.blockSize, g.totalBlockNum, g.diskBlockNum;
    DivModSplit(x, s, t);
    DivModSplit(x, s, d);
    DivModSplit(x % DiskSize(g), s, t);
    QuotientOfMod(x, s, d);
    ModOfMultiple(x / s, d, t);
  }

  lemma QuotientOfMod(x: nat, s: nat, d: nat)
    requires s > 0 && d > 0
    ensures s * d > 0 && (x % (s * d)) / s == (x / s) % d && (x % (s * d)) % s == x % s
  {
    DivModSplit(x, s, d);
    DivUnique(x % (s * d), s, (x / s) % d, x % s);
  }

  lemma ModOfMultiple(q: nat, d: nat, t: nat)
    requires t > 0 && d > 0 && d % t == 0
    ensures (q % d) % t == q % t
  {
    assert q == (q / d) * d + q % d;
    MultipleMod(q / d, d, t);
    ModSubtract(q, (q / d) * d, t);
  }

  lemma MultipleMod(e: nat, d: nat, t: nat)
    requires t > 0 && d % t == 0
    ensures (e * d) % t == 0
  {
    assert d == (d / t) * t;
    MulAssoc(e, d / t, t);
    DivUnique(e * d, t, e * (d / t), 0);
  }

  /** A disk address is determined by its block on disk and its place in the block. */
  lemma AddressUnique(a: nat, x: nat, g: Geometry)
    requires Sound(g) && a < DiskSize(g)
    requires a / g.blockSize == (x / g.blockSize) % g.diskBlockNum && a % g.blockSize == x % g.blockSize
    ensures a == x % DiskSize(g)
  {
    DivModSplit(x, g.blockSize, g.diskBlockNum);
    assert a == (a / g.blockSize) * g.blockSize + a % g.blockSize;
  }

  /** A write to the window is a write to the disk: a disk byte whose block is in memory reads as the written byte when the
      write covers its address on the circular disk, and as before otherwise. */
  lemma WindowWrite(g: Geometry, ids: seq<nat>, bytes: seq<Byte>, pos: nat, data: seq<Byte>, a: nat)
    requires Sound(g) && g.diskBlockNum % g.totalBlockNum == 0 && |ids| == g.totalBlockNum && |bytes| == BufferSize(g)
    requires BufferSize(g) > 0 && DiskSize(g) > 0 && |data| <= BufferSize(g) && pos % g.blockSize + |data| <= 2 * g.blockSize
    requires Mapped(g, ids, pos, |data|) && a < DiskSize(g) && BlockMapped(g, ids, a)
    ensures var k := Offset(a, pos % DiskSize(g), DiskSize(g));
            Overlay(bytes, pos % BufferSize(g), data)[a % BufferSize(g)]
            == if k < |data| then data[k] else bytes[a % BufferSize(g)]
  {
    hide Mapped, BlockMapped, Overlay, BufferSize, DiskSize, Sound;
    var size, disk := BufferSize(g), DiskSize(g);
    var i, k := a % size, Offset(a, pos % disk, disk);
    var j := Offset(i, pos % size, size);
    OverlayAt(bytes, pos % size, data, i);
    OffsetAddress(a, pos, disk);
    OffsetAddress(i, pos, size);
    if k < |data| {
      ModOfMod(pos + k, g);
      OffsetUnique(i, pos, k, size);
    } else if j < |data| {
      Covered(g, ids, pos, |data|, a, j);
      OffsetUnique(a, pos, j, disk);
    }
  }

  /** Counting k from pos round a circle and reducing is the same as reducing first. */
  lemma OffsetAddress(i: nat, pos: nat, size: nat)
    requires 0 < size && i < size
    ensures (pos + Offset(i, pos % size, size)) % size == i
    ensures Offset(i, pos % size, size) < size
  {
    var at := pos % size;
    assert pos == (pos / size) * size + at;
    if i >= at {
      DivUnique(pos + (i - at), size, pos / size, i);
    } else {
      DivUnique(pos + (i + size - at), size, pos / size + 1, i);
    }
  }

  lemma OffsetUnique(i: nat, pos: nat, k: nat, size: nat)
    requires 0 < size && k < size && (pos + k) % size == i
    ensures Offset(i, pos % size, size) == k
  {
    NextBlock(pos, k, size);
  }

  /** Two addresses in the same slot of the window, whose blocks are both in memory, are the same disk address. */
  lemma Covered(g: Geometry, ids: seq<nat>, pos: nat, len: nat, a: nat, j: nat)
    requires Sound(g) && |ids| == g.totalBlockNum && Mapped(g, ids, pos, len) && j < len && pos % g.blockSize + len <= 2 * g.blockSize
    requires a < DiskSize(g) && BlockMapped(g, ids, a) && BufferSize(g) > 0 && (pos + j) % BufferSize(g) == a % BufferSize(g)
    ensures DiskSize(g) > 0 && (pos + j) % DiskSize(g) == a
  {
    TouchedMapped(g, ids, pos, len, j);
    SlotOf(g, pos + j);
    SlotOf(g, a);
    DivModSplit(a, g.blockSize, g.diskBlockNum);
    SmallQuotient(a, g.blockSize, g.diskBlockNum);
    AddressUnique(a, pos + j, g);
  }

  lemma SmallQuotient(a: nat, s: nat, d: nat)
    requires s > 0 && d > 0 && a < s * d
    ensures (a / s) % d == a / s
  {
    if a / s >= d {
      DivAtLeast(a, s, d);
    }
    DivUnique(a / s, d, 0, a / s);
  }
}

/** The buffer object. */
module DataBlockBuffers {
  import opened Bytes
  import opened Buffers
  import opened Wrappers
  import opened BlockWindow

  datatype DataBlock = DataBlock(
    blockId: nat, writePos: nat, startTime: U64, endTime: U64, packetCount: nat, buffer: seq<Byte>)

  /** Everything the buffer holds, as a value. */
  datatype State = State(
    ids: seq<nat>, starts: seq<U64>, ends: seq<U64>, counts: seq<nat>,
    writers: seq<nat>, checks: seq<nat>, bytes: seq<Byte>)

  function Min(a: U64, b: U64): U64 {
    if a <= b then a else b
  }

  ghost predicate Shaped(g: Geometry, s: State) {
    && Sound(g)
    && |s.ids| == |s.starts| == |s.ends| == g.totalBlockNum
    && |s.counts| == g.totalBlockNum * g.rssNum
    && |s.bytes| == BufferSize(g) > 0
    && (forall b :: 0 <= b < |s.ids| ==> s.ids[b] < g.diskBlockNum)
    && (forall i :: 0 <= i < |s.writers| ==> s.writers[i] < g.diskBlockNum)
    && (forall i :: 0 <= i < |s.checks| ==> s.checks[i] < g.totalBlockNum)
  }

  /** As constructed, with any threads registered. */
  ghost predicate Fresh(g: Geometry, s: State) {
    && Shaped(g, s)
    && (forall b :: 0 <= b < |s.ids| ==> s.ids[b] == b)
    && (forall b :: 0 <= b < |s.starts| ==> s.starts[b] == MAX_U64)
    && (forall b :: 0 <= b < |s.ends| ==> s.ends[b] == 0)
    && (forall i :: 0 <= i < |s.counts| ==> s.counts[i] == 0)
  }

  lemma IsFresh(g: Geometry, s: State)
    requires Sound(g) && |s.bytes| == BufferSize(g) && s.writers == s.checks == []
    requires |s.ids| == |s.starts| == |s.ends| == g.totalBlockNum && |s.counts| == g.totalBlockNum * g.rssNum
    requires forall b :: 0 <= b < g.totalBlockNum ==> s.ids[b] == b && s.starts[b] == MAX_U64 && s.ends[b] == 0
    requires forall i :: 0 <= i < |s.counts| ==> s.counts[i] == 0
    ensures Fresh(g, s)
  {
    BlockFits(g);
  }

  lemma FreshAligned(g: Geometry, s: State)
    requires Fresh(g, s)
    ensures Sound(g) && Aligned(s.ids, g)
  {
    forall b | 0 <= b < g.totalBlockNum
      ensures b % g.totalBlockNum == b
    {
      DivUnique(b, g.totalBlockNum, 0, b);
    }
  }

  // ----- what a write does to the bookkeeping

  datatype Write = Write(data: seq<Byte>, pos: nat, thread: nat, newData: bool, newIndex: bool, ts: U64)

  function FirstBlock(g: Geometry, w: Write): nat
    requires Sound(g)
  {
    (w.pos / g.blockSize) % g.totalBlockNum
  }

  predicate Crosses(g: Geometry, w: Write)
    requires Sound(g)
  {
    w.pos % g.blockSize + |w.data| >= g.blockSize
  }

  function LastBlock(g: Geometry, w: Write): nat
    requires Sound(g)
  {
    if Crosses(g, w) then (FirstBlock(g, w) + 1) % g.totalBlockNum else FirstBlock(g, w)
  }

  /** The disk block a writer is recorded at: the one it could not write to, or the last one it wrote to. */
  function ReachedDisk(g: Geometry, ids: seq<nat>, w: Write): (d: nat)
    requires Sound(g) && |ids| == g.totalBlockNum
    ensures d < g.diskBlockNum
  {
    var disk := (w.pos / g.blockSize) % g.diskBlockNum;
    if ids[FirstBlock(g, w)] == disk && Crosses(g, w) then (disk + 1) % g.diskBlockNum else disk
  }

  predicate OnMark(g: Geometry, w: Write)
    requires Sound(g)
  {
    (w.pos % g.blockSize + |w.data|) % Mark(g) == 0
  }

  /** Length of the stretches after which block times are renewed. */
  function Mark(g: Geometry): (m: nat)
    requires Sound(g)
    ensures m > 0
  {
    MarkPositive(g.blockSize, g.rssNum);
    g.blockSize / g.rssNum
  }

  lemma MarkPositive(blockSize: nat, rssNum: nat)
    requires 0 < rssNum <= blockSize
    ensures blockSize / rssNum > 0
  {
  }

  function NewEnds(g: Geometry, s: State, w: Write): (r: seq<U64>)
    requires Sound(g) && |s.ids| == |s.ends| == g.totalBlockNum
    ensures |r| == |s.ends|
  {
    var first := (w.pos / g.blockSize) % g.diskBlockNum == s.ids[FirstBlock(g, w)];
    var e := if w.newData && first && Crosses(g, w) then s.ends[FirstBlock(g, w) := w.ts] else s.ends;
    if w.newData && Mapped(g, s.ids, w.pos, |w.data|) && OnMark(g, w) then e[LastBlock(g, w) := w.ts] else e
  }

  function NewStarts(g: Geometry, s: State, w: Write): (r: seq<U64>)
    requires Sound(g) && |s.ids| == |s.starts| == g.totalBlockNum
    ensures |r| == |s.starts|
  {
    var last := LastBlock(g, w);
    var next := (last + 1) % g.totalBlockNum;
    if !w.newData || !Mapped(g, s.ids, w.pos, |w.data|) then s.starts
    else
      var t := if Crosses(g, w) then s.starts[last := Min(s.starts[last], w.ts)] else s.starts;
      if OnMark(g, w) then t[next := Min(t[next], w.ts)] else t
  }

  function CountIndex(g: Geometry, w: Write): nat
    requires Sound(g)
  {
    FirstBlock(g, w) + g.totalBlockNum * w.thread
  }

  lemma CountInRange(g: Geometry, w: Write)
    requires Sound(g) && w.thread < g.rssNum
    ensures CountIndex(g, w) < g.totalBlockNum * g.rssNum
  {
    MulMono(w.thread, g.rssNum - 1, g.totalBlockNum);
  }

  function NewCounts(g: Geometry, s: State, w: Write): (r: seq<nat>)
    requires Sound(g) && |s.ids| == g.totalBlockNum && |s.counts| == g.totalBlockNum * g.rssNum && w.thread < g.rssNum
    ensures |r| == |s.counts|
  {
    CountInRange(g, w);
    if w.newData && w.newIndex && Mapped(g, s.ids, w.pos, |w.data|)
    then s.counts[CountIndex(g, w) := s.counts[CountIndex(g, w)] + 1]
    else s.counts
  }

  lemma BlockFits(g: Geometry)
    requires Sound(g)
    ensures 0 < g.blockSize <= BufferSize(g)
  {
  }

  function NewBytes(g: Geometry, s: State, w: Write): (r: seq<Byte>)
    requires Sound(g) && |s.ids| == g.totalBlockNum && |s.bytes| == BufferSize(g) && |w.data| <= BufferSize(g)
    ensures |r| == |s.bytes|
  {
    BlockFits(g);
    if Mapped(g, s.ids, w.pos, |w.data|) then Overlay(s.bytes, w.pos % BufferSize(g), w.data) else s.bytes
  }

  ghost predicate Writable(g: Geometry, s: State, w: Write) {
    Shaped(g, s) && w.thread < |s.writers| && w.thread < g.rssNum && |w.data| <= BufferSize(g)
  }

  /** The whole state after a write; the write succeeds when both blocks are mapped. */
  ghost function AfterWrite(g: Geometry, s: State, w: Write): State
    requires Writable(g, s, w)
  {
    State(s.ids, NewStarts(g, s, w), NewEnds(g, s, w), NewCounts(g, s, w),
          if w.newData then s.writers[w.thread := ReachedDisk(g, s.ids, w)] else s.writers,
          s.checks, NewBytes(g, s, w))
  }

  ghost predicate Succeeds(g: Geometry, s: State, w: Write)
    requires Writable(g, s, w)
  {
    Mapped(g, s.ids, w.pos, |w.data|)
  }

  lemma AfterWriteShaped(g: Geometry, s: State, w: Write)
    requires Writable(g, s, w)
    ensures Shaped(g, AfterWrite(g, s, w))
  {
    hide NewStarts, NewEnds, NewCounts, NewBytes, ReachedDisk;
    assert AfterWrite(g, s, w).ids == s.ids;
  }

  // ----- the three ways a write can end

  lemma FirstUnmapped(g: Geometry, s: State, w: Write)
    requires Writable(g, s, w) && s.ids[FirstBlock(g, w)] != (w.pos / g.blockSize) % g.diskBlockNum
    ensures !Succeeds(g, s, w)
    ensures AfterWrite(g, s, w)
         == if w.newData then s.(writers := s.writers[w.thread := (w.pos / g.blockSize) % g.diskBlockNum]) else s
  {
    hide Overlay, Mark, OnMark, BufferSize, Min;
  }

  lemma NextUnmapped(g: Geometry, s: State, w: Write)
    requires Writable(g, s, w) && Crosses(g, w) && s.ids[FirstBlock(g, w)] == (w.pos / g.blockSize) % g.diskBlockNum
    requires s.ids[LastBlock(g, w)] != ((w.pos / g.blockSize) % g.diskBlockNum + 1) % g.diskBlockNum
    ensures !Succeeds(g, s, w)
    ensures AfterWrite(g, s, w)
         == if w.newData then
              s.(ends := s.ends[FirstBlock(g, w) := w.ts],
                 writers := s.writers[w.thread := ((w.pos / g.blockSize) % g.diskBlockNum + 1) % g.diskBlockNum])
            else s
  {
    hide Overlay, Mark, OnMark, BufferSize, Min;
  }

  lemma BothMapped(g: Geometry, s: State, w: Write)
    requires Writable(g, s, w) && s.ids[FirstBlock(g, w)] == (w.pos / g.blockSize) % g.diskBlockNum
    requires Crosses(g, w) ==> s.ids[LastBlock(g, w)] == ((w.pos / g.blockSize) % g.diskBlockNum + 1) % g.diskBlockNum
    ensures Succeeds(g, s, w)
    ensures BufferSize(g) > 0
    ensures var t := AfterWrite(g, s, w);
            var ends := if w.newData && Crosses(g, w) then s.ends[FirstBlock(g, w) := w.ts] else s.ends;
            var last, next := LastBlock(g, w), (LastBlock(g, w) + 1) % g.totalBlockNum;
            var starts := if w.newData && Crosses(g, w) then s.starts[last := Min(s.starts[last], w.ts)] else s.starts;
            && t.ids == s.ids && t.checks == s.checks
            && t.bytes == Overlay(s.bytes, w.pos % BufferSize(g), w.data)
            && t.ends == (if w.newData && OnMark(g, w) then ends[last := w.ts] else ends)
            && t.starts == (if w.newData && OnMark(g, w) then starts[next := Min(starts[next], w.ts)] else starts)
            && CountIndex(g, w) < |s.counts|
            && t.counts == (if w.newData && w.newIndex then s.counts[CountIndex(g, w) := s.counts[CountIndex(g, w)] + 1]
                            else s.counts)
            && t.writers == (if w.newData then s.writers[w.thread := ReachedDisk(g, s.ids, w)] else s.writers)
  {
    hide Overlay, Mark, OnMark, BufferSize, Min;
    CountInRange(g, w);
    BlockFits(g);
  }

  lemma SuccessMapped(g: Geometry, s: State, w: Write)
    requires Writable(g, s, w) && Succeeds(g, s, w)
    ensures s.ids[FirstBlock(g, w)] == (w.pos / g.blockSize) % g.diskBlockNum
    ensures Crosses(g, w) ==> s.ids[LastBlock(g, w)] == ((w.pos / g.blockSize) % g.diskBlockNum + 1) % g.diskBlockNum
  {
  }

  /** A write of at most two blocks, the limit that TouchedIff gives for the two checks. */
  predicate InTwoBlocks(g: Geometry, w: Write)
    requires Sound(g)
  {
    w.pos % g.blockSize + |w.data| <= 2 * g.blockSize
  }

  /** An accepted write is a write to the disk, seen through the window; a refused one changes no byte. */
  lemma WriteIsDiskWrite(g: Geometry, s: State, w: Write, a: nat)
    requires Writable(g, s, w) && g.diskBlockNum % g.totalBlockNum == 0 && InTwoBlocks(g, w)
    requires a < DiskSize(g) && BlockMapped(g, s.ids, a)
    ensures BufferSize(g) > 0 && |AfterWrite(g, s, w).bytes| == |s.bytes| == BufferSize(g)
    ensures var k := Offset(a, w.pos % DiskSize(g), DiskSize(g));
            AfterWrite(g, s, w).bytes[a % BufferSize(g)]
            == if Succeeds(g, s, w) && k < |w.data| then w.data[k] else s.bytes[a % BufferSize(g)]
  {
    hide Overlay, Mapped, BlockMapped, NewStarts, NewEnds, NewCounts, ReachedDisk, DiskSize, BufferSize;
    BlockFits(g);
    if Succeeds(g, s, w) {
      WindowWrite(g, s.ids, s.bytes, w.pos, w.data, a);
    }
  }

  function PacketSum(g: Geometry, counts: seq<nat>, block: nat, n: nat): nat
    requires |counts| == g.totalBlockNum * g.rssNum && n <= g.rssNum && block < g.totalBlockNum
  {
    if n == 0 then 0
    else
      MulMono(n - 1, g.rssNum - 1, g.totalBlockNum);
      PacketSum(g, counts, block, n - 1) + counts[block + g.totalBlockNum * (n - 1)]
  }

  // ----- handing out and recycling

  function Cleared(counts: seq<nat>, block: nat, t: nat): (r: seq<nat>)
    requires t > 0
    ensures |r| == |counts| && forall j :: 0 <= j < |r| ==> r[j] == if j % t == block then 0 else counts[j]
  {
    seq(|counts|, j requires 0 <= j < |counts| => if j % t == block then 0 else counts[j])
  }

  /** What `getBlock` hands to a check thread. */
  function HandedOut(g: Geometry, s: State, thread: nat): DataBlock
    requires Sound(g) && thread < |s.checks| && s.checks[thread] < |s.ids| == |s.starts| == |s.ends| == g.totalBlockNum
    requires |s.counts| == g.totalBlockNum * g.rssNum && |s.bytes| == BufferSize(g)
  {
    var b := s.checks[thread];
    BlockInBuffer(g, b);
    DataBlock(b, s.ids[b], s.starts[b], s.ends[b], PacketSum(g, s.counts, b, g.rssNum),
              s.bytes[b * g.blockSize..(b + 1) * g.blockSize])
  }

  lemma BlockInBuffer(g: Geometry, b: nat)
    requires Sound(g) && b < g.totalBlockNum
    ensures b * g.blockSize <= (b + 1) * g.blockSize <= BufferSize(g)
    ensures (b + 1) * g.blockSize == b * g.blockSize + g.blockSize
  {
    MulMono(b, b + 1, g.blockSize);
    MulMono(b + 1, g.totalBlockNum, g.blockSize);
  }

  /** The state after that: the counts of the block start again, and the thread moves on by the number of threads. */
  function AfterHandOut(g: Geometry, s: State, thread: nat): State
    requires Sound(g) && thread < |s.checks|
  {
    s.(counts := Cleared(s.counts, s.checks[thread], g.totalBlockNum),
       checks := s.checks[thread := (s.checks[thread] + |s.checks|) % g.totalBlockNum])
  }

  function AfterRecycle(g: Geometry, s: State, block: nat): State
    requires Sound(g) && block < |s.ids|
  {
    s.(ids := s.ids[block := Recycled(s.ids[block], g)])
  }

  class DataBlockBuffer {
    const totalBlockNum: nat
    const blockSize: nat
    const bufferSize: nat
    const diskBlockNum: nat
    const rssNum: nat
    const delayedBlockNum: nat

    const bufferBlocks: array<Byte>
    const blockDiskId: array<nat>
    const startTimes: array<U64>
    const endTimes: array<U64>
    const packetCounts: array<nat>
    var diskWriteIds: seq<nat>
    var blockCheckIds: seq<nat>

    ghost function Shape(): Geometry {
      Geometry(totalBlockNum, blockSize, diskBlockNum, rssNum)
    }

    ghost function View(): State
      reads this, bufferBlocks, blockDiskId, startTimes, endTimes, packetCounts
    {
      State(blockDiskId[..], startTimes[..], endTimes[..], packetCounts[..], diskWriteIds, blockCheckIds, bufferBlocks[..])
    }

    ghost predicate Valid()
      reads this, bufferBlocks, blockDiskId, startTimes, endTimes, packetCounts
    {
      Separate() && Shaped(Shape(), View())
    }

    ghost predicate Separate() {
      && bufferSize == BufferSize(Shape())
      && blockDiskId != packetCounts && startTimes != endTimes
    }

    /** `checkRSS` */
    predicate CheckRSS(blockCheckId: nat, rssId: nat)
      requires blockCheckId < blockDiskId.Length && rssId < |diskWriteIds| && totalBlockNum * 2 < diskBlockNum
      reads this, blockDiskId
    {
      BlockWindow.CheckRSS(diskWriteIds[rssId], blockDiskId[blockCheckId], delayedBlockNum,
                           Geometry(totalBlockNum, blockSize, diskBlockNum, rssNum))
    }

    /** How far writer i is ahead of the right barrier of a block. */
    ghost function Distance(block: nat, i: nat, delay: nat): nat
      requires block < blockDiskId.Length && i < |diskWriteIds| && diskBlockNum > 0
      reads this, blockDiskId
    {
      Ahead(diskWriteIds[i], (blockDiskId[block] + delay) % diskBlockNum, diskBlockNum)
    }

    lemma ShapedIds()
      requires Valid()
      ensures Sound(Shape()) && blockDiskId.Length == startTimes.Length == endTimes.Length == totalBlockNum
      ensures packetCounts.Length == totalBlockNum * rssNum && bufferBlocks.Length == BufferSize(Shape())
      ensures forall b :: 0 <= b < totalBlockNum ==> blockDiskId[b] < diskBlockNum
      ensures forall i :: 0 <= i < |diskWriteIds| ==> diskWriteIds[i] < diskBlockNum
      ensures forall i :: 0 <= i < |blockCheckIds| ==> blockCheckIds[i] < totalBlockNum
    {
      assert View().ids == blockDiskId[..] && View().writers == diskWriteIds && View().checks == blockCheckIds;
      assert |View().counts| == packetCounts.Length && |View().bytes| == bufferBlocks.Length;
      forall b | 0 <= b < totalBlockNum
        ensures blockDiskId[b] < diskBlockNum
      {
        assert View().ids[b] == blockDiskId[b];
      }
    }

    /** `checkBlock`: the thread's next block, once every writer is outside the barrier interval; else the largest word. */
    method CheckBlock(threadId: nat) returns (r: nat)
      requires Valid() && threadId < |blockCheckIds| && rssNum <= |diskWriteIds| && totalBlockNum < MAX_U64
      ensures r == blockCheckIds[threadId] || r == MAX_U64
      ensures r == blockCheckIds[threadId] <==>
              forall i :: 0 <= i < rssNum ==>
                1 <= Distance(blockCheckIds[threadId], i, delayedBlockNum) <= diskBlockNum - 2 * totalBlockNum - 1
    {
      hide View, Ahead, LeftBarrier, BlockWindow.CheckRSS, BlockWindow.DirectCheckRSS;
      ShapedIds();
      var blockCheckId := blockCheckIds[threadId];
      for i := 0 to rssNum
        invariant forall k :: 0 <= k < i ==>
          1 <= Distance(blockCheckId, k, delayedBlockNum) <= diskBlockNum - 2 * totalBlockNum - 1
      {
        CheckRSSExact(diskWriteIds[i], blockDiskId[blockCheckId], delayedBlockNum, Shape());
        if !CheckRSS(blockCheckId, i) {
          assert !(1 <= Distance(blockCheckId, i, delayedBlockNum) <= diskBlockNum - 2 * totalBlockNum - 1);
          return MAX_U64;
        }
      }
      r := blockCheckId;
    }

    /** `directGetBlockID`: the thread's next block, once some writer is outside the narrower interval. */
    method DirectGetBlockID(threadId: nat) returns (r: nat)
      requires Valid() && threadId < |blockCheckIds| && rssNum <= |diskWriteIds| && totalBlockNum < MAX_U64
      ensures r == blockCheckIds[threadId] || r == MAX_U64
      ensures r == blockCheckIds[threadId] <==>
              exists i :: 0 <= i < rssNum && Distance(blockCheckIds[threadId], i, 0) <= diskBlockNum - 2 * totalBlockNum - 1
    {
      hide View, Ahead, LeftBarrier, BlockWindow.CheckRSS, BlockWindow.DirectCheckRSS;
      ShapedIds();
      var blockCheckId := blockCheckIds[threadId];
      for i := 0 to rssNum
        invariant forall k :: 0 <= k < i ==> Distance(blockCheckId, k, 0) > diskBlockNum - 2 * totalBlockNum - 1
      {
        DirectCheckRSSExact(diskWriteIds[i], blockDiskId[blockCheckId], Shape());
        WrapOnce(blockDiskId[blockCheckId], diskBlockNum);
        var g := Geometry(totalBlockNum, blockSize, diskBlockNum, rssNum);
        if DirectCheckRSS(diskWriteIds[i], blockDiskId[blockCheckId], g) {
          assert Distance(blockCheckId, i, 0) <= diskBlockNum - 2 * totalBlockNum - 1;
          return blockCheckId;
        }
      }
      r := MAX_U64;
    }

    /** `recycleBlock` */
    method RecycleBlock(blockId: nat)
      requires Valid() && blockId < totalBlockNum
      modifies blockDiskId
      ensures Valid()
      ensures View() == AfterRecycle(Shape(), old(View()), blockId)
      ensures diskBlockNum % totalBlockNum == 0 && Aligned(old(View()).ids, Shape()) ==> Aligned(View().ids, Shape())
    {
      if diskBlockNum % totalBlockNum == 0 {
        RecycledAligned(blockDiskId[blockId], Shape());
      }
      var diskId := blockDiskId[blockId];
      diskId := diskId + totalBlockNum;
      diskId := diskId % diskBlockNum;
      blockDiskId[blockId] := diskId;
      assert blockDiskId[..] == old(blockDiskId[..])[blockId := diskId];
    }

    /** The two copies of `writeBlock`. */
    method CopyIn(data: seq<Byte>, blockPos: nat)
      requires blockPos < bufferBlocks.Length == bufferSize && |data| <= bufferSize
      modifies bufferBlocks
      ensures bufferBlocks[..] == Overlay(old(bufferBlocks[..]), blockPos, data)
    {
      if blockPos + |data| > bufferSize {
        var tmp := bufferSize - blockPos;
        ghost var s := bufferBlocks[..];
        Copy(bufferBlocks, blockPos, data[..tmp]);
        Copy(bufferBlocks, 0, data[tmp..]);
        TwoCopies(s, blockPos, data);
      } else {
        Copy(bufferBlocks, blockPos, data);
      }
    }

    static lemma TwoCopies(s: seq<Byte>, at: nat, data: seq<Byte>)
      requires at < |s| < at + |data| && |data| <= |s|
      ensures var tmp := |s| - at;
              var t := s[..at] + data[..tmp] + s[at + tmp..];
              t[..0] + data[tmp..] + t[|data| - tmp..] == Overlay(s, at, data)
    {
      var tmp := |s| - at;
      var t := s[..at] + data[..tmp] + s[at + tmp..];
      assert t[|data| - tmp..] == s[|data| - tmp..at] + data[..tmp];
    }

    /** `end_times[i] = ts` */
    method SetEnd(i: nat, ts: U64)
      requires i < endTimes.Length
      modifies endTimes
      ensures endTimes[..] == old(endTimes[..])[i := ts]
    {
      endTimes[i] := ts;
    }

    /** `start_times[i] = min(start_times[i], ts)` */
    method LowerStart(i: nat, ts: U64)
      requires i < startTimes.Length
      modifies startTimes
      ensures startTimes[..] == old(startTimes[..])[i := Min(old(startTimes[i]), ts)]
    {
      startTimes[i] := Min(startTimes[i], ts);
    }

    /** A block ends and the next one starts. */
    method RenewTimes(blockId: nat, ts: U64)
      requires totalBlockNum == startTimes.Length == endTimes.Length > blockId && startTimes != endTimes
      modifies startTimes, endTimes
      ensures var next := (blockId + 1) % totalBlockNum;
              && endTimes[..] == old(endTimes[..])[blockId := ts]
              && next < |old(startTimes[..])|
              && startTimes[..] == old(startTimes[..])[next := Min(old(startTimes[..])[next], ts)]
    {
      SetEnd(blockId, ts);
      LowerStart((blockId + 1) % totalBlockNum, ts);
    }

    /** `packet_counts[i]++` */
    method CountPacket(i: nat)
      requires i < packetCounts.Length
      modifies packetCounts
      ensures packetCounts[..] == old(packetCounts[..])[i := old(packetCounts[i]) + 1]
    {
      packetCounts[i] := packetCounts[i] + 1;
    }

    /** The end of `writeBlock`: the bytes, the writer's position and its packet count. */
    method Store(data: seq<Byte>, blockPos: nat, diskId: nat, countId: nat, threadId: nat, newData: bool, newIndex: bool)
      requires blockPos < bufferBlocks.Length == bufferSize && |data| <= bufferSize
      requires threadId < |diskWriteIds| && countId < packetCounts.Length && blockDiskId != packetCounts
      modifies this`diskWriteIds, bufferBlocks, packetCounts
      ensures bufferBlocks[..] == Overlay(old(bufferBlocks[..]), blockPos, data)
      ensures diskWriteIds == if newData then old(diskWriteIds)[threadId := diskId] else old(diskWriteIds)
      ensures packetCounts[..] == if newData && newIndex then old(packetCounts[..])[countId := old(packetCounts[countId]) + 1]
                                  else old(packetCounts[..])
    {
      CopyIn(data, blockPos);
      if newData {
        diskWriteIds := diskWriteIds[threadId := diskId];
        if newIndex {
          CountPacket(countId);
        }
      }
    }

    /** The first half of `writeBlock`: the mapping checks and the block times. */
    method ClaimBlocks(ghost w: Write, len: nat, diskPos: nat, threadId: nat, newData: bool, ts: U64)
      returns (ok: bool, diskId: nat)
      requires Separate() && Writable(Shape(), View(), w)
      requires len == |w.data| && diskPos == w.pos && threadId == w.thread && newData == w.newData && ts == w.ts
      modifies this`diskWriteIds, startTimes, endTimes
      ensures ok == Succeeds(Shape(), old(View()), w)
      ensures !ok ==> View() == AfterWrite(Shape(), old(View()), w)
      ensures ok ==> diskId == ReachedDisk(Shape(), old(View()).ids, w)
      ensures ok ==> View() == old(View()).(starts := AfterWrite(Shape(), old(View()), w).starts,
                                            ends := AfterWrite(Shape(), old(View()), w).ends)
    {
      hide Overlay, Mark, BufferSize, Mapped, NewStarts, NewEnds, NewCounts, NewBytes, Succeeds, AfterWrite;
      ghost var g, s := Shape(), View();
      MarkIs(g);
      var blockId := (diskPos / blockSize) % totalBlockNum;
      diskId := (diskPos / blockSize) % diskBlockNum;
      var blockOffset := diskPos % blockSize;
      if blockDiskId[blockId] != diskId {
        FirstUnmapped(g, s, w);
        if newData {
          diskWriteIds := diskWriteIds[threadId := diskId];
        }
        return false, diskId;
      }
      if blockOffset + len >= blockSize {
        if newData {
          SetEnd(blockId, ts);
        }
        blockId := (blockId + 1) % totalBlockNum;
        diskId := (diskId + 1) % diskBlockNum;
        if blockDiskId[blockId] != diskId {
          NextUnmapped(g, s, w);
          if newData {
            diskWriteIds := diskWriteIds[threadId := diskId];
          }
          return false, diskId;
        }
        if newData {
          LowerStart(blockId, ts);
        }
      }
      BothMapped(g, s, w);
      if (blockOffset + len) % (blockSize / rssNum) == 0 {
        if newData {
          RenewTimes(blockId, ts);
        }
      }
      ok := true;
    }

    /** `writeBlock`; false, with no byte changed, when a block is not mapped to the disk block it would serve. */
    method WriteBlock(data: seq<Byte>, diskPos: nat, threadId: nat, newData: bool, newIndex: bool, ts: U64) returns (ok: bool)
      requires Separate() && Writable(Shape(), View(), Write(data, diskPos, threadId, newData, newIndex, ts))
      modifies this`diskWriteIds, bufferBlocks, startTimes, endTimes, packetCounts
      ensures Valid()
      ensures ok == Succeeds(Shape(), old(View()), Write(data, diskPos, threadId, newData, newIndex, ts))
      ensures View() == AfterWrite(Shape(), old(View()), Write(data, diskPos, threadId, newData, newIndex, ts))
    {
      hide Overlay, Mark, BufferSize, Mapped, NewStarts, NewEnds, NewCounts, NewBytes, Succeeds, AfterWrite, ReachedDisk;
      ghost var g, s, w := Shape(), View(), Write(data, diskPos, threadId, newData, newIndex, ts);
      AfterWriteShaped(g, s, w);
      BlockFits(g);
      var diskId;
      ok, diskId := ClaimBlocks(w, |data|, diskPos, threadId, newData, ts);
      if !ok {
        return;
      }
      SuccessMapped(g, s, w);
      BothMapped(g, s, w);
      Store(data, diskPos % bufferSize, diskId, (diskPos / blockSize) % totalBlockNum + totalBlockNum * threadId,
            threadId, newData, newIndex);
    }

    static lemma MarkIs(g: Geometry)
      requires Sound(g)
      ensures Mark(g) == g.blockSize / g.rssNum > 0
    {
    }

    /** `getBlock`: the thread's block with the packets all writers counted in it; the counts start again from zero, and
        the thread moves on by the number of check threads. */
    method GetBlock(threadId: nat) returns (block: DataBlock)
      requires Valid() && threadId < |blockCheckIds|
      modifies this`blockCheckIds, packetCounts
      ensures Valid()
      ensures block == HandedOut(Shape(), old(View()), threadId)
      ensures block.blockId == old(blockCheckIds)[threadId] < totalBlockNum
      ensures blockCheckIds
           == old(blockCheckIds)[threadId := (old(blockCheckIds)[threadId] + |old(blockCheckIds)|) % totalBlockNum]
      ensures View() == AfterHandOut(Shape(), old(View()), threadId)
    {
      hide PacketSum, BufferSize, Shaped;
      ghost var g, s := Shape(), View();
      ShapedIds();
      var blockId := blockCheckIds[threadId];
      var count := SumPackets(blockId);
      BlockInBuffer(Shape(), blockId);
      var buffer := bufferBlocks[blockId * blockSize..(blockId + 1) * blockSize];
      block := DataBlock(blockId, blockDiskId[blockId], startTimes[blockId], endTimes[blockId], count, buffer);
      ResetPackets(blockId);
      blockCheckIds := blockCheckIds[threadId := blockCheckIds[threadId] + |blockCheckIds|];
      blockCheckIds := blockCheckIds[threadId := blockCheckIds[threadId] % totalBlockNum];
      assert packetCounts[..] == Cleared(s.counts, blockId, totalBlockNum);
      assert View() == AfterHandOut(g, s, threadId);
      HandOutShaped(g, s, threadId);
    }

    static lemma HandOutShaped(g: Geometry, s: State, thread: nat)
      requires Shaped(g, s) && thread < |s.checks|
      ensures Shaped(g, AfterHandOut(g, s, thread))
    {
    }

    /** The first loop of `getBlock`. */
    method SumPackets(blockId: nat) returns (count: nat)
      requires Sound(Shape()) && packetCounts.Length == totalBlockNum * rssNum && blockId < totalBlockNum
      ensures count == PacketSum(Shape(), packetCounts[..], blockId, rssNum)
    {
      count := 0;
      for i := 0 to rssNum
        invariant count == PacketSum(Shape(), packetCounts[..], blockId, i)
      {
        MulMono(i, rssNum - 1, totalBlockNum);
        count := count + packetCounts[blockId + totalBlockNum * i];
      }
    }

    /** The second loop of `getBlock`. */
    method ResetPackets(blockId: nat)
      requires Sound(Shape()) && packetCounts.Length == totalBlockNum * rssNum && blockId < totalBlockNum
      modifies packetCounts
      ensures forall j :: 0 <= j < packetCounts.Length ==>
                packetCounts[j] == if j % totalBlockNum == blockId then 0 else old(packetCounts[j])
    {
      var i := 0;
      while i < rssNum
        invariant i <= rssNum
        invariant forall j :: 0 <= j < packetCounts.Length ==>
          packetCounts[j] == if j % totalBlockNum == blockId && j / totalBlockNum < i then 0 else old(packetCounts[j])
      {
        CountPlace(blockId, i, totalBlockNum, rssNum);
        packetCounts[blockId + totalBlockNum * i] := 0;
        i := i + 1;
      }
      forall j | 0 <= j < packetCounts.Length
        ensures j / totalBlockNum < rssNum
      {
        QuotientBelow(j, totalBlockNum, rssNum);
      }
    }

    static lemma CountPlace(b: nat, i: nat, t: nat, n: nat)
      requires b < t && i < n
      ensures b + t * i < t * n && (b + t * i) % t == b && (b + t * i) / t == i
      ensures forall j: nat :: j % t == b && j / t == i ==> j == b + t * i
    {
      MulMono(i, n - 1, t);
      DivUnique(b + t * i, t, i, b);
    }

    static lemma QuotientBelow(j: nat, t: nat, n: nat)
      requires 0 < t && j < t * n
      ensures j / t < n
    {
      if j / t >= n {
        DivAtLeast(j, t, n);
      }
    }

    /** `addWriteThread` */
    method AddWriteThread() returns (id: nat)
      requires Valid()
      modifies this`diskWriteIds
      ensures Valid()
      ensures |old(diskWriteIds)| >= totalBlockNum ==> id == MAX_U64 && View() == old(View())
      ensures |old(diskWriteIds)| < totalBlockNum ==>
                id == |old(diskWriteIds)| && View() == old(View()).(writers := old(View()).writers + [id])
    {
      id := |diskWriteIds|;
      if id >= totalBlockNum {
        return MAX_U64;
      }
      diskWriteIds := diskWriteIds + [id];
    }

    /** `addCheckThread` */
    method AddCheckThread() returns (id: nat)
      requires Valid()
      modifies this`blockCheckIds
      ensures Valid()
      ensures |old(blockCheckIds)| >= totalBlockNum ==> id == MAX_U64 && View() == old(View())
      ensures |old(blockCheckIds)| < totalBlockNum ==>
                id == |old(blockCheckIds)| && View() == old(View()).(checks := old(View()).checks + [id])
    {
      id := |blockCheckIds|;
      if id >= totalBlockNum {
        return MAX_U64;
      }
      blockCheckIds := blockCheckIds + [id];
    }

    constructor (totalBlockNum: nat, blockSize: nat, diskBlockNum: nat, rssNum: nat, delayedBlockNum: nat)
      ensures Shape() == Geometry(totalBlockNum, blockSize, diskBlockNum, rssNum)
      ensures this.delayedBlockNum == delayedBlockNum && diskWriteIds == [] && blockCheckIds == []
      ensures Sound(Shape()) ==> Valid() && Fresh(Shape(), View())
    {
      hide Sound, Fresh, Shaped;
      this.totalBlockNum, this.blockSize, this.diskBlockNum := totalBlockNum, blockSize, diskBlockNum;
      this.rssNum, this.delayedBlockNum := rssNum, delayedBlockNum;
      bufferSize := blockSize * totalBlockNum;
      bufferBlocks := new Byte[blockSize * totalBlockNum](_ => 0);
      blockDiskId := new nat[totalBlockNum](i => i);
      startTimes := new U64[totalBlockNum](_ => MAX_U64);
      endTimes := new U64[totalBlockNum](_ => 0);
      packetCounts := new nat[totalBlockNum * rssNum](_ => 0);
      diskWriteIds, blockCheckIds := [], [];
      new;
      if Sound(Shape()) {
        IsFresh(Shape(), View());
      }
    }

    /** The checks of the constructor; None where it throws, also because no memory can be mapped for an empty buffer. */
    static method Create(totalBlockNum: nat, blockSize: nat, diskBlockNum: nat, rssNum: nat, delayedBlockNum: nat)
      returns (r: Option<DataBlockBuffer>)
      ensures r.Some? <==> IsPowerOfTwo(totalBlockNum * blockSize) && totalBlockNum * 4 < diskBlockNum
      ensures r.Some? ==> fresh(r.value) && r.value.Shape() == Geometry(totalBlockNum, blockSize, diskBlockNum, rssNum)
      ensures r.Some? && 0 < rssNum <= blockSize ==>
                r.value.Valid() && Aligned(r.value.View().ids, r.value.Shape())
    {
      hide Shaped, Aligned, DataBlockBuffer.View;
      if totalBlockNum * blockSize == 0 {
        return None;
      }
      SizesPositive(totalBlockNum, blockSize);
      PowerOfTwoTest(totalBlockNum * blockSize);
      if BitAnd(totalBlockNum * blockSize, totalBlockNum * blockSize - 1) != 0 {
        return None;
      }
      if totalBlockNum * 4 >= diskBlockNum {
        return None;
      }
      var buffer := new DataBlockBuffer(totalBlockNum, blockSize, diskBlockNum, rssNum, delayedBlockNum);
      if 0 < rssNum <= blockSize {
        FreshAligned(buffer.Shape(), buffer.View());
      }
      r := Some(buffer);
    }

    static lemma SizesPositive(a: nat, b: nat)
      requires a * b != 0
      ensures a > 0 && b > 0
    {
    }
  }
}
