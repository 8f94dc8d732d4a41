/** Packets laid end to end across linked cells of fixed size: `getOffset` and `writePacketToPacketBuffer`
    of src/probe/dpdkCapture.cpp. */
module CellLog {
  import opened Bytes
  import opened Buffers

  /** Length of a packet header, bytes per cell, cells and bytes on disk. */
  datatype Config = Config(headerLen: nat, cellSize: nat, cellNum: nat, diskSize: nat)

  const POINTER_SIZE := 8

  ghost predicate Sound(g: Config) {
    POINTER_SIZE < g.cellSize && 0 < g.cellNum && Base(g, g.cellNum) <= g.diskSize <= MAX_U64
  }

  function Base(g: Config, cell: nat): nat {
    cell * g.cellSize
  }

  /** Packet bytes per cell: the last eight bytes hold the number of the next cell. */
  function Room(g: Config): nat
    requires POINTER_SIZE < g.cellSize
  {
    g.cellSize - POINTER_SIZE
  }

  lemma CellInside(g: Config, cell: nat)
    requires Sound(g) && cell < g.cellNum
    ensures Base(g, cell) + g.cellSize <= Base(g, g.cellNum)
  {
    MulMono(cell + 1, g.cellNum, g.cellSize);
  }

  lemma CellsApart(g: Config, a: nat, b: nat)
    requires a != b
    ensures Base(g, a) + g.cellSize <= Base(g, b) || Base(g, b) + g.cellSize <= Base(g, a)
  {
    if a < b {
      MulMono(a + 1, b, g.cellSize);
    } else {
      MulMono(b + 1, a, g.cellSize);
    }
  }

  // ----- the write position

  /** `writeOffset` after `getOffset` */
  function Advance(g: Config, w: nat, total: nat): nat {
    if w + total + POINTER_SIZE > g.cellSize then w + total + POINTER_SIZE else w + total
  }

  /** Whatever the position, a packet fits this and the next cell exactly when header, data and one pointer fit a cell. */
  lemma FitsIff(g: Config, total: nat)
    requires POINTER_SIZE < g.cellSize
    ensures (forall w: nat :: w <= Room(g) ==> InTwoCells(g, w, total)) <==> total + POINTER_SIZE <= g.cellSize
  {
    if total + POINTER_SIZE > g.cellSize {
      assert !InTwoCells(g, Room(g), total);
    }
  }

  predicate InTwoCells(g: Config, w: nat, total: nat)
    requires POINTER_SIZE < g.cellSize
  {
    w + total <= 2 * Room(g)
  }

  // ----- the log

  /** The cells visited, all bytes of each full one, and what the current one holds so far. */
  datatype Trail = Trail(cells: seq<nat>, full: seq<seq<Byte>>, tail: seq<Byte>)

  ghost predicate Valid(g: Config, t: Trail) {
    && Sound(g)
    && |t.cells| == |t.full| + 1
    && (forall k :: 0 <= k < |t.cells| ==> t.cells[k] < g.cellNum)
    && (forall k :: 0 <= k < |t.full| ==> |t.full[k]| == g.cellSize)
    && |t.tail| <= Room(g)
    && Distinct(t.cells)
  }

  ghost predicate Distinct(s: seq<nat>) {
    s == [] || (s[|s| - 1] !in s[..|s| - 1] && Distinct(s[..|s| - 1]))
  }

  function Current(t: Trail): nat
    requires t.cells != []
  {
    t.cells[|t.cells| - 1]
  }

  /** A full cell without its pointer. */
  function Chunk(g: Config, c: seq<Byte>): seq<Byte>
    requires POINTER_SIZE < g.cellSize
  {
    if Room(g) <= |c| then c[..Room(g)] else c
  }

  /** The log from the start of the k-th cell on. */
  function LogFrom(g: Config, t: Trail, k: nat): seq<Byte>
    requires POINTER_SIZE < g.cellSize && k <= |t.full|
    decreases |t.full| - k
  {
    if k == |t.full| then t.tail else Chunk(g, t.full[k]) + LogFrom(g, t, k + 1)
  }

  function Append(g: Config, t: Trail, record: seq<Byte>, next: nat): Trail
    requires POINTER_SIZE < g.cellSize && |t.tail| <= Room(g)
  {
    if |t.tail| + |record| <= Room(g) then t.(tail := t.tail + record)
    else
      var rest := Room(g) - |t.tail|;
      Trail(t.cells + [next], t.full + [t.tail + record[..rest] + Enc(next, POINTER_SIZE)], record[rest..])
  }

  lemma {:induction false} AppendLog(g: Config, t: Trail, record: seq<Byte>, next: nat, k: nat)
    requires POINTER_SIZE < g.cellSize && |t.tail| <= Room(g) && k <= |t.full|
    ensures |Append(g, t, record, next).full| >= |t.full|
    ensures LogFrom(g, Append(g, t, record, next), k) == LogFrom(g, t, k) + record
    decreases |t.full| - k
  {
    hide Enc;
    var t' := Append(g, t, record, next);
    if k < |t.full| {
      AppendLog(g, t, record, next, k + 1);
      SeqAssoc(Chunk(g, t.full[k]), LogFrom(g, t, k + 1), record);
    } else if |t.full| < |t'.full| {
      var rest := Room(g) - |t.tail|;
      assert LogFrom(g, t', k + 1) == record[rest..];
      assert Chunk(g, t'.full[k]) == t.tail + record[..rest];
      assert (t.tail + record[..rest]) + record[rest..] == t.tail + record;
    }
  }

  lemma AppendValid(g: Config, t: Trail, record: seq<Byte>, next: nat)
    requires Valid(g, t) && |t.tail| + |record| <= 2 * Room(g)
    requires |t.tail| + |record| > Room(g) ==> next < g.cellNum && next !in t.cells
    ensures Valid(g, Append(g, t, record, next))
  {
    hide Enc;
    assert (t.cells + [next])[..|t.cells|] == t.cells;
  }

  /** The k-th cell's w-th byte, counted in the log. */
  function Position(g: Config, k: nat, w: nat): (n: nat)
    requires POINTER_SIZE < g.cellSize
    ensures n >= w
  {
    k * Room(g) + w
  }

  lemma PositionStep(g: Config, k: nat, w: nat)
    requires POINTER_SIZE < g.cellSize
    ensures Position(g, k, w) == if k == 0 then w else Room(g) + Position(g, k - 1, w)
  {
    if k > 0 { MulStep(k, Room(g)); }
  }

  lemma PositionPlus(g: Config, k: nat, w: nat)
    requires POINTER_SIZE < g.cellSize
    ensures Position(g, k, w) == Position(g, k, 0) + w
  {
  }

  /** Length of the log from a cell on. */
  lemma {:induction false} LogLength(g: Config, t: Trail, k: nat)
    requires Valid(g, t) && k <= |t.full|
    ensures |LogFrom(g, t, k)| == Position(g, |t.full| - k, |t.tail|)
    decreases |t.full| - k
  {
    hide Distinct, Base, Position;
    PositionStep(g, |t.full| - k, |t.tail|);
    if k < |t.full| {
      LogLength(g, t, k + 1);
    }
  }

  // ----- the record of a packet

  /** Data that does not fit the current cell is written as its first part, then once more from its first byte. */
  predicate SplitsData(g: Config, w: nat, len: nat)
    requires POINTER_SIZE < g.cellSize
  {
    w + g.headerLen < Room(g) < w + g.headerLen + len
  }

  function Record(g: Config, w: nat, header: seq<Byte>, data: seq<Byte>): (r: seq<Byte>)
    requires POINTER_SIZE < g.cellSize && |header| == g.headerLen
    ensures |r| == |header| + |data|
  {
    if SplitsData(g, w, |data|) then
      var first := Room(g) - w - g.headerLen;
      header + data[..first] + data[..|data| - first]
    else header + data
  }

  /** The record is the packet exactly when the data is not split or its two halves agree as far as the second reaches. */
  lemma RecordExact(g: Config, w: nat, header: seq<Byte>, data: seq<Byte>)
    requires POINTER_SIZE < g.cellSize && |header| == g.headerLen
    ensures Record(g, w, header, data) == header + data <==>
            (SplitsData(g, w, |data|) ==>
               var first := Room(g) - w - g.headerLen; data[first..] == data[..|data| - first])
  {
    if SplitsData(g, w, |data|) {
      var first := Room(g) - w - g.headerLen;
      assert header + data == header + data[..first] + data[first..];
      assert (header + data[..first] + data[..|data| - first])[g.headerLen + first..] == data[..|data| - first];
      assert (header + data[..first] + data[first..])[g.headerLen + first..] == data[first..];
    }
  }

  lemma {:induction false} LogDrop(g: Config, t: Trail, k: nat)
    requires Valid(g, t) && k <= |t.full|
    ensures Position(g, k, 0) <= |LogFrom(g, t, 0)| && LogFrom(g, t, 0)[Position(g, k, 0)..] == LogFrom(g, t, k)
  {
    hide Distinct, Base;
    LogLength(g, t, 0);
    LogLength(g, t, k);
    if k > 0 {
      LogDrop(g, t, k - 1);
      MulStep(k, Room(g));
      var rest := LogFrom(g, t, k - 1);
      assert rest[Room(g)..] == LogFrom(g, t, k);
      assert LogFrom(g, t, 0)[Position(g, k - 1, 0)..][Room(g)..] == LogFrom(g, t, 0)[Position(g, k, 0)..];
    }
  }

  function Raw(t: Trail, k: nat): seq<Byte>
    requires k <= |t.full|
  {
    if k < |t.full| then t.full[k] else t.tail
  }

  /** A stretch of the log inside one cell. */
  lemma LogInCell(g: Config, t: Trail, k: nat, w: nat, n: nat)
    requires Valid(g, t) && k <= |t.full| && w + n <= Room(g) && (k == |t.full| ==> w + n <= |t.tail|)
    ensures w + n <= |Raw(t, k)| && Position(g, k, w) + n <= |LogFrom(g, t, 0)|
    ensures LogFrom(g, t, 0)[Position(g, k, w)..Position(g, k, w) + n] == Raw(t, k)[w..w + n]
  {
    hide Distinct, Base, Position;
    LogDrop(g, t, k);
    PositionPlus(g, k, w);
    var rest := LogFrom(g, t, k);
    assert w + n <= |rest| && rest[w..w + n] == Raw(t, k)[w..w + n];
    SliceOfRest(LogFrom(g, t, 0), Position(g, k, 0), w, n);
  }

  lemma SliceOfRest(s: seq<Byte>, a: nat, w: nat, n: nat)
    requires a <= |s| && w + n <= |s| - a
    ensures s[a..][w..w + n] == s[a + w..a + w + n]
  {
  }

  // ----- the log on disk

  ghost predicate FullCells(g: Config, d: seq<Byte>, cells: seq<nat>, full: seq<seq<Byte>>)
    requires |cells| == |full| + 1
  {
    forall k :: 0 <= k < |full| ==> At(d, Base(g, cells[k]), full[k])
  }

  /** Every full cell stands on disk, and so does what the current one holds. */
  ghost predicate OnDisk(g: Config, d: seq<Byte>, t: Trail)
    requires |t.cells| == |t.full| + 1
  {
    FullCells(g, d, t.cells, t.full) && At(d, Base(g, Current(t)), t.tail)
  }

  /** Every full cell ends with the number of the next one. */
  ghost predicate Linked(g: Config, t: Trail)
    requires POINTER_SIZE < g.cellSize && |t.cells| == |t.full| + 1
  {
    forall k :: 0 <= k < |t.full| ==> PointsTo(g, t.full[k], t.cells[k + 1])
  }

  ghost predicate PointsTo(g: Config, c: seq<Byte>, next: nat)
    requires POINTER_SIZE < g.cellSize
  {
    |c| == g.cellSize && c[Room(g)..] == Enc(next, POINTER_SIZE)
  }

  lemma LinkedAt(g: Config, t: Trail, k: nat)
    requires POINTER_SIZE < g.cellSize && |t.cells| == |t.full| + 1 && Linked(g, t) && k < |t.full|
    ensures PointsTo(g, t.full[k], t.cells[k + 1])
  {
  }

  lemma AppendLinked(g: Config, t: Trail, record: seq<Byte>, next: nat)
    requires Valid(g, t) && Linked(g, t)
    ensures var t' := Append(g, t, record, next);
            |t'.cells| == |t'.full| + 1 && Linked(g, t')
  {
    hide Enc, Distinct, Base;
    var t' := Append(g, t, record, next);
    forall k | 0 <= k < |t'.full|
      ensures PointsTo(g, t'.full[k], t'.cells[k + 1])
    {
      if k < |t.full| {
        assert PointsTo(g, t.full[k], t.cells[k + 1]);
      }
    }
  }

  function NextCell(g: Config, d: seq<Byte>, cell: nat): nat
    requires POINTER_SIZE < g.cellSize
  {
    LE(Get(d, Base(g, cell) + Room(g), POINTER_SIZE))
  }

  /** n bytes from a place in a cell on, following the cell pointers. */
  function ReadFrom(g: Config, d: seq<Byte>, cell: nat, within: nat, n: nat): seq<Byte>
    requires POINTER_SIZE < g.cellSize && within <= Room(g)
    decreases n, within
  {
    if within + n <= Room(g) then Get(d, Base(g, cell) + within, n)
    else
      Get(d, Base(g, cell) + within, Room(g) - within) + ReadFrom(g, d, NextCell(g, d, cell), 0, n - (Room(g) - within))
  }

  lemma ReadInCell(s: seq<Byte>, base: nat, c: seq<Byte>, i: nat, n: nat)
    requires At(s, base, c) && i + n <= |c|
    ensures Get(s, base + i, n) == c[i..i + n]
  {
    AtPart(s, base, c, i, c[i..i + n]);
    GetAt(s, base + i, c[i..i + n]);
  }

  lemma PointerRead(g: Config, d: seq<Byte>, t: Trail, k: nat)
    requires Valid(g, t) && OnDisk(g, d, t) && k < |t.full| && PointsTo(g, t.full[k], t.cells[k + 1])
    ensures NextCell(g, d, t.cells[k]) == t.cells[k + 1]
    ensures At(d, Base(g, t.cells[k]), Chunk(g, t.full[k]))
  {
    hide Enc, LE, At, Get, Distinct;
    var c := t.full[k];
    assert c == Chunk(g, c) + Enc(t.cells[k + 1], POINTER_SIZE);
    AtJoin(d, Base(g, t.cells[k]), Chunk(g, c), Enc(t.cells[k + 1], POINTER_SIZE));
    Pow2Constants();
    CellNumberFits(g, t.cells[k + 1]);
    GetEnc(d, Base(g, t.cells[k]) + Room(g), t.cells[k + 1], POINTER_SIZE);
  }

  lemma CellNumberFits(g: Config, cell: nat)
    requires Sound(g) && cell < g.cellNum
    ensures cell <= MAX_U64
  {
    CellInside(g, cell);
    MulMono(1, g.cellSize, cell);
  }

  /** The log is read back from any place by following cell pointers, also from a place that stands on a pointer. */
  lemma {:induction false} ReadBack(g: Config, d: seq<Byte>, t: Trail, k: nat, within: nat, n: nat)
    requires Valid(g, t) && OnDisk(g, d, t) && Linked(g, t) && k <= |t.full| && within <= Room(g)
    requires within + n <= |LogFrom(g, t, k)|
    ensures ReadFrom(g, d, t.cells[k], within, n) == LogFrom(g, t, k)[within..within + n]
    decreases |t.full| - k
  {
    hide Enc, LE, At, Get, Distinct, Base, FullCells, NextCell, Linked;
    if k == |t.full| {
      ReadInCell(d, Base(g, t.cells[k]), t.tail, within, n);
    } else {
      assert PointsTo(g, t.full[k], t.cells[k + 1]) by { LinkedAt(g, t, k); }
      PointerRead(g, d, t, k);
      var c, rest := Chunk(g, t.full[k]), LogFrom(g, t, k + 1);
      if within + n <= Room(g) {
        ReadInCell(d, Base(g, t.cells[k]), c, within, n);
        assert (c + rest)[within..within + n] == c[within..within + n];
      } else {
        ReadInCell(d, Base(g, t.cells[k]), c, within, Room(g) - within);
        ReadBack(g, d, t, k + 1, 0, n - (Room(g) - within));
        var n' := n - (Room(g) - within);
        assert ReadFrom(g, d, t.cells[k], within, n)
            == Get(d, Base(g, t.cells[k]) + within, Room(g) - within) + ReadFrom(g, d, t.cells[k + 1], 0, n');
        assert (c + rest)[within..within + n] == c[within..] + rest[0..n'];
      }
    }
  }

  // ----- one packet

  datatype Arrival = Arrival(header: seq<Byte>, data: seq<Byte>, nextCell: nat)

  function Total(p: Arrival): nat {
    |p.header| + |p.data|
  }

  function RecordOf(g: Config, t: Trail, p: Arrival): (r: seq<Byte>)
    requires POINTER_SIZE < g.cellSize && |p.header| == g.headerLen
    ensures |r| == Total(p)
  {
    Record(g, |t.tail|, p.header, p.data)
  }

  function Step(g: Config, t: Trail, p: Arrival): Trail
    requires POINTER_SIZE < g.cellSize && |p.header| == g.headerLen && |t.tail| <= Room(g)
  {
    Append(g, t, RecordOf(g, t, p), p.nextCell)
  }

  /** What one packet needs: its size fits two cells, and a new cell, when one is taken, is not in the trail yet. */
  ghost predicate Feasible(g: Config, t: Trail, p: Arrival) {
    && Valid(g, t) && |p.header| == g.headerLen
    && InTwoCells(g, |t.tail|, Total(p))
    && (|t.tail| + Total(p) > Room(g) ==> p.nextCell < g.cellNum && p.nextCell !in t.cells)
  }

  lemma StepValid(g: Config, t: Trail, p: Arrival)
    requires Feasible(g, t, p)
    ensures Valid(g, Step(g, t, p))
  {
    hide Distinct, Base, Record;
    AppendValid(g, t, RecordOf(g, t, p), p.nextCell);
  }

  /** Writing a packet extends the log by its record, keeps the cells and pointers of the log, and may add one cell. */
  lemma StepExtends(g: Config, t: Trail, p: Arrival, k: nat)
    requires Feasible(g, t, p) && k <= |t.full|
    ensures var t' := Step(g, t, p);
            && Valid(g, t') && |t.full| <= |t'.full| && t.cells <= t'.cells
            && LogFrom(g, t', k) == LogFrom(g, t, k) + RecordOf(g, t, p)
            && (Linked(g, t) ==> Linked(g, t'))
  {
    hide Distinct, Base, Record, LogFrom, Linked;
    StepValid(g, t, p);
    AppendLog(g, t, RecordOf(g, t, p), p.nextCell, k);
    if Linked(g, t) {
      AppendLinked(g, t, RecordOf(g, t, p), p.nextCell);
    }
  }

  lemma StartValid(g: Config, first: nat)
    requires Sound(g) && first < g.cellNum
    ensures Valid(g, Trail([first], [], [])) && Linked(g, Trail([first], [], []))
  {
    assert [first][..0] == [];
  }

  // ----- the link of a later packet

  /** The disk after bytes are written at a packet's offset. */
  function WithLink(d: seq<Byte>, pos: nat, diff: seq<Byte>): (r: seq<Byte>)
    requires pos + |diff| <= |d|
    ensures |r| == |d|
  {
    d[..pos] + diff + d[pos + |diff|..]
  }

  /** What a write at a disk position does to bytes that stand from a base on, wherever the two overlap. */
  function Overwrite(c: seq<Byte>, base: nat, pos: nat, diff: seq<Byte>): (r: seq<Byte>)
    ensures |r| == |c|
  {
    seq(|c|, j requires 0 <= j < |c| => if pos <= base + j < pos + |diff| then diff[base + j - pos] else c[j])
  }

  function Patch(g: Config, t: Trail, pos: nat, diff: seq<Byte>): Trail
    requires |t.cells| == |t.full| + 1
  {
    Trail(t.cells,
          seq(|t.full|, k requires 0 <= k < |t.full| => Overwrite(t.full[k], Base(g, t.cells[k]), pos, diff)),
          Overwrite(t.tail, Base(g, Current(t)), pos, diff))
  }

  lemma OverwriteAt(d: seq<Byte>, base: nat, c: seq<Byte>, pos: nat, diff: seq<Byte>)
    requires At(d, base, c) && pos + |diff| <= |d|
    ensures At(WithLink(d, pos, diff), base, Overwrite(c, base, pos, diff))
  {
    var d', c' := WithLink(d, pos, diff), Overwrite(c, base, pos, diff);
    forall j | 0 <= j < |c|
      ensures d'[base + j] == c'[j]
    {
      assert d[base..base + |c|][j] == c[j];
    }
  }

  /** Whatever is overwritten, records or pointers, the patched trail is what the disk then holds. */
  lemma PatchOnDisk(g: Config, d: seq<Byte>, t: Trail, pos: nat, diff: seq<Byte>)
    requires Valid(g, t) && OnDisk(g, d, t) && pos + |diff| <= |d|
    ensures Valid(g, Patch(g, t, pos, diff)) && OnDisk(g, WithLink(d, pos, diff), Patch(g, t, pos, diff))
  {
    hide At, Base, Distinct, Overwrite, WithLink;
    forall k | 0 <= k < |t.full|
      ensures At(WithLink(d, pos, diff), Base(g, t.cells[k]), Patch(g, t, pos, diff).full[k])
    {
      OverwriteAt(d, Base(g, t.cells[k]), t.full[k], pos, diff);
    }
    OverwriteAt(d, Base(g, Current(t)), t.tail, pos, diff);
  }

  lemma PatchValid(g: Config, t: Trail, pos: nat, diff: seq<Byte>)
    requires Valid(g, t)
    ensures Valid(g, Patch(g, t, pos, diff))
  {
  }

  lemma OverwriteElsewhere(c: seq<Byte>, base: nat, pos: nat, diff: seq<Byte>)
    requires pos + |diff| <= base || base + |c| <= pos
    ensures Overwrite(c, base, pos, diff) == c
  {
  }

  lemma OverwriteInside(c: seq<Byte>, base: nat, w: nat, diff: seq<Byte>)
    requires w + |diff| <= |c|
    ensures Overwrite(c, base, base + w, diff) == WithLink(c, w, diff)
  {
  }

  /** The cells of a trail are distinct. */
  lemma {:induction false} DistinctAt(s: seq<nat>, i: nat, j: nat)
    requires Distinct(s) && i < j < |s|
    ensures s[i] != s[j]
  {
    if j < |s| - 1 {
      DistinctAt(s[..|s| - 1], i, j);
    } else {
      assert s[..|s| - 1][i] == s[i];
    }
  }

  /** A patch inside one cell leaves every other cell alone. */
  lemma OtherCells(g: Config, t: Trail, k0: nat, w: nat, diff: seq<Byte>, k: nat)
    requires Valid(g, t) && k0 <= |t.full| && k <= |t.full| && k != k0 && w + |diff| <= g.cellSize
    ensures Raw(Patch(g, t, Base(g, t.cells[k0]) + w, diff), k) == Raw(t, k)
  {
    hide Base, Distinct, Overwrite;
    DistinctAt(t.cells, if k < k0 then k else k0, if k < k0 then k0 else k);
    CellsApart(g, t.cells[k], t.cells[k0]);
    OverwriteElsewhere(Raw(t, k), Base(g, t.cells[k]), Base(g, t.cells[k0]) + w, diff);
  }

  /** The part of a link that falls before the pointer of its cell. */
  function InRoom(g: Config, w: nat, diff: seq<Byte>): (r: seq<Byte>)
    requires POINTER_SIZE < g.cellSize && w <= Room(g)
    ensures r <= diff && w + |r| <= Room(g)
  {
    if w + |diff| <= Room(g) then diff else diff[..Room(g) - w]
  }

  /** A link at a place of a cell changes the log by the part of it that falls before the pointer. */
  lemma {:induction false} PatchLog(g: Config, t: Trail, k0: nat, w: nat, diff: seq<Byte>, k: nat)
    requires Valid(g, t) && k <= k0 <= |t.full| && w <= Room(g) && w + |diff| <= g.cellSize
    requires k0 == |t.full| ==> w + |diff| <= |t.tail|
    ensures var t', i := Patch(g, t, Base(g, t.cells[k0]) + w, diff), Position(g, k0 - k, w);
            && i + |InRoom(g, w, diff)| <= |LogFrom(g, t, k)|
            && LogFrom(g, t', k) == WithLink(LogFrom(g, t, k), i, InRoom(g, w, diff))
    decreases k0 - k
  {
    hide Base, Distinct, Overwrite, Patch, WithLink, Position, InRoom;
    PatchShape(g, t, Base(g, t.cells[k0]) + w, diff);
    PositionStep(g, k0 - k, w);
    if k < k0 {
      OtherCells(g, t, k0, w, diff, k);
      PatchLog(g, t, k0, w, diff, k + 1);
      LinkRight(Chunk(g, t.full[k]), LogFrom(g, t, k + 1), Position(g, k0 - k - 1, w), InRoom(g, w, diff));
    } else if k < |t.full| {
      PatchHere(g, t, k0, w, diff);
      LogAfter(g, t, k0, w, diff, k + 1);
      LinkInChunk(g, t.full[k], w, diff);
      LinkLeft(Chunk(g, t.full[k]), LogFrom(g, t, k + 1), w, InRoom(g, w, diff));
    } else {
      PatchHere(g, t, k0, w, diff);
      WholeInRoom(g, w, diff);
    }
  }

  lemma WholeInRoom(g: Config, w: nat, diff: seq<Byte>)
    requires POINTER_SIZE < g.cellSize && w + |diff| <= Room(g)
    ensures InRoom(g, w, diff) == diff
  {
  }

  lemma LinkRight(c: seq<Byte>, rest: seq<Byte>, i: nat, diff: seq<Byte>)
    requires i + |diff| <= |rest|
    ensures WithLink(c + rest, |c| + i, diff) == c + WithLink(rest, i, diff)
  {
  }

  lemma LinkLeft(c: seq<Byte>, rest: seq<Byte>, w: nat, diff: seq<Byte>)
    requires w + |diff| <= |c|
    ensures WithLink(c + rest, w, diff) == WithLink(c, w, diff) + rest
  {
  }

  lemma LinkInChunk(g: Config, c: seq<Byte>, w: nat, diff: seq<Byte>)
    requires POINTER_SIZE < g.cellSize == |c| && w <= Room(g) && w + |diff| <= g.cellSize
    ensures |WithLink(c, w, diff)| == g.cellSize
    ensures Chunk(g, WithLink(c, w, diff)) == WithLink(Chunk(g, c), w, InRoom(g, w, diff))
  {
  }

  lemma PatchShape(g: Config, t: Trail, pos: nat, diff: seq<Byte>)
    requires Valid(g, t)
    ensures var t' := Patch(g, t, pos, diff);
            t'.cells == t.cells && |t'.full| == |t.full| && |t'.tail| == |t.tail|
    ensures forall k :: 0 <= k <= |t.full| ==> |Raw(Patch(g, t, pos, diff), k)| == |Raw(t, k)|
  {
  }

  lemma PatchHere(g: Config, t: Trail, k: nat, w: nat, diff: seq<Byte>)
    requires Valid(g, t) && k <= |t.full| && w + |diff| <= |Raw(t, k)|
    ensures Raw(Patch(g, t, Base(g, t.cells[k]) + w, diff), k) == WithLink(Raw(t, k), w, diff)
  {
    hide Base, Distinct, Overwrite;
    OverwriteInside(Raw(t, k), Base(g, t.cells[k]), w, diff);
  }

  lemma {:induction false} LogAfter(g: Config, t: Trail, k0: nat, w: nat, diff: seq<Byte>, k: nat)
    requires Valid(g, t) && k0 < k <= |t.full| && w + |diff| <= g.cellSize
    ensures k <= |Patch(g, t, Base(g, t.cells[k0]) + w, diff).full|
    ensures LogFrom(g, Patch(g, t, Base(g, t.cells[k0]) + w, diff), k) == LogFrom(g, t, k)
    decreases |t.full| - k
  {
    hide Base, Distinct, Overwrite, Patch;
    PatchShape(g, t, Base(g, t.cells[k0]) + w, diff);
    OtherCells(g, t, k0, w, diff, k);
    if k < |t.full| {
      LogAfter(g, t, k0, w, diff, k + 1);
    }
  }

  /** A link at a place of a full cell leaves that cell's pointer alone exactly when it ends before it, or the bytes that
      fall on the pointer are those already there; it never reaches another pointer. */
  lemma LinkAndPointer(g: Config, t: Trail, k: nat, w: nat, diff: seq<Byte>)
    requires Valid(g, t) && k < |t.full| && w <= Room(g) && |diff| == 4
    requires PointsTo(g, t.full[k], t.cells[k + 1])
    ensures var t' := Patch(g, t, Base(g, t.cells[k]) + w, diff);
            && |t'.full| == |t.full| && t'.cells == t.cells
            && (PointsTo(g, t'.full[k], t.cells[k + 1]) <==> SparesPointer(g, w, diff, t.cells[k + 1]))
            && (forall i :: 0 <= i < |t.full| && i != k ==> t'.full[i] == t.full[i])
  {
    hide Enc, Base, Distinct, Overwrite, Patch;
    var t' := Patch(g, t, Base(g, t.cells[k]) + w, diff);
    PatchShape(g, t, Base(g, t.cells[k]) + w, diff);
    PatchHere(g, t, k, w, diff);
    forall i | 0 <= i < |t.full| && i != k
      ensures t'.full[i] == t.full[i]
    {
      OtherCells(g, t, k, w, diff, i);
    }
    var c, e, over := t.full[k], Enc(t.cells[k + 1], POINTER_SIZE), w + 4 - Room(g);
    if over <= 0 {
      assert WithLink(c, w, diff)[Room(g)..] == c[Room(g)..];
    } else {
      assert WithLink(c, w, diff)[Room(g)..] == diff[4 - over..] + e[over..];
      assert e == e[..over] + e[over..];
      if PointsTo(g, t'.full[k], t.cells[k + 1]) {
        assert (diff[4 - over..] + e[over..])[..over] == diff[4 - over..];
      }
    }
  }

  /** Four bytes at a place of a cell end before its pointer, or agree with it. */
  predicate SparesPointer(g: Config, w: nat, diff: seq<Byte>, next: nat)
    requires POINTER_SIZE < g.cellSize && w <= Room(g) && |diff| == 4
  {
    w + 4 <= Room(g) || diff[Room(g) - w..] == Enc(next, POINTER_SIZE)[..w + 4 - Room(g)]
  }
}
