/** Which bitmap rows an address touches, and what a set of marked cells answers.
    Nothing here mentions the filter object: see module PrefixBloomFilters. */
module BloomRows {
  import opened Bytes

  datatype IndexType = SRCIP | DSTIP | SRCPORT | DSTPORT | SRCIPv6 | DSTIPv6

  const SLICE: nat := 256
  const BLOOM_LEN: nat := 1024
  const PORT_BIT_LEN: nat := 0x1_0000
  const IPV4_BIT_LEN: nat := 0xA_0000     // 256 * 256 * 2 + 256 * 1024 * 2
  const IPV6_BIT_LEN: nat := 0x39_0000    // 256 * 256 + 256 * 1024 * 14
  const ADEQUATE_ROWS: nat := 0x88_0000   // (PORT + IPV4 + IPV6) * 2

  type Hash = (seq<Byte>, nat) -> nat

  /** First row of a field. */
  function Base(t: IndexType): nat {
    match t
    case SRCPORT => 0
    case DSTPORT => PORT_BIT_LEN
    case SRCIP => PORT_BIT_LEN * 2
    case DSTIP => PORT_BIT_LEN * 2 + IPV4_BIT_LEN
    case SRCIPv6 => PORT_BIT_LEN * 2 + IPV4_BIT_LEN * 2
    case DSTIPv6 => PORT_BIT_LEN * 2 + IPV4_BIT_LEN * 2 + IPV6_BIT_LEN
  }

  function Length(t: IndexType): nat {
    match t
    case SRCPORT => PORT_BIT_LEN
    case DSTPORT => PORT_BIT_LEN
    case SRCIP => IPV4_BIT_LEN
    case DSTIP => IPV4_BIT_LEN
    case SRCIPv6 => IPV6_BIT_LEN
    case DSTIPv6 => IPV6_BIT_LEN
  }

  /** Bytes in a key of the field. */
  function Width(t: IndexType): nat {
    match t
    case SRCPORT => 2
    case DSTPORT => 2
    case SRCIP => 4
    case DSTIP => 4
    case SRCIPv6 => 16
    case DSTIPv6 => 16
  }

  /** The i-th byte of a value, least significant first: `(v >> 8 * i) & 0xFF`. */
  function ByteOf(v: nat, i: nat): nat {
    Lsr(v, 8 * i) % 256
  }

  /** The hashed prefix of byte i: everything above it, as a string of w bytes. */
  function PrefixOf(v: nat, i: nat, w: nat): seq<Byte> {
    Enc(Lsr(v, 8 * (i + 1)), w)
  }

  function BloomRow(h: Hash, prefix: seq<Byte>, offset: nat, byte: nat, j: nat): nat {
    offset + byte * SLICE + h(prefix, j) % BLOOM_LEN
  }

  /** The rows `setBloom` marks and `getBloom` tests, for k hash functions. */
  function BloomRowsOf(h: Hash, prefix: seq<Byte>, offset: nat, byte: nat, k: nat): seq<nat> {
    if k == 0 then [] else BloomRowsOf(h, prefix, offset, byte, k - 1) + [BloomRow(h, prefix, offset, byte, k - 1)]
  }

  /** Row of a pair of adjacent bytes. */
  function PairRow(offset: nat, upper: nat, lower: nat): nat {
    offset + upper * SLICE + lower
  }

  /** First row of the Bloom area of byte i, the areas of a w-byte key starting at base. */
  function AreaOf(base: nat, w: nat, i: nat): nat
    requires i + 3 <= w
  {
    base + SLICE * BLOOM_LEN * (w - i - 3)
  }

  /** The Bloom rows of bytes hi - 1 down to lo. */
  function TailRows(h: Hash, k: nat, v: nat, w: nat, base: nat, hi: nat, lo: nat): seq<nat>
    requires lo <= hi && hi + 2 <= w
    decreases hi
  {
    if hi == lo then []
    else BloomRowsOf(h, PrefixOf(v, hi - 1, w), AreaOf(base, w, hi - 1), ByteOf(v, hi - 1), k)
         + TailRows(h, k, v, w, base, hi - 1, lo)
  }

  function IPv4Rows(h: Hash, k: nat, v: nat, offset: nat, lo: nat): seq<nat>
    requires lo <= 2
  {
    [PairRow(offset, ByteOf(v, 3), ByteOf(v, 2))]
    + (if lo == 0 then [PairRow(offset + SLICE * SLICE, ByteOf(v, 1), ByteOf(v, 0))] else [])
    + TailRows(h, k, v, 4, offset + SLICE * SLICE * 2, 2, lo)
  }

  function IPv6Rows(h: Hash, k: nat, v: nat, offset: nat, lo: nat): seq<nat>
    requires lo <= 14
  {
    [PairRow(offset, ByteOf(v, 15), ByteOf(v, 14))] + TailRows(h, k, v, 16, offset + SLICE * SLICE, 14, lo)
  }

  /** All rows an insertion of value v into field t marks, in order. */
  function Rows(h: Hash, k: nat, t: IndexType, v: nat): seq<nat> {
    if Width(t) == 2 then [Base(t) + v]
    else if Width(t) == 4 then IPv4Rows(h, k, v, Base(t), 0)
    else IPv6Rows(h, k, v, Base(t), 0)
  }

  // ----- marked cells

  function Mark(rows: seq<nat>, col: nat): set<(nat, nat)> {
    set r | r in rows :: (r, col)
  }

  predicate Marked(cells: set<(nat, nat)>, col: nat, rows: seq<nat>) {
    forall i :: 0 <= i < |rows| ==> (rows[i], col) in cells
  }

  /** Some row upper * 256 + i, i < 256, is marked. */
  predicate AnyMarked(cells: set<(nat, nat)>, col: nat, offset: nat, upper: nat) {
    exists i: nat :: i < SLICE && (PairRow(offset, upper, i), col) in cells
  }

  /** Ports are only looked up whole; addresses by any number of leading bytes. */
  predicate IsPrefixLength(t: IndexType, p: nat) {
    if Width(t) == 2 then p == 2 else p <= Width(t)
  }

  /** What the filter answers for the top p bytes of v in field t. */
  ghost predicate Answer(h: Hash, k: nat, cells: set<(nat, nat)>, col: nat, t: IndexType, v: nat, p: nat)
    requires IsPrefixLength(t, p)
  {
    if Width(t) == 2 then Marked(cells, col, [Base(t) + v])
    else if p == 0 then true
    else if p == 1 then AnyMarked(cells, col, Base(t), ByteOf(v, Width(t) - 1))
    else if Width(t) == 4 then
      && Marked(cells, col, IPv4Rows(h, k, v, Base(t), 4 - p))
      && (p == 3 ==> AnyMarked(cells, col, Base(t) + SLICE * SLICE, ByteOf(v, 1)))
    else
      Marked(cells, col, IPv6Rows(h, k, v, Base(t), 16 - p))
  }

  // ----- where the rows lie

  ghost predicate Within(rows: seq<nat>, lo: nat, len: nat) {
    forall i :: 0 <= i < |rows| ==> lo <= rows[i] < lo + len
  }

  lemma WithinMember(rows: seq<nat>, lo: nat, len: nat, r: nat)
    requires Within(rows, lo, len)
    ensures r in rows ==> lo <= r < lo + len
  {
  }

  /** The k rows of a byte: 256 rows further on for each byte value, and within 1024 rows from there by the hash. */
  lemma {:induction false} BloomRowsInNumbers(h: Hash, prefix: seq<Byte>, offset: nat, byte: nat, k: nat)
    ensures |BloomRowsOf(h, prefix, offset, byte, k)| == k
    ensures forall j :: 0 <= j < k ==> BloomRowsOf(h, prefix, offset, byte, k)[j] == offset + 256 * byte + h(prefix, j) % 1024
  {
    if k > 0 {
      BloomRowsInNumbers(h, prefix, offset, byte, k - 1);
    }
  }

  lemma {:induction false} BloomRowsWithin(h: Hash, prefix: seq<Byte>, offset: nat, byte: nat, k: nat)
    requires byte < 256
    ensures Within(BloomRowsOf(h, prefix, offset, byte, k), offset, SLICE * BLOOM_LEN)
  {
    if k > 0 {
      BloomRowsWithin(h, prefix, offset, byte, k - 1);
    }
  }

  lemma {:induction false} TailWithin(h: Hash, k: nat, v: nat, w: nat, base: nat, hi: nat, lo: nat)
    requires lo <= hi && hi + 2 <= w
    ensures Within(TailRows(h, k, v, w, base, hi, lo), base, SLICE * BLOOM_LEN * (w - 2))
    decreases hi
  {
    hide Pow2, Enc;
    if hi > lo {
      TailWithin(h, k, v, w, base, hi - 1, lo);
      BloomRowsWithin(h, PrefixOf(v, hi - 1, w), AreaOf(base, w, hi - 1), ByteOf(v, hi - 1), k);
    }
  }

  lemma PortBound(v: nat)
    requires v < Pow2(8 * 2)
    ensures v < PORT_BIT_LEN
  {
    Pow2Constants();
  }

  /** Every row of a field lies in that field's row range. */
  lemma RowsWithin(h: Hash, k: nat, t: IndexType, v: nat)
    requires v < Pow2(8 * Width(t))
    ensures Within(Rows(h, k, t, v), Base(t), Length(t))
    ensures Base(t) + Length(t) <= ADEQUATE_ROWS
  {
    hide TailRows, ByteOf, Pow2;
    if Width(t) == 2 {
      PortBound(v);
    } else if Width(t) == 4 {
      BytePairsBounded(v);
      TailWithin(h, k, v, 4, Base(t) + SLICE * SLICE * 2, 2, 0);
    } else {
      BytePairsBounded(v);
      TailWithin(h, k, v, 16, Base(t) + SLICE * SLICE, 14, 0);
    }
  }

  lemma BytePairsBounded(v: nat)
    ensures ByteOf(v, 0) < SLICE && ByteOf(v, 1) < SLICE && ByteOf(v, 2) < SLICE && ByteOf(v, 3) < SLICE
    ensures ByteOf(v, 14) < SLICE && ByteOf(v, 15) < SLICE
  {
  }

  /** The row ranges of different fields do not meet. */
  lemma RangesDisjoint(t: IndexType, u: IndexType)
    requires t != u
    ensures Base(t) + Length(t) <= Base(u) || Base(u) + Length(u) <= Base(t)
  {
  }

  // ----- the filter's promises

  /** Bytes at or above i are the same for values that agree above byte i. */
  lemma SharedBytes(x: nat, y: nat, lo: nat, i: nat, w: nat)
    requires x / Pow2(8 * lo) == y / Pow2(8 * lo) && lo <= i
    ensures ByteOf(x, i) == ByteOf(y, i)
    ensures PrefixOf(x, i, w) == PrefixOf(y, i, w)
  {
    SharedQuotient(x, y, 8 * lo, 8 * i);
    SharedQuotient(x, y, 8 * lo, 8 * (i + 1));
  }

  lemma SharedQuotient(x: nat, y: nat, a: nat, b: nat)
    requires x / Pow2(a) == y / Pow2(a) && a <= b
    ensures x / Pow2(b) == y / Pow2(b)
  {
    Pow2Add(a, b - a);
    DivModSplit(x, Pow2(a), Pow2(b - a));
    DivModSplit(y, Pow2(a), Pow2(b - a));
  }

  lemma {:induction false} SharedTail(h: Hash, k: nat, x: nat, y: nat, w: nat, base: nat, hi: nat, lo: nat)
    requires lo <= hi && hi + 2 <= w
    requires x / Pow2(8 * lo) == y / Pow2(8 * lo)
    ensures TailRows(h, k, x, w, base, hi, lo) == TailRows(h, k, y, w, base, hi, lo)
    decreases hi
  {
    if hi > lo {
      SharedBytes(x, y, lo, hi - 1, w);
      SharedTail(h, k, x, y, w, base, hi - 1, lo);
    }
  }

  /** Fewer bytes, fewer rows. */
  lemma {:induction false} TailShrinks(h: Hash, k: nat, v: nat, w: nat, base: nat, hi: nat, lo: nat)
    requires lo < hi && hi + 2 <= w
    ensures forall r :: r in TailRows(h, k, v, w, base, hi, lo + 1) ==> r in TailRows(h, k, v, w, base, hi, lo)
    decreases hi
  {
    hide Pow2, Enc;
    if hi > lo + 1 {
      TailShrinks(h, k, v, w, base, hi - 1, lo);
    }
  }

  lemma MarkedIn(cells: set<(nat, nat)>, col: nat, rows: seq<nat>)
    ensures Marked(cells, col, rows) <==> forall r :: r in rows ==> (r, col) in cells
  {
  }

  lemma ByteBound(v: nat, i: nat)
    ensures ByteOf(v, i) < SLICE
  {
  }

  /** Answers are monotone: a shorter prefix of a present address is present. */
  lemma AnswerMonotone(h: Hash, k: nat, cells: set<(nat, nat)>, col: nat, t: IndexType, v: nat, p: nat)
    requires p < Width(t) && IsPrefixLength(t, p) && Answer(h, k, cells, col, t, v, p + 1)
    ensures Answer(h, k, cells, col, t, v, p)
  {
    hide ByteOf, TailRows;
    if p == 0 {
    } else if p == 1 {
      PairFromRows(h, k, cells, col, t, v);
    } else if Width(t) == 4 {
      IPv4RowsShrink(h, k, v, Base(t), 3 - p);
      MarkedIn(cells, col, IPv4Rows(h, k, v, Base(t), 4 - p));
      MarkedIn(cells, col, IPv4Rows(h, k, v, Base(t), 3 - p));
      if p == 3 {
        ByteBound(v, 0);
        assert PairRow(Base(t) + SLICE * SLICE, ByteOf(v, 1), ByteOf(v, 0)) in IPv4Rows(h, k, v, Base(t), 0);
      }
    } else {
      IPv6RowsShrink(h, k, v, Base(t), 15 - p);
      MarkedIn(cells, col, IPv6Rows(h, k, v, Base(t), 16 - p));
      MarkedIn(cells, col, IPv6Rows(h, k, v, Base(t), 15 - p));
    }
  }

  lemma PairFromRows(h: Hash, k: nat, cells: set<(nat, nat)>, col: nat, t: IndexType, v: nat)
    requires Width(t) >= 4 && Answer(h, k, cells, col, t, v, 2)
    ensures AnyMarked(cells, col, Base(t), ByteOf(v, Width(t) - 1))
  {
    hide ByteOf, TailRows;
    ByteBound(v, Width(t) - 2);
    if Width(t) == 4 {
      assert IPv4Rows(h, k, v, Base(t), 2)[0] == PairRow(Base(t), ByteOf(v, 3), ByteOf(v, 2));
    } else {
      assert IPv6Rows(h, k, v, Base(t), 14)[0] == PairRow(Base(t), ByteOf(v, 15), ByteOf(v, 14));
    }
  }

  lemma IPv4RowsShrink(h: Hash, k: nat, v: nat, offset: nat, lo: nat)
    requires lo < 2
    ensures forall r :: r in IPv4Rows(h, k, v, offset, lo + 1) ==> r in IPv4Rows(h, k, v, offset, lo)
  {
    hide ByteOf;
    TailShrinks(h, k, v, 4, offset + SLICE * SLICE * 2, 2, lo);
  }

  lemma IPv6RowsShrink(h: Hash, k: nat, v: nat, offset: nat, lo: nat)
    requires lo < 14
    ensures forall r :: r in IPv6Rows(h, k, v, offset, lo + 1) ==> r in IPv6Rows(h, k, v, offset, lo)
  {
    hide ByteOf;
    TailShrinks(h, k, v, 16, offset + SLICE * SLICE, 14, lo);
  }

  /** The full-length prefix form and the plain form are the same question. */
  lemma FullAnswerIsAllRows(h: Hash, k: nat, cells: set<(nat, nat)>, col: nat, t: IndexType, v: nat)
    ensures Answer(h, k, cells, col, t, v, Width(t)) <==> Marked(cells, col, Rows(h, k, t, v))
  {
    hide ByteOf, TailRows;
  }

  /** Answers depend only on the bytes asked about. */
  lemma AnswerShared(h: Hash, k: nat, cells: set<(nat, nat)>, col: nat, t: IndexType, x: nat, y: nat, p: nat)
    requires 0 < p && IsPrefixLength(t, p) && x / Pow2(8 * (Width(t) - p)) == y / Pow2(8 * (Width(t) - p))
    ensures Answer(h, k, cells, col, t, x, p) <==> Answer(h, k, cells, col, t, y, p)
  {
    hide ByteOf, TailRows, Pow2;
    var w, lo := Width(t), Width(t) - p;
    if w == 2 {
      SharedWhole(x, y);
    } else {
      SharedTops(x, y, lo, w);
      if p == 1 {
      } else if w == 4 {
        SharedTail(h, k, x, y, 4, Base(t) + SLICE * SLICE * 2, 2, lo);
        if lo <= 1 { SharedBytes(x, y, lo, 1, w); }
        if lo == 0 { SharedBytes(x, y, lo, 0, w); }
      } else {
        SharedTail(h, k, x, y, 16, Base(t) + SLICE * SLICE, 14, lo);
      }
    }
  }

  lemma SharedWhole(x: nat, y: nat)
    requires x / Pow2(8 * 0) == y / Pow2(8 * 0)
    ensures x == y
  {
    DivUnique(x, 1, x, 0);
    DivUnique(y, 1, y, 0);
  }

  lemma SharedTops(x: nat, y: nat, lo: nat, w: nat)
    requires lo < w && x / Pow2(8 * lo) == y / Pow2(8 * lo) && w >= 2
    ensures ByteOf(x, w - 1) == ByteOf(y, w - 1)
    ensures lo <= w - 2 ==> ByteOf(x, w - 2) == ByteOf(y, w - 2)
  {
    SharedBytes(x, y, lo, w - 1, w);
    if lo <= w - 2 { SharedBytes(x, y, lo, w - 2, w); }
  }

  /** Answers only grow as cells are marked. */
  lemma AnswerGrows(h: Hash, k: nat, cells: set<(nat, nat)>, more: set<(nat, nat)>, col: nat, t: IndexType, v: nat, p: nat)
    requires cells <= more && IsPrefixLength(t, p) && Answer(h, k, cells, col, t, v, p)
    ensures Answer(h, k, more, col, t, v, p)
  {
    hide ByteOf, TailRows, IPv4Rows, IPv6Rows;
  }

  lemma {:induction false} AnswerAllPrefixes(h: Hash, k: nat, cells: set<(nat, nat)>, col: nat, t: IndexType, v: nat, p: nat)
    requires IsPrefixLength(t, p) && Answer(h, k, cells, col, t, v, Width(t))
    ensures Answer(h, k, cells, col, t, v, p)
    decreases Width(t) - p
  {
    hide Answer;
    if p < Width(t) {
      AnswerAllPrefixes(h, k, cells, col, t, v, p + 1);
      AnswerMonotone(h, k, cells, col, t, v, p);
    }
  }

  /** No false negatives: once x is inserted, and whatever is inserted later, every lookup of an address
      that shares x's top p bytes answers true. */
  lemma NoFalseNegative(h: Hash, k: nat, cells: set<(nat, nat)>, later: set<(nat, nat)>, col: nat,
                        t: IndexType, x: nat, y: nat, p: nat)
    requires IsPrefixLength(t, p)
    requires x / Pow2(8 * (Width(t) - p)) == y / Pow2(8 * (Width(t) - p))
    ensures Answer(h, k, cells + Mark(Rows(h, k, t, x), col) + later, col, t, y, p)
  {
    hide Rows, Answer;
    var now := cells + Mark(Rows(h, k, t, x), col);
    assert Marked(now, col, Rows(h, k, t, x));
    FullAnswerIsAllRows(h, k, now, col, t, x);
    AnswerAllPrefixes(h, k, now, col, t, x, p);
    if p > 0 {
      AnswerShared(h, k, now, col, t, x, y, p);
    } else {
      AnswerOfNothing(h, k, now, col, t, y);
    }
    AnswerGrows(h, k, now, now + later, col, t, y, p);
  }

  lemma AnswerOfNothing(h: Hash, k: nat, cells: set<(nat, nat)>, col: nat, t: IndexType, v: nat)
    requires Width(t) != 2
    ensures Answer(h, k, cells, col, t, v, 0)
  {
  }

  // ----- fields do not interfere

  /** Cells that agree on a row range in a column. */
  ghost predicate Agree(a: set<(nat, nat)>, b: set<(nat, nat)>, col: nat, lo: nat, len: nat) {
    forall r: nat :: lo <= r < lo + len ==> ((r, col) in a <==> (r, col) in b)
  }

  /** An answer for a field depends only on that field's rows. */
  lemma AnswerLocal(h: Hash, k: nat, a: set<(nat, nat)>, b: set<(nat, nat)>, col: nat, t: IndexType, v: nat, p: nat)
    requires IsPrefixLength(t, p) && v < Pow2(8 * Width(t)) && Agree(a, b, col, Base(t), Length(t))
    ensures Answer(h, k, a, col, t, v, p) <==> Answer(h, k, b, col, t, v, p)
  {
    hide TailRows, ByteOf, Pow2;
    if Width(t) == 2 {
      RowsWithin(h, k, t, v);
      assert Within(Rows(h, k, t, v), Base(t), Length(t));
      assert Rows(h, k, t, v) == [Base(t) + v];
      assert Base(t) <= Rows(h, k, t, v)[0] < Base(t) + Length(t);
    } else if p == 1 {
      AnyLocal(a, b, col, Base(t), Length(t), Base(t), ByteOf(v, Width(t) - 1)) by { ByteBound(v, Width(t) - 1); }
    } else if p >= 2 {
      PrefixRowsLocal(h, k, a, b, col, t, v, p);
      if Width(t) == 4 {
        ByteBound(v, 1);
        AnyLocal(a, b, col, Base(t), Length(t), Base(t) + SLICE * SLICE, ByteOf(v, 1));
      }
    }
  }

  lemma AnyLocal(a: set<(nat, nat)>, b: set<(nat, nat)>, col: nat, lo: nat, len: nat, offset: nat, upper: nat)
    requires Agree(a, b, col, lo, len) && upper < SLICE && lo <= offset && offset + SLICE * SLICE <= lo + len
    ensures AnyMarked(a, col, offset, upper) <==> AnyMarked(b, col, offset, upper)
  {
    forall i: nat | i < SLICE
      ensures (PairRow(offset, upper, i), col) in a <==> (PairRow(offset, upper, i), col) in b
    {
    }
  }

  lemma MarkedLocal(a: set<(nat, nat)>, b: set<(nat, nat)>, col: nat, rows: seq<nat>, lo: nat, len: nat)
    requires Agree(a, b, col, lo, len) && Within(rows, lo, len)
    ensures Marked(a, col, rows) <==> Marked(b, col, rows)
  {
  }

  lemma PrefixRowsLocal(h: Hash, k: nat, a: set<(nat, nat)>, b: set<(nat, nat)>, col: nat, t: IndexType, v: nat, p: nat)
    requires 2 <= p <= Width(t) && Width(t) >= 4 && Agree(a, b, col, Base(t), Length(t))
    ensures Width(t) == 4 ==>
      (Marked(a, col, IPv4Rows(h, k, v, Base(t), 4 - p)) <==> Marked(b, col, IPv4Rows(h, k, v, Base(t), 4 - p)))
    ensures Width(t) == 16 ==>
      (Marked(a, col, IPv6Rows(h, k, v, Base(t), 16 - p)) <==> Marked(b, col, IPv6Rows(h, k, v, Base(t), 16 - p)))
  {
    hide TailRows, ByteOf;
    ByteBound(v, 0);
    ByteBound(v, 1);
    ByteBound(v, Width(t) - 1);
    ByteBound(v, Width(t) - 2);
    if Width(t) == 4 {
      TailWithin(h, k, v, 4, Base(t) + SLICE * SLICE * 2, 2, 4 - p);
      MarkedLocal(a, b, col, IPv4Rows(h, k, v, Base(t), 4 - p), Base(t), Length(t));
    } else {
      TailWithin(h, k, v, 16, Base(t) + SLICE * SLICE, 14, 16 - p);
      MarkedLocal(a, b, col, IPv6Rows(h, k, v, Base(t), 16 - p), Base(t), Length(t));
    }
  }

  /** An insertion into one field changes no answer of any other field. */
  lemma FieldsDoNotInterfere(h: Hash, k: nat, cells: set<(nat, nat)>, wcol: nat, rcol: nat,
                             t: IndexType, x: nat, u: IndexType, y: nat, p: nat)
    requires t != u && IsPrefixLength(u, p) && x < Pow2(8 * Width(t)) && y < Pow2(8 * Width(u))
    ensures Answer(h, k, cells + Mark(Rows(h, k, t, x), wcol), rcol, u, y, p) <==> Answer(h, k, cells, rcol, u, y, p)
  {
    hide Rows, Answer, Pow2;
    var after := cells + Mark(Rows(h, k, t, x), wcol);
    RowsWithin(h, k, t, x);
    RangesDisjoint(t, u);
    forall r: nat | Base(u) <= r < Base(u) + Length(u)
      ensures (r, rcol) in after <==> (r, rcol) in cells
    {
      WithinMember(Rows(h, k, t, x), Base(t), Length(t), r);
    }
    AnswerLocal(h, k, after, cells, rcol, u, y, p);
  }

  // ----- insertions that run past the bitmap stop there

  /** The rows marked before the first one at or above the limit. */
  function Reach(rows: seq<nat>, limit: nat): seq<nat> {
    if rows == [] || rows[0] >= limit then [] else [rows[0]] + Reach(rows[1..], limit)
  }

  ghost predicate AllBelow(rows: seq<nat>, limit: nat) {
    Reach(rows, limit) == rows
  }

  lemma {:induction false} ReachConcat(a: seq<nat>, b: seq<nat>, limit: nat)
    ensures Reach(a + b, limit) == if AllBelow(a, limit) then a + Reach(b, limit) else Reach(a, limit)
    ensures AllBelow(a + b, limit) <==> AllBelow(a, limit) && AllBelow(b, limit)
  {
    if a == [] {
      assert a + b == b;
    } else {
      assert (a + b)[1..] == a[1..] + b;
      ReachConcat(a[1..], b, limit);
      ReachPrefix(a[1..], limit);
      ReachPrefix(a[1..] + b, limit);
    }
  }

  lemma {:induction false} ReachPrefix(rows: seq<nat>, limit: nat)
    ensures |Reach(rows, limit)| <= |rows|
    ensures Reach(rows, limit) <= rows
    ensures AllBelow(rows, limit) <==> |Reach(rows, limit)| == |rows|
  {
    if rows != [] && rows[0] < limit {
      ReachPrefix(rows[1..], limit);
    }
  }

  lemma {:induction false} AllBelowMeaning(rows: seq<nat>, limit: nat)
    ensures AllBelow(rows, limit) <==> forall i :: 0 <= i < |rows| ==> rows[i] < limit
  {
    if rows != [] {
      AllBelowMeaning(rows[1..], limit);
      ReachPrefix(rows, limit);
      ReachPrefix(rows[1..], limit);
    }
  }

  lemma ReachOne(row: nat, limit: nat)
    ensures Reach([row], limit) == if row < limit then [row] else []
    ensures AllBelow([row], limit) <==> row < limit
  {
    assert [row][1..] == [];
  }

  /** An insertion that fails at `next` has marked what comes before it, and reports the failure. */
  lemma ReachStop(done: seq<nat>, next: seq<nat>, rest: seq<nat>, limit: nat)
    requires AllBelow(done, limit) && !AllBelow(next, limit)
    ensures Reach(done + next + rest, limit) == done + Reach(next, limit)
    ensures !AllBelow(done + next + rest, limit)
  {
    ReachConcat(done, next, limit);
    ReachConcat(done + next, rest, limit);
  }

  lemma MarkConcat(a: seq<nat>, b: seq<nat>, col: nat)
    ensures Mark(a + b, col) == Mark(a, col) + Mark(b, col)
  {
  }

  lemma MarkedConcat(cells: set<(nat, nat)>, col: nat, a: seq<nat>, b: seq<nat>)
    ensures Marked(cells, col, a + b) <==> Marked(cells, col, a) && Marked(cells, col, b)
  {
    forall i | 0 <= i < |a| ensures (a + b)[i] == a[i] {}
    forall i | 0 <= i < |b| ensures (a + b)[|a| + i] == b[i] {}
  }

  /** On a bitmap with enough rows no insertion runs past the end. */
  lemma AdequateReach(h: Hash, k: nat, t: IndexType, v: nat, limit: nat)
    requires v < Pow2(8 * Width(t)) && limit >= ADEQUATE_ROWS
    ensures AllBelow(Rows(h, k, t, v), limit)
  {
    hide Rows, Pow2;
    RowsWithin(h, k, t, v);
    AllBelowMeaning(Rows(h, k, t, v), limit);
  }
}

/** The prefix Bloom filter over a bit matrix: src-old/lib/prefixBloomFilter.hpp. */
module PrefixBloomFilters {
  import opened Bytes
  import opened Keys
  import opened BloomRows
  import opened BitMaps

  /** Bytes of an IPv6 value read through `operator>>` are its little-endian bytes. */
  lemma IPv6Byte(ip: IPv6Address, i: nat)
    ensures ip.Shr(8 * i).low % 256 == ByteOf(ip.Value(), i)
  {
    hide Pow2;
    ShrIsDivision(ip, 8 * i);
    LowByte(ip.Shr(8 * i));
  }

  lemma LowByte(ip: IPv6Address)
    ensures ip.low % 256 == ip.Value() % 256
  {
    DivUnique(ip.Value(), 256, ip.high * 0x100_0000_0000_0000 + ip.low / 256, ip.low % 256);
  }

  /** The bytes of a shifted IPv6 struct are the hashed prefix string. */
  lemma IPv6Prefix(ip: IPv6Address, i: nat)
    ensures var p := ip.Shr(8 * (i + 1)); Enc(p.low, 8) + Enc(p.high, 8) == PrefixOf(ip.Value(), i, 16)
  {
    ShrIsDivision(ip, 8 * (i + 1));
    EncWords(ip.Shr(8 * (i + 1)));
  }

  lemma EncWords(ip: IPv6Address)
    ensures Enc(ip.low, 8) + Enc(ip.high, 8) == Enc(ip.Value(), 16)
  {
    hide Enc, LE;
    var s := Enc(ip.low, 8) + Enc(ip.high, 8);
    assert LE(s) == ip.Value() by {
      LEConcat(Enc(ip.low, 8), Enc(ip.high, 8));
      DecodeEncode(ip.low, 8);
      DecodeEncode(ip.high, 8);
      Pow2Constants();
    }
    EncodeDecode(s);
  }

  class PrefixBloomFilter {
    var bitmap: BitMap?
    var k: nat
    var writingCol: nat
    var readingCol: nat
    const hash: Hash

    ghost predicate Valid()
      reads this, bitmap
    {
      bitmap != null ==> bitmap.Valid()
    }

    ghost function Cells(): set<(nat, nat)>
      requires Valid()
      reads this, bitmap, if bitmap == null then {} else {bitmap.bitmap}
    {
      if bitmap == null then {} else bitmap.Cells()
    }

    /** Rows below this can be marked. */
    ghost function Limit(): nat
      requires bitmap != null
      reads this
    {
      if writingCol < bitmap.colCount then bitmap.rowCount else 0
    }

    constructor (bitmap: BitMap?, numHashFunctions: nat, hash: Hash)
      requires bitmap != null ==> bitmap.Valid()
      ensures Valid() && this.bitmap == bitmap && k == numHashFunctions && this.hash == hash
      ensures writingCol == readingCol == 0xFFFF_FFFF
    {
      this.bitmap := bitmap;
      this.k := numHashFunctions;
      this.hash := hash;
      this.writingCol := 0xFFFF_FFFF;
      this.readingCol := 0xFFFF_FFFF;
    }

    method SetWritingCol(col: nat)
      requires Valid()
      modifies this`writingCol
      ensures writingCol == if bitmap != null && col < bitmap.colCount then col else old(writingCol)
    {
      if bitmap == null || col >= bitmap.colCount {
        return;
      }
      writingCol := col;
    }

    method SetReadingCol(col: nat)
      requires Valid()
      modifies this`readingCol
      ensures readingCol == if bitmap != null && col < bitmap.colCount then col else old(readingCol)
    {
      if bitmap == null || col >= bitmap.colCount {
        return;
      }
      readingCol := col;
    }

    /** Mark one row in the writing column. */
    method SetRow(row: nat) returns (ok: bool)
      requires Valid() && bitmap != null
      modifies bitmap.bitmap
      ensures Valid() && ok == AllBelow([row], Limit())
      ensures Cells() == old(Cells()) + Mark(Reach([row], Limit()), writingCol)
    {
      ok := bitmap.Set(row, writingCol);
      ReachOne(row, Limit());
    }

    /** `setBloom` */
    method SetBloom(prefix: seq<Byte>, offset: nat, byte: nat) returns (ok: bool)
      requires Valid() && bitmap != null
      modifies bitmap.bitmap
      ensures Valid() && ok == AllBelow(BloomRowsOf(hash, prefix, offset, byte, k), Limit())
      ensures Cells() == old(Cells()) + Mark(Reach(BloomRowsOf(hash, prefix, offset, byte, k), Limit()), writingCol)
    {
      hide Reach, AllBelow, Mark, BitMap.Cells, BitMap.Valid;
      ghost var done: seq<nat> := [];
      ReachNothing(Limit());
      MarkNothing(writingCol);
      for i := 0 to k
        invariant Valid() && done == BloomRowsOf(hash, prefix, offset, byte, i)
        invariant AllBelow(done, Limit())
        invariant Cells() == old(Cells()) + Mark(done, writingCol)
      {
        var row := byte * SLICE + hash(prefix, i) % BLOOM_LEN + offset;
        ReachConcat(done, [row], Limit());
        ok := SetRow(row);
        MarkConcat(done, Reach([row], Limit()), writingCol);
        if !ok {
          ReachStop(done, [row], [], Limit());
          assert done + [row] + [] == done + [row];
          BloomRowsReach(hash, prefix, offset, byte, i + 1, k, Limit());
          return;
        }
        ReachWhole([row], Limit());
        done := done + [row];
      }
      ReachWhole(done, Limit());
      ok := true;
    }

    /** `setIPv4` */
    method SetIPv4(ip: U32, offset: nat) returns (ok: bool)
      requires Valid() && bitmap != null
      modifies bitmap.bitmap
      ensures Valid() && ok == AllBelow(IPv4Rows(hash, k, ip, offset, 0), Limit())
      ensures Cells() == old(Cells()) + Mark(Reach(IPv4Rows(hash, k, ip, offset, 0), Limit()), writingCol)
    {
      hide ByteOf, PrefixOf, BloomRowsOf, AreaOf, Reach, AllBelow, TailRows, PairRow;
      ghost var lower := [PairRow(offset + SLICE * SLICE, ByteOf(ip, 1), ByteOf(ip, 0))]
                         + TailRows(hash, k, ip, 4, offset + SLICE * SLICE * 2, 2, 0);
      var row := PairRow(offset, ByteOf(ip, 3), ByteOf(ip, 2));
      assert [row] + lower == IPv4Rows(hash, k, ip, offset, 0);
      ReachNothing(Limit());
      ok := SetRow(row);
      if !ok {
        ReachStop([], [row], lower, Limit());
        assert [] + [row] + lower == [row] + lower;
        return;
      }
      ok := SetIPv4Lower(ip, offset);
      ReachConcat([row], lower, Limit());
      ReachWhole([row], Limit());
      MarkConcat([row], Reach(lower, Limit()), writingCol);
    }

    /** The second byte pair, then the Bloom areas. */
    method SetIPv4Lower(ip: U32, offset: nat) returns (ok: bool)
      requires Valid() && bitmap != null
      modifies bitmap.bitmap
      ensures Valid()
      ensures var lower := [PairRow(offset + SLICE * SLICE, ByteOf(ip, 1), ByteOf(ip, 0))]
                           + TailRows(hash, k, ip, 4, offset + SLICE * SLICE * 2, 2, 0);
              && ok == AllBelow(lower, Limit())
              && Cells() == old(Cells()) + Mark(Reach(lower, Limit()), writingCol)
    {
      hide ByteOf, PrefixOf, BloomRowsOf, AreaOf, Reach, AllBelow, TailRows, PairRow;
      var row := PairRow(offset + SLICE * SLICE, ByteOf(ip, 1), ByteOf(ip, 0));
      var base := offset + SLICE * SLICE * 2;
      ghost var tail := TailRows(hash, k, ip, 4, base, 2, 0);
      ReachNothing(Limit());
      ok := SetRow(row);
      if !ok {
        ReachStop([], [row], tail, Limit());
        assert [] + [row] + tail == [row] + tail;
        return;
      }
      ok := SetIPv4Tail(ip, base);
      ReachConcat([row], tail, Limit());
      ReachWhole([row], Limit());
      MarkConcat([row], Reach(tail, Limit()), writingCol);
    }

    method SetIPv4Tail(ip: U32, base: nat) returns (ok: bool)
      requires Valid() && bitmap != null
      modifies bitmap.bitmap
      ensures Valid() && ok == AllBelow(TailRows(hash, k, ip, 4, base, 2, 0), Limit())
      ensures Cells() == old(Cells()) + Mark(Reach(TailRows(hash, k, ip, 4, base, 2, 0), Limit()), writingCol)
    {
      hide ByteOf, BloomRowsOf, AreaOf, Reach, AllBelow;
      ghost var all := TailRows(hash, k, ip, 4, base, 2, 0);
      ghost var done: seq<nat> := [];
      ReachNothing(Limit());
      for i := 2 downto 0
        invariant Valid() && AllBelow(done, Limit())
        invariant all == done + TailRows(hash, k, ip, 4, base, i, 0)
        invariant Cells() == old(Cells()) + Mark(done, writingCol)
      {
        var byte := ByteOf(ip, i);
        var prefix := Lsr(ip, 8 * (i + 1));
        ghost var next := BloomRowsOf(hash, PrefixOf(ip, i, 4), AreaOf(base, 4, i), byte, k);
        TailPeel(hash, k, ip, 4, base, i, done, all);
        ok := SetBloom(Enc(prefix, 4), AreaOf(base, 4, i), byte);
        MarkConcat(done, Reach(next, Limit()), writingCol);
        if !ok {
          ReachStop(done, next, TailRows(hash, k, ip, 4, base, i, 0), Limit());
          return;
        }
        ReachConcat(done, next, Limit());
        ReachWhole(next, Limit());
        done := done + next;
      }
      ok := true;
      assert all == done;
      ReachWhole(done, Limit());
    }

    /** `setIPv6` */
    method SetIPv6(ip: IPv6Address, offset: nat) returns (ok: bool)
      requires Valid() && bitmap != null
      modifies bitmap.bitmap
      ensures Valid() && ok == AllBelow(IPv6Rows(hash, k, ip.Value(), offset, 0), Limit())
      ensures Cells() == old(Cells()) + Mark(Reach(IPv6Rows(hash, k, ip.Value(), offset, 0), Limit()), writingCol)
    {
      hide ByteOf, PrefixOf, BloomRowsOf, AreaOf, Reach, AllBelow, TailRows, PairRow;
      var base := offset + SLICE * SLICE;
      ghost var tail := TailRows(hash, k, ip.Value(), 16, base, 14, 0);
      IPv6Byte(ip, 15);
      IPv6Byte(ip, 14);
      var row := PairRow(offset, ip.Shr(8 * 15).low % 256, ip.Shr(8 * 14).low % 256);
      ReachNothing(Limit());
      ok := SetRow(row);
      if !ok {
        ReachStop([], [row], tail, Limit());
        assert [] + [row] + tail == IPv6Rows(hash, k, ip.Value(), offset, 0);
        return;
      }
      ok := SetIPv6Tail(ip, base);
      ReachConcat([row], tail, Limit());
      ReachWhole([row], Limit());
      MarkConcat([row], Reach(tail, Limit()), writingCol);
    }

    static lemma MarkNothing(col: nat)
      ensures Mark([], col) == {}
    {
    }

    method SetIPv6Tail(ip: IPv6Address, base: nat) returns (ok: bool)
      requires Valid() && bitmap != null
      modifies bitmap.bitmap
      ensures Valid() && ok == AllBelow(TailRows(hash, k, ip.Value(), 16, base, 14, 0), Limit())
      ensures Cells() == old(Cells()) + Mark(Reach(TailRows(hash, k, ip.Value(), 16, base, 14, 0), Limit()), writingCol)
    {
      hide ByteOf, BloomRowsOf, AreaOf, Reach, AllBelow, PrefixOf, Mark, Enc, Pow2, IPv6Address.Shr, IPv6Address.Value;
      ghost var v := ip.Value();
      MarkNothing(writingCol);
      ghost var all := TailRows(hash, k, v, 16, base, 14, 0);
      ghost var done: seq<nat> := [];
      ReachNothing(Limit());
      for i := 14 downto 0
        invariant Valid() && AllBelow(done, Limit())
        invariant all == done + TailRows(hash, k, v, 16, base, i, 0)
        invariant Cells() == old(Cells()) + Mark(done, writingCol)
      {
        IPv6Byte(ip, i);
        IPv6Prefix(ip, i);
        var byte := ip.Shr(8 * i).low % 256;
        var prefix := ip.Shr(8 * (i + 1));
        ghost var next := BloomRowsOf(hash, PrefixOf(v, i, 16), AreaOf(base, 16, i), byte, k);
        TailPeel(hash, k, v, 16, base, i, done, all);
        ok := SetBloom(Enc(prefix.low, 8) + Enc(prefix.high, 8), AreaOf(base, 16, i), byte);
        MarkConcat(done, Reach(next, Limit()), writingCol);
        if !ok {
          ReachStop(done, next, TailRows(hash, k, v, 16, base, i, 0), Limit());
          return;
        }
        ReachConcat(done, next, Limit());
        ReachWhole(next, Limit());
        done := done + next;
      }
      ok := true;
      assert all == done;
      ReachWhole(done, Limit());
    }

    // ----- lookups

    method GetRow(row: nat) returns (r: bool)
      requires Valid() && bitmap != null
      ensures r == ((row, readingCol) in Cells())
    {
      r := bitmap.Get(row, readingCol);
    }

    /** `getBloom` */
    method GetBloom(prefix: seq<Byte>, offset: nat, byte: nat) returns (r: bool)
      requires Valid() && bitmap != null
      ensures r == Marked(Cells(), readingCol, BloomRowsOf(hash, prefix, offset, byte, k))
    {
      for i := 0 to k
        invariant Marked(Cells(), readingCol, BloomRowsOf(hash, prefix, offset, byte, i))
      {
        var row := byte * SLICE + hash(prefix, i) % BLOOM_LEN + offset;
        MarkedConcat(Cells(), readingCol, BloomRowsOf(hash, prefix, offset, byte, i), [row]);
        r := GetRow(row);
        if !r {
          assert !Marked(Cells(), readingCol, [row]) by { assert [row][0] == row; }
          BloomRowsMiss(hash, prefix, offset, byte, i + 1, k, Cells(), readingCol);
          return;
        }
      }
      r := true;
    }

    /** Is some row of the 256 that share the upper byte marked? */
    method GetAny(offset: nat, upper: nat) returns (r: bool)
      requires Valid() && bitmap != null
      ensures r == AnyMarked(Cells(), readingCol, offset, upper)
    {
      for i := 0 to SLICE
        invariant forall j: nat :: j < i ==> (PairRow(offset, upper, j), readingCol) !in Cells()
      {
        r := GetRow(PairRow(offset, upper, i));
        if r {
          return;
        }
      }
      r := false;
    }

    /** The loops of `checkIPv4`, down to byte lo. */
    method GetIPv4Tail(ip: U32, base: nat, lo: nat) returns (r: bool)
      requires Valid() && bitmap != null && lo <= 2
      ensures r == Marked(Cells(), readingCol, TailRows(hash, k, ip, 4, base, 2, lo))
    {
      hide ByteOf, BloomRowsOf, AreaOf, Marked;
      for i := 2 downto lo
        invariant Marked(Cells(), readingCol, TailRows(hash, k, ip, 4, base, 2, lo))
          <==> Marked(Cells(), readingCol, TailRows(hash, k, ip, 4, base, i, lo))
      {
        MarkedConcat(Cells(), readingCol, BloomRowsOf(hash, PrefixOf(ip, i, 4), AreaOf(base, 4, i), ByteOf(ip, i), k),
                     TailRows(hash, k, ip, 4, base, i, lo));
        var prefix := Lsr(ip, 8 * (i + 1));
        r := GetBloom(Enc(prefix, 4), AreaOf(base, 4, i), ByteOf(ip, i));
        if !r {
          return;
        }
      }
      r := true;
      MarkedNothing(Cells(), readingCol);
    }

    /** The loops of `checkIPv6`, down to byte lo. */
    method GetIPv6Tail(ip: IPv6Address, base: nat, lo: nat) returns (r: bool)
      requires Valid() && bitmap != null && lo <= 14
      ensures r == Marked(Cells(), readingCol, TailRows(hash, k, ip.Value(), 16, base, 14, lo))
    {
      hide ByteOf, BloomRowsOf, AreaOf, Marked, PrefixOf;
      ghost var v := ip.Value();
      for i := 14 downto lo
        invariant Marked(Cells(), readingCol, TailRows(hash, k, v, 16, base, 14, lo))
          <==> Marked(Cells(), readingCol, TailRows(hash, k, v, 16, base, i, lo))
      {
        MarkedConcat(Cells(), readingCol, BloomRowsOf(hash, PrefixOf(v, i, 16), AreaOf(base, 16, i), ByteOf(v, i), k),
                     TailRows(hash, k, v, 16, base, i, lo));
        IPv6Byte(ip, i);
        IPv6Prefix(ip, i);
        var byte := ip.Shr(8 * i).low % 256;
        var prefix := ip.Shr(8 * (i + 1));
        r := GetBloom(Enc(prefix.low, 8) + Enc(prefix.high, 8), AreaOf(base, 16, i), byte);
        if !r {
          return;
        }
      }
      r := true;
      MarkedNothing(Cells(), readingCol);
    }

    /** `checkIPv4` with a prefix length: branch by branch. */
    method CheckIPv4(ip: U32, t: IndexType, prefixLen: nat) returns (r: bool)
      requires Valid() && bitmap != null && Width(t) == 4 && prefixLen <= 4
      ensures r == Answer(hash, k, Cells(), readingCol, t, ip, prefixLen)
    {
      hide ByteOf, TailRows, AnyMarked, Marked, PairRow;
      var offset := Base(t);
      if prefixLen == 0 {
        return true;
      }
      if prefixLen == 1 {
        r := GetAny(offset, ByteOf(ip, 3));
        if r {
          return;
        }
        ByteBound(ip, 2);
        NoneMarked(Cells(), readingCol, offset, ByteOf(ip, 3), ByteOf(ip, 2));
      } else {
        IPv4RowsMarked(hash, k, Cells(), readingCol, ip, offset, 4 - prefixLen);
      }
      r := GetRow(PairRow(offset, ByteOf(ip, 3), ByteOf(ip, 2)));
      if !r || prefixLen == 2 {
        return;
      }
      if prefixLen == 3 {
        r := GetAny(offset + SLICE * SLICE, ByteOf(ip, 1));
      } else {
        r := GetRow(PairRow(offset + SLICE * SLICE, ByteOf(ip, 1), ByteOf(ip, 0)));
      }
      if !r {
        return;
      }
      r := GetIPv4Tail(ip, offset + SLICE * SLICE * 2, 4 - prefixLen);
    }

    /** A missed prefix of one byte falls through to the row of its first two bytes, which misses too. */
    static lemma NoneMarked(cells: set<(nat, nat)>, col: nat, offset: nat, upper: nat, lower: nat)
      requires !AnyMarked(cells, col, offset, upper) && lower < SLICE
      ensures (PairRow(offset, upper, lower), col) !in cells
    {
    }

    method CheckIPv6(ip: IPv6Address, t: IndexType, prefixLen: nat) returns (r: bool)
      requires Valid() && bitmap != null && Width(t) == 16 && prefixLen <= 16
      ensures r == Answer(hash, k, Cells(), readingCol, t, ip.Value(), prefixLen)
    {
      hide ByteOf, TailRows, AnyMarked, Marked, PairRow;
      var offset := Base(t);
      IPv6Byte(ip, 15);
      IPv6Byte(ip, 14);
      if prefixLen == 0 {
        return true;
      }
      if prefixLen == 1 {
        r := GetAny(offset, ip.Shr(8 * 15).low % 256);
        if r {
          return;
        }
        ByteBound(ip.Value(), 14);
        NoneMarked(Cells(), readingCol, offset, ip.Shr(8 * 15).low % 256, ip.Shr(8 * 14).low % 256);
      } else {
        IPv6RowsMarked(hash, k, Cells(), readingCol, ip.Value(), offset, 16 - prefixLen);
      }
      r := GetRow(PairRow(offset, ip.Shr(8 * 15).low % 256, ip.Shr(8 * 14).low % 256));
      if !r || prefixLen == 2 {
        return;
      }
      r := GetIPv6Tail(ip, offset + SLICE * SLICE, 16 - prefixLen);
    }

    /** `checkIPv4` without a prefix length */
    method CheckWholeIPv4(ip: U32, offset: nat) returns (r: bool)
      requires Valid() && bitmap != null
      ensures r == Marked(Cells(), readingCol, IPv4Rows(hash, k, ip, offset, 0))
    {
      hide ByteOf, TailRows, Marked, PairRow;
      IPv4RowsMarked(hash, k, Cells(), readingCol, ip, offset, 0);
      r := GetRow(PairRow(offset, ByteOf(ip, 3), ByteOf(ip, 2)));
      if !r {
        return;
      }
      r := GetRow(PairRow(offset + SLICE * SLICE, ByteOf(ip, 1), ByteOf(ip, 0)));
      if !r {
        return;
      }
      r := GetIPv4Tail(ip, offset + SLICE * SLICE * 2, 0);
    }

    /** `checkIPv6` without a prefix length */
    method CheckWholeIPv6(ip: IPv6Address, offset: nat) returns (r: bool)
      requires Valid() && bitmap != null
      ensures r == Marked(Cells(), readingCol, IPv6Rows(hash, k, ip.Value(), offset, 0))
    {
      hide ByteOf, TailRows, Marked, PairRow;
      IPv6Byte(ip, 15);
      IPv6Byte(ip, 14);
      IPv6RowsMarked(hash, k, Cells(), readingCol, ip.Value(), offset, 0);
      r := GetRow(PairRow(offset, ip.Shr(8 * 15).low % 256, ip.Shr(8 * 14).low % 256));
      if !r {
        return;
      }
      r := GetIPv6Tail(ip, offset + SLICE * SLICE, 0);
    }

    // ----- the public interface

    /** `insertPort`, `insertIPv4`, `insertIPv6`: false without a bitmap, for a type of another kind, and when a row
        is out of range, in which case the rows before it stay marked. */
    method InsertPort(port: U16, t: IndexType) returns (ok: bool)
      requires Valid()
      modifies if bitmap == null then {} else {bitmap.bitmap}
      ensures Valid()
      ensures ok <==> bitmap != null && Width(t) == 2 && AllBelow(Rows(hash, k, t, port), Limit())
      ensures Cells() == if bitmap != null && Width(t) == 2
                         then old(Cells()) + Mark(Reach(Rows(hash, k, t, port), Limit()), writingCol) else old(Cells())
    {
      if bitmap == null {
        return false;
      }
      match t
      case SRCPORT => ok := SetRow(port);
      case DSTPORT => ok := SetRow(PORT_BIT_LEN + port);
      case _ => ok := false;
    }

    method InsertIPv4(ip: U32, t: IndexType) returns (ok: bool)
      requires Valid()
      modifies if bitmap == null then {} else {bitmap.bitmap}
      ensures Valid()
      ensures ok <==> bitmap != null && Width(t) == 4 && AllBelow(Rows(hash, k, t, ip), Limit())
      ensures Cells() == if bitmap != null && Width(t) == 4
                         then old(Cells()) + Mark(Reach(Rows(hash, k, t, ip), Limit()), writingCol) else old(Cells())
    {
      hide IPv4Rows, Reach, AllBelow;
      if bitmap == null {
        return false;
      }
      match t
      case SRCIP => ok := SetIPv4(ip, PORT_BIT_LEN * 2);
      case DSTIP => ok := SetIPv4(ip, PORT_BIT_LEN * 2 + IPV4_BIT_LEN);
      case _ => ok := false;
    }

    method InsertIPv6(ip: IPv6Address, t: IndexType) returns (ok: bool)
      requires Valid()
      modifies if bitmap == null then {} else {bitmap.bitmap}
      ensures Valid()
      ensures ok <==> bitmap != null && Width(t) == 16 && AllBelow(Rows(hash, k, t, ip.Value()), Limit())
      ensures Cells() == if bitmap != null && Width(t) == 16
                         then old(Cells()) + Mark(Reach(Rows(hash, k, t, ip.Value()), Limit()), writingCol) else old(Cells())
    {
      hide IPv6Rows, Reach, AllBelow;
      if bitmap == null {
        return false;
      }
      match t
      case SRCIPv6 => ok := SetIPv6(ip, PORT_BIT_LEN * 2 + IPV4_BIT_LEN * 2);
      case DSTIPv6 => ok := SetIPv6(ip, PORT_BIT_LEN * 2 + IPV4_BIT_LEN * 2 + IPV6_BIT_LEN);
      case _ => ok := false;
    }

    method GetPort(port: U16, t: IndexType) returns (r: bool)
      requires Valid()
      ensures r <==> bitmap != null && Width(t) == 2 && Answer(hash, k, Cells(), readingCol, t, port, 2)
    {
      if bitmap == null {
        return false;
      }
      assert Width(t) == 2 ==> [Base(t) + port][0] == Base(t) + port;
      match t
      case SRCPORT => r := GetRow(port);
      case DSTPORT => r := GetRow(PORT_BIT_LEN + port);
      case _ => r := false;
    }

    method GetWholeIPv4(ip: U32, t: IndexType) returns (r: bool)
      requires Valid()
      ensures r <==> bitmap != null && Width(t) == 4 && Marked(Cells(), readingCol, Rows(hash, k, t, ip))
    {
      hide Marked, IPv4Rows;
      if bitmap == null {
        return false;
      }
      match t
      case SRCIP => r := CheckWholeIPv4(ip, PORT_BIT_LEN * 2);
      case DSTIP => r := CheckWholeIPv4(ip, PORT_BIT_LEN * 2 + IPV4_BIT_LEN);
      case _ => r := false;
    }

    method GetWholeIPv6(ip: IPv6Address, t: IndexType) returns (r: bool)
      requires Valid()
      ensures r <==> bitmap != null && Width(t) == 16 && Marked(Cells(), readingCol, Rows(hash, k, t, ip.Value()))
    {
      hide Marked, IPv6Rows;
      if bitmap == null {
        return false;
      }
      match t
      case SRCIPv6 => r := CheckWholeIPv6(ip, PORT_BIT_LEN * 2 + IPV4_BIT_LEN * 2);
      case DSTIPv6 => r := CheckWholeIPv6(ip, PORT_BIT_LEN * 2 + IPV4_BIT_LEN * 2 + IPV6_BIT_LEN);
      case _ => r := false;
    }

    method GetIPv4(ip: U32, t: IndexType, prefixLen: nat) returns (r: bool)
      requires Valid() && prefixLen <= 4
      ensures r <==> bitmap != null && Width(t) == 4 && Answer(hash, k, Cells(), readingCol, t, ip, prefixLen)
    {
      hide Answer;
      if bitmap == null {
        return false;
      }
      if Width(t) == 4 {
        r := CheckIPv4(ip, t, prefixLen);
      } else {
        r := false;
      }
    }

    method GetIPv6(ip: IPv6Address, t: IndexType, prefixLen: nat) returns (r: bool)
      requires Valid() && prefixLen <= 16
      ensures r <==> bitmap != null && Width(t) == 16 && Answer(hash, k, Cells(), readingCol, t, ip.Value(), prefixLen)
    {
      hide Answer;
      if bitmap == null {
        return false;
      }
      if Width(t) == 16 {
        r := CheckIPv6(ip, t, prefixLen);
      } else {
        r := false;
      }
    }
  }

  lemma MarkedNothing(cells: set<(nat, nat)>, col: nat)
    ensures Marked(cells, col, [])
  {
  }

  lemma IPv4RowsMarked(h: Hash, k: nat, cells: set<(nat, nat)>, col: nat, v: nat, offset: nat, lo: nat)
    requires lo <= 2
    ensures Marked(cells, col, IPv4Rows(h, k, v, offset, lo)) <==>
            && (PairRow(offset, ByteOf(v, 3), ByteOf(v, 2)), col) in cells
            && (lo == 0 ==> (PairRow(offset + SLICE * SLICE, ByteOf(v, 1), ByteOf(v, 0)), col) in cells)
            && Marked(cells, col, TailRows(h, k, v, 4, offset + SLICE * SLICE * 2, 2, lo))
    ensures lo == 2 ==> TailRows(h, k, v, 4, offset + SLICE * SLICE * 2, 2, lo) == []
    ensures Marked(cells, col, [])
  {
    hide ByteOf, PairRow;
    var first := [PairRow(offset, ByteOf(v, 3), ByteOf(v, 2))];
    var second := if lo == 0 then [PairRow(offset + SLICE * SLICE, ByteOf(v, 1), ByteOf(v, 0))] else [];
    MarkedConcat(cells, col, first + second, TailRows(h, k, v, 4, offset + SLICE * SLICE * 2, 2, lo));
    MarkedConcat(cells, col, first, second);
    assert Marked(cells, col, first) <==> (first[0], col) in cells;
    if lo == 0 { assert Marked(cells, col, second) <==> (second[0], col) in cells; }
  }

  lemma IPv6RowsMarked(h: Hash, k: nat, cells: set<(nat, nat)>, col: nat, v: nat, offset: nat, lo: nat)
    requires lo <= 14
    ensures Marked(cells, col, IPv6Rows(h, k, v, offset, lo)) <==>
            && (PairRow(offset, ByteOf(v, 15), ByteOf(v, 14)), col) in cells
            && Marked(cells, col, TailRows(h, k, v, 16, offset + SLICE * SLICE, 14, lo))
    ensures lo == 14 ==> TailRows(h, k, v, 16, offset + SLICE * SLICE, 14, lo) == []
    ensures Marked(cells, col, [])
  {
    hide ByteOf, PairRow;
    var first := [PairRow(offset, ByteOf(v, 15), ByteOf(v, 14))];
    MarkedConcat(cells, col, first, TailRows(h, k, v, 16, offset + SLICE * SLICE, 14, lo));
    assert Marked(cells, col, first) <==> (first[0], col) in cells;
  }

  lemma {:induction false} BloomRowsMiss(h: Hash, prefix: seq<Byte>, offset: nat, byte: nat, i: nat, n: nat,
                                         cells: set<(nat, nat)>, col: nat)
    requires i <= n && !Marked(cells, col, BloomRowsOf(h, prefix, offset, byte, i))
    ensures !Marked(cells, col, BloomRowsOf(h, prefix, offset, byte, n))
    decreases n
  {
    if i < n {
      BloomRowsMiss(h, prefix, offset, byte, i, n - 1, cells, col);
      MarkedConcat(cells, col, BloomRowsOf(h, prefix, offset, byte, n - 1), [BloomRow(h, prefix, offset, byte, n - 1)]);
    }
  }

  lemma ReachNothing(limit: nat)
    ensures Reach([], limit) == [] && AllBelow([], limit)
  {
  }

  lemma ReachWhole(rows: seq<nat>, limit: nat)
    requires AllBelow(rows, limit)
    ensures Reach(rows, limit) == rows
  {
  }

  /** Split the next byte's rows off the rows still to come. */
  lemma TailPeel(h: Hash, k: nat, v: nat, w: nat, base: nat, i: nat, done: seq<nat>, all: seq<nat>)
    requires i + 3 <= w && all == done + TailRows(h, k, v, w, base, i + 1, 0)
    ensures all == done + BloomRowsOf(h, PrefixOf(v, i, w), AreaOf(base, w, i), ByteOf(v, i), k)
                 + TailRows(h, k, v, w, base, i, 0)
  {
    hide PrefixOf, ByteOf, BloomRowsOf, AreaOf;
    SeqAssoc(done, BloomRowsOf(h, PrefixOf(v, i, w), AreaOf(base, w, i), ByteOf(v, i), k), TailRows(h, k, v, w, base, i, 0));
  }

  lemma {:induction false} BloomRowsReach(h: Hash, prefix: seq<Byte>, offset: nat, byte: nat, i: nat, n: nat, limit: nat)
    requires i <= n && !AllBelow(BloomRowsOf(h, prefix, offset, byte, i), limit)
    ensures Reach(BloomRowsOf(h, prefix, offset, byte, n), limit) == Reach(BloomRowsOf(h, prefix, offset, byte, i), limit)
    ensures !AllBelow(BloomRowsOf(h, prefix, offset, byte, n), limit)
    decreases n
  {
    if i < n {
      BloomRowsReach(h, prefix, offset, byte, i, n - 1, limit);
      ReachConcat(BloomRowsOf(h, prefix, offset, byte, n - 1), [BloomRow(h, prefix, offset, byte, n - 1)], limit);
    }
  }
}
