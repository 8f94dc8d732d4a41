/** What the filter of src-old/lib/prefixBloomFilter.hpp answers exactly: ports and the two leading bytes of addresses, whose
    rows no other insertion touches. */
module BloomExact {
  import opened Bytes
  import opened BloomRows

  /** The cells marked by inserting these values, each into its field, on a bitmap that was empty in this column. */
  ghost function CellsOf(h: Hash, k: nat, xs: seq<(IndexType, nat)>, col: nat): set<(nat, nat)> {
    if xs == [] then {}
    else CellsOf(h, k, xs[..|xs| - 1], col) + Mark(Rows(h, k, xs[|xs| - 1].0, xs[|xs| - 1].1), col)
  }

  /** Every value fits the bytes of its field. */
  ghost predicate InFields(xs: seq<(IndexType, nat)>) {
    forall i :: 0 <= i < |xs| ==> xs[i].1 < Pow2(8 * Width(xs[i].0))
  }

  /** A value without its n lowest bytes. */
  function Above(x: nat, n: nat): nat {
    Lsr(x, 8 * n)
  }

  /** Two values of a field agree on their p leading bytes. */
  predicate Share(t: IndexType, x: nat, y: nat, p: nat)
    requires p <= Width(t)
  {
    Above(x, Width(t) - p) == Above(y, Width(t) - p)
  }

  /** The two leading bytes of a value, as a number; a whole port. */
  function Top(t: IndexType, x: nat): nat {
    Above(x, Width(t) - 2)
  }

  lemma {:induction false} CellMember(h: Hash, k: nat, xs: seq<(IndexType, nat)>, col: nat, r: nat)
    ensures (r, col) in CellsOf(h, k, xs, col) <==> exists i :: 0 <= i < |xs| && r in Rows(h, k, xs[i].0, xs[i].1)
  {
    hide Rows;
    if xs != [] {
      var n := |xs| - 1;
      CellMember(h, k, xs[..n], col, r);
      assert (r, col) in Mark(Rows(h, k, xs[n].0, xs[n].1), col) <==> r in Rows(h, k, xs[n].0, xs[n].1);
      if i :| 0 <= i < |xs[..n]| && r in Rows(h, k, xs[..n][i].0, xs[..n][i].1) {
        assert xs[i] == xs[..n][i];
      }
      if i :| 0 <= i < |xs| && r in Rows(h, k, xs[i].0, xs[i].1) {
        assert i < n ==> xs[..n][i] == xs[i];
      }
    }
  }

  lemma QuotientSmall(x: nat, a: nat, b: nat)
    requires a > 0 && x < a * b
    ensures x / a < b
  {
    if x / a >= b {
      DivAtLeast(x, a, b);
    }
  }

  /** The leading bytes of a value that fits its width. */
  lemma LeadingBytes(x: nat, w: nat)
    requires w >= 2 && x < Pow2(8 * w)
    ensures Above(x, w - 2) == ByteOf(x, w - 1) * SLICE + ByteOf(x, w - 2) < SLICE * SLICE
    ensures Above(x, w - 1) == ByteOf(x, w - 1) < SLICE
  {
    var a := Pow2(8 * (w - 2));
    Pow2Constants();
    Pow2Add(8 * (w - 2), 8);
    Pow2Add(8 * (w - 1), 8);
    DivModSplit(x, a, 256);
    QuotientSmall(x, a * 256, 256);
    DivUnique(x / (a * 256), 256, 0, x / (a * 256));
  }

  /** A row among the first 65536 of a field is marked by one insertion: that of the two leading bytes it stands for. */
  lemma TopRow(h: Hash, k: nat, t: IndexType, r: nat, u: IndexType, x: nat)
    requires x < Pow2(8 * Width(u)) && Base(t) <= r < Base(t) + SLICE * SLICE
    ensures r in Rows(h, k, u, x) <==> u == t && r == Base(t) + Top(t, x)
  {
    hide TailRows, ByteOf, Pow2, Base, Length;
    RowsWithin(h, k, u, x);
    WithinMember(Rows(h, k, u, x), Base(u), Length(u), r);
    if u != t {
      OtherField(t, u, r);
    } else if Width(t) == 2 {
      PortTop(t, x);
    } else {
      LeadingBytes(x, Width(t));
      AddressTop(h, k, t, x, r);
    }
  }

  lemma OtherField(t: IndexType, u: IndexType, r: nat)
    requires u != t && Base(t) <= r < Base(t) + SLICE * SLICE
    ensures !(Base(u) <= r < Base(u) + Length(u))
  {
    RangesDisjoint(t, u);
  }

  lemma PortTop(t: IndexType, x: nat)
    requires Width(t) == 2
    ensures Top(t, x) == x
  {
    DivUnique(x, 1, x, 0);
  }

  lemma AddressTop(h: Hash, k: nat, t: IndexType, x: nat, r: nat)
    requires Width(t) >= 4 && Base(t) <= r < Base(t) + SLICE * SLICE
    ensures r in Rows(h, k, t, x) <==> r == PairRow(Base(t), ByteOf(x, Width(t) - 1), ByteOf(x, Width(t) - 2))
  {
    hide TailRows, ByteOf, Base;
    BytePairsBounded(x);
    if Width(t) == 4 {
      var second, tail := [PairRow(Base(t) + SLICE * SLICE, ByteOf(x, 1), ByteOf(x, 0))],
                          TailRows(h, k, x, 4, Base(t) + SLICE * SLICE * 2, 2, 0);
      TailWithin(h, k, x, 4, Base(t) + SLICE * SLICE * 2, 2, 0);
      WithinMember(tail, Base(t) + SLICE * SLICE * 2, SLICE * BLOOM_LEN * 2, r);
      assert Rows(h, k, t, x) == [PairRow(Base(t), ByteOf(x, 3), ByteOf(x, 2))] + second + tail;
    } else {
      var tail := TailRows(h, k, x, 16, Base(t) + SLICE * SLICE, 14, 0);
      TailWithin(h, k, x, 16, Base(t) + SLICE * SLICE, 14, 0);
      WithinMember(tail, Base(t) + SLICE * SLICE, SLICE * BLOOM_LEN * 14, r);
      assert Rows(h, k, t, x) == [PairRow(Base(t), ByteOf(x, 15), ByteOf(x, 14))] + tail;
    }
  }

  /** Some inserted value of the field agrees with v on the p leading bytes. */
  ghost predicate Inserted(xs: seq<(IndexType, nat)>, t: IndexType, v: nat, p: nat)
    requires p <= Width(t)
  {
    exists i :: 0 <= i < |xs| && xs[i].0 == t && Share(t, xs[i].1, v, p)
  }

  lemma TopMarked(h: Hash, k: nat, xs: seq<(IndexType, nat)>, col: nat, t: IndexType, top: nat)
    requires InFields(xs) && top < SLICE * SLICE
    ensures (Base(t) + top, col) in CellsOf(h, k, xs, col)
       <==> exists i :: 0 <= i < |xs| && xs[i].0 == t && Top(t, xs[i].1) == top
  {
    hide Rows, Base, Width, Pow2, Top;
    CellMember(h, k, xs, col, Base(t) + top);
    forall i | 0 <= i < |xs|
      ensures Base(t) + top in Rows(h, k, xs[i].0, xs[i].1) <==> xs[i].0 == t && Top(t, xs[i].1) == top
    {
      TopRow(h, k, t, Base(t) + top, xs[i].0, xs[i].1);
    }
  }

  lemma OneMarked(cells: set<(nat, nat)>, col: nat, r: nat)
    ensures Marked(cells, col, [r]) <==> (r, col) in cells
  {
    assert [r][0] == r;
  }

  /** Whatever was inserted into whichever fields, the answer about a port or about the two leading bytes of an address is
      true exactly when they are those of a value inserted into that field. */
  lemma AnswerTwoExact(h: Hash, k: nat, xs: seq<(IndexType, nat)>, col: nat, t: IndexType, v: nat)
    requires InFields(xs) && v < Pow2(8 * Width(t))
    ensures Answer(h, k, CellsOf(h, k, xs, col), col, t, v, 2) <==> Inserted(xs, t, v, 2)
  {
    hide ByteOf, Pow2, CellsOf, Base, Lsr;
    LeadingBytes(v, Width(t));
    TopMarked(h, k, xs, col, t, Top(t, v));
    var cells := CellsOf(h, k, xs, col);
    if Width(t) == 2 {
      PortTop(t, v);
      assert [Base(t) + v][0] == Base(t) + Top(t, v);
    } else if Width(t) == 4 {
      assert IPv4Rows(h, k, v, Base(t), 2) == [PairRow(Base(t), ByteOf(v, 3), ByteOf(v, 2))];
    } else {
      assert IPv6Rows(h, k, v, Base(t), 14) == [PairRow(Base(t), ByteOf(v, 15), ByteOf(v, 14))];
    }
    OneMarked(cells, col, Base(t) + Top(t, v));
  }

  /** The same for the one leading byte of an address. */
  lemma AnswerOneExact(h: Hash, k: nat, xs: seq<(IndexType, nat)>, col: nat, t: IndexType, v: nat)
    requires InFields(xs) && Width(t) >= 4 && v < Pow2(8 * Width(t))
    ensures Answer(h, k, CellsOf(h, k, xs, col), col, t, v, 1) <==> Inserted(xs, t, v, 1)
  {
    hide ByteOf, Pow2, CellsOf, Base;
    var cells, w := CellsOf(h, k, xs, col), Width(t);
    LeadingBytes(v, w);
    var upper := ByteOf(v, w - 1);
    if AnyMarked(cells, col, Base(t), upper) {
      var j: nat :| j < SLICE && (PairRow(Base(t), upper, j), col) in cells;
      TopMarked(h, k, xs, col, t, upper * SLICE + j);
      var i :| 0 <= i < |xs| && xs[i].0 == t && Top(t, xs[i].1) == upper * SLICE + j;
      LeadingBytes(xs[i].1, w);
      ByteBound(xs[i].1, w - 2);
      assert Share(t, xs[i].1, v, 1);
    }
    if Inserted(xs, t, v, 1) {
      var i :| 0 <= i < |xs| && xs[i].0 == t && Share(t, xs[i].1, v, 1);
      LeadingBytes(xs[i].1, w);
      TopMarked(h, k, xs, col, t, Top(t, xs[i].1));
      ByteBound(xs[i].1, w - 2);
      assert (PairRow(Base(t), upper, ByteOf(xs[i].1, w - 2)), col) in cells;
    }
  }

  /** A longer prefix is only found when its two leading bytes were inserted, so every lookup can be answered no. */
  lemma {:induction false} AnswerNeedsTop(h: Hash, k: nat, xs: seq<(IndexType, nat)>, col: nat, t: IndexType, v: nat, p: nat)
    requires InFields(xs) && v < Pow2(8 * Width(t)) && 2 <= p && IsPrefixLength(t, p)
    requires Answer(h, k, CellsOf(h, k, xs, col), col, t, v, p)
    ensures Inserted(xs, t, v, 2)
    decreases p
  {
    hide Answer, CellsOf, Inserted, Pow2;
    if p == 2 {
      AnswerTwoExact(h, k, xs, col, t, v);
    } else {
      AnswerMonotone(h, k, CellsOf(h, k, xs, col), col, t, v, p - 1);
      AnswerNeedsTop(h, k, xs, col, t, v, p - 1);
    }
  }

  // ----- all rows, in numbers

  /** First row of a field: ports, IPv4 addresses, IPv6 addresses, each source first. */
  function FirstRow(t: IndexType): nat {
    match t
    case SRCPORT => 0
    case DSTPORT => 65536
    case SRCIP => 131072
    case DSTIP => 786432
    case SRCIPv6 => 1441792
    case DSTIPv6 => 5177344
  }

  /** Row r is one of the k hashed rows of byte i of a w-byte address: in the area of that byte, 262144 rows each from the
      top byte down, 256 rows on for each value of the byte, and as far on as the hash of the bytes above it says. */
  ghost predicate Hashed(h: Hash, k: nat, w: nat, area: nat, v: nat, i: nat, r: nat)
    requires i + 3 <= w
  {
    exists j :: 0 <= j < k && r == area + 262144 * (w - 3 - i) + 256 * ByteOf(v, i) + h(PrefixOf(v, i, w), j) % 1024
  }

  /** Some byte from lo on has r among its hashed rows. */
  ghost predicate AnyHashed(h: Hash, k: nat, w: nat, area: nat, v: nat, lo: nat, hi: nat, r: nat)
    requires hi + 2 <= w
  {
    exists i: nat :: lo <= i < hi && Hashed(h, k, w, area, v, i, r)
  }

  lemma ByteRow(h: Hash, k: nat, w: nat, area: nat, v: nat, i: nat, r: nat)
    requires i + 3 <= w
    ensures r in BloomRowsOf(h, PrefixOf(v, i, w), AreaOf(area, w, i), ByteOf(v, i), k) <==> Hashed(h, k, w, area, v, i, r)
  {
    hide ByteOf, PrefixOf;
    BloomRowsInNumbers(h, PrefixOf(v, i, w), AreaOf(area, w, i), ByteOf(v, i), k);
  }

  lemma {:induction false} TailRow(h: Hash, k: nat, w: nat, area: nat, v: nat, hi: nat, lo: nat, r: nat)
    requires lo <= hi && hi + 2 <= w
    ensures r in TailRows(h, k, v, w, area, hi, lo) <==> AnyHashed(h, k, w, area, v, lo, hi, r)
    decreases hi
  {
    hide Hashed, ByteOf, PrefixOf, AreaOf, BloomRowsOf;
    if hi > lo {
      ByteRow(h, k, w, area, v, hi - 1, r);
      TailRow(h, k, w, area, v, hi - 1, lo, r);
    }
  }

  /** The rows asked for about the bytes of an address from lo on, lo = 0 for the whole address: the row of its two leading
      bytes, for a whole IPv4 address that of the two other bytes, and the hashed rows of the bytes below the leading two. */
  ghost predicate Asked(h: Hash, k: nat, t: IndexType, v: nat, lo: nat, r: nat)
    requires Width(t) >= 4 && lo + 2 <= Width(t)
  {
    if Width(t) == 4 then
      || r == FirstRow(t) + 256 * ByteOf(v, 3) + ByteOf(v, 2)
      || (lo == 0 && r == FirstRow(t) + 65536 + 256 * ByteOf(v, 1) + ByteOf(v, 0))
      || AnyHashed(h, k, 4, FirstRow(t) + 131072, v, lo, 2, r)
    else
      || r == FirstRow(t) + 256 * ByteOf(v, 15) + ByteOf(v, 14)
      || AnyHashed(h, k, 16, FirstRow(t) + 65536, v, lo, 14, r)
  }

  lemma PrefixRow(h: Hash, k: nat, t: IndexType, v: nat, lo: nat, r: nat)
    requires Width(t) >= 4 && lo + 2 <= Width(t)
    ensures Width(t) == 4 ==> (r in IPv4Rows(h, k, v, Base(t), lo) <==> Asked(h, k, t, v, lo, r))
    ensures Width(t) == 16 ==> (r in IPv6Rows(h, k, v, Base(t), lo) <==> Asked(h, k, t, v, lo, r))
  {
    hide TailRows, ByteOf, AnyHashed;
    assert FirstRow(t) == Base(t);
    if Width(t) == 4 {
      TailRow(h, k, 4, Base(t) + 131072, v, 2, lo, r);
    } else {
      TailRow(h, k, 16, Base(t) + 65536, v, 14, lo, r);
    }
  }

  /** An insertion marks exactly the row of a port, or the rows asked for about a whole address. */
  lemma RowsInNumbers(h: Hash, k: nat, t: IndexType, v: nat, r: nat)
    ensures r in Rows(h, k, t, v) <==> if Width(t) == 2 then r == FirstRow(t) + v else Asked(h, k, t, v, 0, r)
  {
    hide Asked, IPv4Rows, IPv6Rows;
    if Width(t) >= 4 {
      PrefixRow(h, k, t, v, 0, r);
    }
  }

  /** A lookup of two or more leading bytes is true exactly when all the rows asked for about them are marked, and, for three
      bytes of an IPv4 address, some row of a pair that starts with the third one. */
  lemma AnswerInNumbers(h: Hash, k: nat, cells: set<(nat, nat)>, col: nat, t: IndexType, v: nat, p: nat)
    requires Width(t) >= 4 && 2 <= p <= Width(t)
    ensures Answer(h, k, cells, col, t, v, p) <==>
              && (forall r: nat :: Asked(h, k, t, v, Width(t) - p, r) ==> (r, col) in cells)
              && (Width(t) == 4 && p == 3 ==>
                    exists r: nat :: (r, col) in cells && r / 256 == FirstRow(t) / 256 + 256 + ByteOf(v, 1))
  {
    hide Asked, IPv4Rows, IPv6Rows, ByteOf;
    var rows := if Width(t) == 4 then IPv4Rows(h, k, v, Base(t), 4 - p) else IPv6Rows(h, k, v, Base(t), 16 - p);
    MarkedIn(cells, col, rows);
    forall r: nat
      ensures r in rows <==> Asked(h, k, t, v, Width(t) - p, r)
    {
      PrefixRow(h, k, t, v, Width(t) - p, r);
    }
    PairBlock(cells, col, Base(t), ByteOf(v, 1));
    assert FirstRow(t) == Base(t) && Base(t) % 256 == 0;
  }

  /** The 256 rows of pairs that start with the same byte. */
  lemma PairBlock(cells: set<(nat, nat)>, col: nat, base: nat, upper: nat)
    requires base % 256 == 0
    ensures AnyMarked(cells, col, base + SLICE * SLICE, upper)
       <==> exists r: nat :: (r, col) in cells && r / 256 == base / 256 + 256 + upper
  {
    var first := base + SLICE * SLICE;
    if AnyMarked(cells, col, first, upper) {
      var i: nat :| i < SLICE && (PairRow(first, upper, i), col) in cells;
      assert PairRow(first, upper, i) / 256 == base / 256 + 256 + upper;
    }
    if r: nat :| (r, col) in cells && r / 256 == base / 256 + 256 + upper {
      assert PairRow(first, upper, r % 256) == r;
    }
  }
}
