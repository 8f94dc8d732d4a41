/** The bit matrix behind the Bloom filter: src-old/lib/bitMap.hpp.
    Bits are packed column-strided: column col of a row lives in byte col % (colCount / 8)
    of that row, at bit col / (colCount / 8). */
module BitMaps {
  import Bytes

  /** `1 << bit` on a byte. */
  function Mask(bit: nat): bv8
    requires bit < 8
  {
    (1 as bv8) << bit
  }

  predicate Test(x: bv8, bit: nat)
    requires bit < 8
  {
    x & Mask(bit) != 0
  }

  lemma SetBit(x: bv8, b: nat, c: nat)
    requires b < 8 && c < 8
    ensures Test(x | Mask(b), c) <==> b == c || Test(x, c)
  {
    MaskCases(b);
    MaskCases(c);
  }

  lemma ClearBit(x: bv8, b: nat, c: nat)
    requires b < 8 && c < 8
    ensures Test(x & !Mask(b), c) <==> b != c && Test(x, c)
  {
    MaskCases(b);
    MaskCases(c);
  }

  lemma MaskCases(b: nat)
    requires b < 8
    ensures Mask(b) == if b == 0 then 1 else if b == 1 then 2 else if b == 2 then 4 else if b == 3 then 8
                       else if b == 4 then 16 else if b == 5 then 32 else if b == 6 then 64 else 128
  {
  }

  /** Byte of a cell, for a stride of w = colCount / 8 bytes per row. */
  function ByteIndex(row: nat, col: nat, w: nat): nat
    requires w > 0
  {
    row * w + col % w
  }

  function BitIndex(col: nat, w: nat): nat
    requires w > 0
  {
    col / w
  }

  /** Every cell has a byte inside the bitmap and a bit inside that byte. */
  lemma CellInBounds(row: nat, col: nat, rows: nat, w: nat)
    requires w > 0 && row < rows && col < 8 * w
    ensures ByteIndex(row, col, w) < rows * w
    ensures BitIndex(col, w) < 8
  {
    assert (row + 1) * w <= rows * w;
    assert (row + 1) * w == row * w + w;
    if col / w >= 8 {
      Bytes.DivAtLeast(col, w, 8);
    }
  }

  /** Two cells share byte and bit only when they are the same cell. */
  lemma CellInjective(row: nat, col: nat, row': nat, col': nat, w: nat)
    requires w > 0
    ensures ByteIndex(row, col, w) == ByteIndex(row', col', w) && BitIndex(col, w) == BitIndex(col', w)
            <==> row == row' && col == col'
  {
    Bytes.DivUnique(ByteIndex(row, col, w), w, row, col % w);
    Bytes.DivUnique(ByteIndex(row', col', w), w, row', col' % w);
    assert col == (col / w) * w + col % w;
    assert col' == (col' / w) * w + col' % w;
  }

  predicate BitOf(bytes: seq<bv8>, row: nat, col: nat, rows: nat, w: nat)
    requires w > 0 && row < rows && col < 8 * w && |bytes| == rows * w
  {
    CellInBounds(row, col, rows, w);
    Test(bytes[ByteIndex(row, col, w)], BitIndex(col, w))
  }

  function WithBit(x: bv8, bit: nat): bv8
    requires bit < 8
  {
    x | Mask(bit)
  }

  function WithoutBit(x: bv8, bit: nat): bv8
    requires bit < 8
  {
    x & !Mask(bit)
  }

  /** Replacing one byte changes no cell of another byte, and this byte's cells only by the new value. */
  lemma OtherCells(bytes: seq<bv8>, x: bv8, row: nat, col: nat, r: nat, c: nat, rows: nat, w: nat)
    requires w > 0 && row < rows && col < 8 * w && r < rows && c < 8 * w && |bytes| == rows * w
    ensures ByteIndex(row, col, w) < |bytes| && BitIndex(c, w) < 8
    ensures BitOf(bytes[ByteIndex(row, col, w) := x], r, c, rows, w) <==>
            if ByteIndex(row, col, w) == ByteIndex(r, c, w) then Test(x, BitIndex(c, w)) else BitOf(bytes, r, c, rows, w)
  {
    CellInBounds(row, col, rows, w);
    CellInBounds(r, c, rows, w);
  }

  lemma SetCell(bytes: seq<bv8>, row: nat, col: nat, r: nat, c: nat, rows: nat, w: nat)
    requires w > 0 && row < rows && col < 8 * w && r < rows && c < 8 * w && |bytes| == rows * w
    ensures ByteIndex(row, col, w) < |bytes| && BitIndex(col, w) < 8
    ensures var i := ByteIndex(row, col, w);
            BitOf(bytes[i := WithBit(bytes[i], BitIndex(col, w))], r, c, rows, w)
            <==> (r, c) == (row, col) || BitOf(bytes, r, c, rows, w)
  {
    CellInBounds(row, col, rows, w);
    var i, b := ByteIndex(row, col, w), BitIndex(col, w);
    OtherCells(bytes, WithBit(bytes[i], b), row, col, r, c, rows, w);
    CellInjective(row, col, r, c, w);
    SetBit(bytes[i], b, BitIndex(c, w));
  }

  lemma ClearCell(bytes: seq<bv8>, row: nat, col: nat, r: nat, c: nat, rows: nat, w: nat)
    requires w > 0 && row < rows && col < 8 * w && r < rows && c < 8 * w && |bytes| == rows * w
    ensures ByteIndex(row, col, w) < |bytes| && BitIndex(col, w) < 8
    ensures var i := ByteIndex(row, col, w);
            BitOf(bytes[i := WithoutBit(bytes[i], BitIndex(col, w))], r, c, rows, w)
            <==> (r, c) != (row, col) && BitOf(bytes, r, c, rows, w)
  {
    CellInBounds(row, col, rows, w);
    var i, b := ByteIndex(row, col, w), BitIndex(col, w);
    OtherCells(bytes, WithoutBit(bytes[i], b), row, col, r, c, rows, w);
    CellInjective(row, col, r, c, w);
    ClearBit(bytes[i], b, BitIndex(c, w));
  }

  /** The matrix a byte string stores, as the set of its true cells. */
  ghost function CellsOf(bytes: seq<bv8>, rows: nat, w: nat): set<(nat, nat)>
    requires |bytes| == rows * w
  {
    set row: nat, col: nat | 0 <= row < rows && 0 <= col < 8 * w && BitOf(bytes, row, col, rows, w) :: (row, col)
  }

  lemma SetCells(bytes: seq<bv8>, row: nat, col: nat, rows: nat, w: nat)
    requires w > 0 && row < rows && col < 8 * w && |bytes| == rows * w
    ensures ByteIndex(row, col, w) < |bytes| && BitIndex(col, w) < 8
    ensures var i := ByteIndex(row, col, w);
            CellsOf(bytes[i := WithBit(bytes[i], BitIndex(col, w))], rows, w) == CellsOf(bytes, rows, w) + {(row, col)}
  {
    SetCell(bytes, row, col, row, col, rows, w);
    var i := ByteIndex(row, col, w);
    var bytes' := bytes[i := WithBit(bytes[i], BitIndex(col, w))];
    forall r: nat, c: nat | r < rows && c < 8 * w
      ensures BitOf(bytes', r, c, rows, w) <==> (r, c) == (row, col) || BitOf(bytes, r, c, rows, w)
    {
      SetCell(bytes, row, col, r, c, rows, w);
    }
  }

  lemma ClearCells(bytes: seq<bv8>, row: nat, col: nat, rows: nat, w: nat)
    requires w > 0 && row < rows && col < 8 * w && |bytes| == rows * w
    ensures ByteIndex(row, col, w) < |bytes| && BitIndex(col, w) < 8
    ensures var i := ByteIndex(row, col, w);
            CellsOf(bytes[i := WithoutBit(bytes[i], BitIndex(col, w))], rows, w) == CellsOf(bytes, rows, w) - {(row, col)}
  {
    ClearCell(bytes, row, col, row, col, rows, w);
    var i := ByteIndex(row, col, w);
    var bytes' := bytes[i := WithoutBit(bytes[i], BitIndex(col, w))];
    forall r: nat, c: nat | r < rows && c < 8 * w
      ensures BitOf(bytes', r, c, rows, w) <==> (r, c) != (row, col) && BitOf(bytes, r, c, rows, w)
    {
      ClearCell(bytes, row, col, r, c, rows, w);
    }
  }

  class BitMap {
    var bitmap: array<bv8>
    const rowCount: nat
    const colCount: nat
    const backupColCount: nat

    ghost predicate Valid()
      reads this
    {
      && colCount % 8 == 0
      && backupColCount * 8 <= colCount
      && bitmap.Length == rowCount * (colCount / 8)
    }

    /** The boolean matrix this object stores. */
    ghost function Cells(): set<(nat, nat)>
      requires Valid()
      reads this, bitmap
    {
      CellsOf(bitmap[..], rowCount, colCount / 8)
    }

    constructor (rowCount: nat, colCount: nat, backupColCount: nat)
      requires colCount % 8 == 0 && backupColCount * 8 <= colCount
      ensures Valid() && fresh(bitmap)
      ensures this.rowCount == rowCount && this.colCount == colCount && this.backupColCount == backupColCount
      ensures Cells() == {}
    {
      this.rowCount := rowCount;
      this.colCount := colCount;
      this.backupColCount := backupColCount;
      this.bitmap := new bv8[rowCount * (colCount / 8)](_ => 0);
      new;
      var w := colCount / 8;
      forall row: nat, col: nat | row < rowCount && col < 8 * w
        ensures !BitOf(bitmap[..], row, col, rowCount, w)
      {
        CellInBounds(row, col, rowCount, w);
      }
    }

    /** The C++ constructor: it throws, here it yields null, on a bad column count. */
    static method Create(rowCount: nat, logicColCount: nat, backupColCount: nat) returns (b: BitMap?)
      ensures b == null <==> (logicColCount + backupColCount) % 8 != 0 || backupColCount * 8 > logicColCount + backupColCount
      ensures b != null ==> fresh(b) && b.Valid() && fresh(b.bitmap) && b.Cells() == {}
      ensures b != null ==> b.rowCount == rowCount && b.colCount == logicColCount + backupColCount
    {
      var colCount := logicColCount + backupColCount;
      if colCount % 8 != 0 {
        return null;
      }
      if backupColCount * 8 > colCount {
        return null;
      }
      b := new BitMap(rowCount, colCount, backupColCount);
    }

    method Get(row: nat, col: nat) returns (r: bool)
      requires Valid()
      ensures r <==> (row, col) in Cells()
    {
      if row >= rowCount || col >= colCount {
        return false;
      }
      var w := colCount / 8;
      CellInBounds(row, col, rowCount, w);
      r := Test(bitmap[ByteIndex(row, col, w)], BitIndex(col, w));
      assert r == BitOf(bitmap[..], row, col, rowCount, w);
    }

    method Set(row: nat, col: nat) returns (ok: bool)
      requires Valid()
      modifies bitmap
      ensures Valid()
      ensures ok <==> row < rowCount && col < colCount
      ensures Cells() == if ok then old(Cells()) + {(row, col)} else old(Cells())
    {
      if row >= rowCount || col >= colCount {
        return false;
      }
      SetInRange(row, col, colCount / 8);
      ok := true;
    }

    method SetInRange(row: nat, col: nat, w: nat)
      requires Valid() && w == colCount / 8 && row < rowCount && col < 8 * w
      modifies bitmap
      ensures CellsOf(bitmap[..], rowCount, w) == CellsOf(old(bitmap[..]), rowCount, w) + {(row, col)}
    {
      SetCells(bitmap[..], row, col, rowCount, w);
      var i, b := ByteIndex(row, col, w), BitIndex(col, w);
      bitmap[i] := WithBit(bitmap[i], b);
      assert bitmap[..] == old(bitmap[..])[i := WithBit(old(bitmap[..])[i], b)];
    }

    method ClearInRange(row: nat, col: nat, w: nat)
      requires Valid() && w == colCount / 8 && row < rowCount && col < 8 * w
      modifies bitmap
      ensures CellsOf(bitmap[..], rowCount, w) == CellsOf(old(bitmap[..]), rowCount, w) - {(row, col)}
    {
      ClearCells(bitmap[..], row, col, rowCount, w);
      var i, b := ByteIndex(row, col, w), BitIndex(col, w);
      bitmap[i] := WithoutBit(bitmap[i], b);
      assert bitmap[..] == old(bitmap[..])[i := WithoutBit(old(bitmap[..])[i], b)];
    }

    method ClearCol(col: nat)
      requires Valid()
      modifies bitmap
      ensures Valid()
      ensures Cells() == set c | c in old(Cells()) && c.1 != col
    {
      if col >= colCount {
        return;
      }
      for row := 0 to rowCount
        invariant Cells() == set c | c in old(Cells()) && !(c.1 == col && c.0 < row)
      {
        ClearInRange(row, col, colCount / 8);
      }
    }
  }
}
