/** The layout of a block on disk, and what can be read back from it: src/dataNode/dataNodeLib/SST.hpp. */
module BlockLayout {
  import opened Bytes
  import opened Buffers
  import opened Tables

  const FIXED_META_SIZE := 56
  const VAR_COLUMN_INFO_SIZE := 16

  function KindCode(kind: ColumnType): (c: nat)
    ensures c < 4
  {
    match kind
    case INT64 => 0
    case UINT64 => 1
    case DOUBLE => 2
    case STRING => 3
  }

  function ColumnSize(kind: ColumnType): (n: nat)
    ensures 0 < n <= VAR_COLUMN_INFO_SIZE
  {
    if kind.STRING? then VAR_COLUMN_INFO_SIZE else 8
  }

  /** Bytes of one row, and of its first columns. */
  function RowSize(columns: seq<Column>): nat {
    if columns == [] then 0 else RowSize(columns[..|columns| - 1]) + ColumnSize(columns[|columns| - 1].kind)
  }

  function Area(width: nat, rows: nat): nat {
    width * rows
  }

  lemma AreaStep(width: nat, rows: nat)
    ensures Area(width, rows + 1) == Area(width, rows) + width
  {
  }

  lemma {:induction false} AreaMono(width: nat, a: nat, b: nat)
    requires a <= b
    ensures Area(width, a) <= Area(width, b)
  {
    MulMono(a, b, width);
  }

  // ----- addresses

  function SizesAt(c: nat): nat { FIXED_META_SIZE + 4 * c }
  function OffsetsAt(c: nat): nat { SizesAt(c) + 8 * c }
  function NamesAt(c: nat): nat { OffsetsAt(c) + 8 * (c + 1) }
  function RowsAt(columns: seq<Column>): nat { NamesAt(|columns|) + NameBytes(columns) }
  function VarAt(columns: seq<Column>, rows: nat): nat { RowsAt(columns) + Area(RowSize(columns), rows) }
  function MetaSize(t: Table): nat { RowsAt(t.columns) - FIXED_META_SIZE }
  function BlockSize(t: Table): nat { VarAt(t.columns, |t.rows|) + t.varSize }

  // ----- contents

  function Types(columns: seq<Column>): (r: seq<Byte>)
    ensures |r| == 4 * |columns|
  {
    if columns == [] then []
    else Types(columns[..|columns| - 1]) + Enc(KindCode(columns[|columns| - 1].kind), 4)
  }

  function Sizes(columns: seq<Column>): (r: seq<Byte>)
    ensures |r| == 8 * |columns|
  {
    if columns == [] then []
    else Sizes(columns[..|columns| - 1]) + Enc(ColumnSize(columns[|columns| - 1].kind), 8)
  }

  function Offsets(columns: seq<Column>): (r: seq<Byte>)
    ensures |r| == 8 * |columns|
  {
    if columns == [] then []
    else Offsets(columns[..|columns| - 1]) + Enc(NameBytes(columns[..|columns| - 1]), 8)
  }

  function Names(columns: seq<Column>): (r: seq<Byte>)
    ensures |r| == NameBytes(columns)
  {
    if columns == [] then [] else Names(columns[..|columns| - 1]) + columns[|columns| - 1].name
  }

  /** A number is its eight bytes; a string is the size of all strings and its own length. */
  function Cell(v: Value, varSize: nat): seq<Byte> {
    match v
    case Unsigned(n) => Enc(n, 8)
    case Signed(i) => Enc(if i < 0 then i + 0x1_0000_0000_0000_0000 else i, 8)
    case Double(bits) => Enc(bits, 8)
    case Text(s) => Enc(varSize, 8) + Enc(|s|, 8)
  }

  function Content(v: Value): seq<Byte> {
    if v.Text? then v.s else []
  }

  function Cells(data: seq<Value>, varSize: nat): seq<Byte> {
    if data == [] then [] else Cells(data[..|data| - 1], varSize) + Cell(data[|data| - 1], varSize)
  }

  function Strings(data: seq<Value>): seq<Byte> {
    if data == [] then [] else Strings(data[..|data| - 1]) + Content(data[|data| - 1])
  }

  function RowCells(rows: seq<Row>, varSize: nat): seq<Byte> {
    if rows == [] then [] else RowCells(rows[..|rows| - 1], varSize) + Cells(rows[|rows| - 1].data, varSize)
  }

  function RowStrings(rows: seq<Row>): seq<Byte> {
    if rows == [] then [] else RowStrings(rows[..|rows| - 1]) + Strings(rows[|rows| - 1].data)
  }

  /** Every section of the block of a table, each at its address. */
  ghost predicate Header(s: seq<Byte>, t: Table) {
    && At(s, 0, Enc(BlockSize(t), 8))
    && At(s, 8, Enc(FIXED_META_SIZE, 8))
    && At(s, 16, Enc(MetaSize(t), 8))
    && At(s, 24, Enc(Area(RowSize(t.columns), |t.rows|), 8))
    && At(s, 32, Enc(t.varSize, 8))
    && At(s, 40, Enc(|t.rows|, 8))
    && At(s, 48, Enc(|t.columns|, 8))
  }

  ghost predicate VarMeta(s: seq<Byte>, columns: seq<Column>, c: nat) {
    && At(s, FIXED_META_SIZE, Types(columns))
    && At(s, SizesAt(c), Sizes(columns))
    && At(s, OffsetsAt(c), Offsets(columns))
    && At(s, NamesAt(c), Names(columns))
  }

  ghost predicate Meta(s: seq<Byte>, t: Table) {
    && |s| == BlockSize(t)
    && Header(s, t)
    && VarMeta(s, t.columns, |t.columns|)
    && At(s, OffsetsAt(|t.columns|) + 8 * |t.columns|, Enc(NameBytes(t.columns), 8))
  }

  ghost predicate BlockOf(s: seq<Byte>, t: Table) {
    && Meta(s, t)
    && At(s, RowsAt(t.columns), RowCells(t.rows, t.varSize))
    && At(s, VarAt(t.columns, |t.rows|), RowStrings(t.rows))
  }

  /** The block of a table as one byte string. */
  function Image(t: Table): seq<Byte> {
    MetaImage(t) + (RowCells(t.rows, t.varSize) + RowStrings(t.rows))
  }

  function MetaImage(t: Table): (r: seq<Byte>)
    ensures |r| == RowsAt(t.columns)
  {
    FixedMeta(t) + (Types(t.columns) + (Sizes(t.columns) + (Offsets(t.columns)
    + (Enc(NameBytes(t.columns), 8) + Names(t.columns)))))
  }

  function FixedMeta(t: Table): (r: seq<Byte>)
    ensures |r| == FIXED_META_SIZE
  {
    Enc(BlockSize(t), 8) + (Enc(FIXED_META_SIZE, 8) + (Enc(MetaSize(t), 8)
    + (Enc(Area(RowSize(t.columns), |t.rows|), 8) + (Enc(t.varSize, 8) + (Enc(|t.rows|, 8) + Enc(|t.columns|, 8))))))
  }

  lemma HeaderImage(s: seq<Byte>, t: Table)
    ensures Header(s, t) <==> At(s, 0, FixedMeta(t))
  {
    hide At, Enc, BlockSize, Area, RowSize, NameBytes, RowsAt;
    var b, f, m, d, v, r, c := Enc(BlockSize(t), 8), Enc(FIXED_META_SIZE, 8), Enc(MetaSize(t), 8),
      Enc(Area(RowSize(t.columns), |t.rows|), 8), Enc(t.varSize, 8), Enc(|t.rows|, 8), Enc(|t.columns|, 8);
    AtJoin(s, 0, b, f + (m + (d + (v + (r + c)))));
    AtJoin(s, 8, f, m + (d + (v + (r + c))));
    AtJoin(s, 16, m, d + (v + (r + c)));
    AtJoin(s, 24, d, v + (r + c));
    AtJoin(s, 32, v, r + c);
    AtJoin(s, 40, r, c);
  }

  lemma MetaAsImage(s: seq<Byte>, t: Table)
    ensures Meta(s, t) <==> |s| == BlockSize(t) && At(s, 0, MetaImage(t))
  {
    hide At, Enc, BlockSize, NameBytes, Types, Sizes, Offsets, Names, FixedMeta, Header;
    HeaderImage(s, t);
    var c := |t.columns|;
    var ty, si, of, e, na :=
      Types(t.columns), Sizes(t.columns), Offsets(t.columns), Enc(NameBytes(t.columns), 8), Names(t.columns);
    AtJoin(s, 0, FixedMeta(t), ty + (si + (of + (e + na))));
    AtJoin(s, FIXED_META_SIZE, ty, si + (of + (e + na)));
    AtJoin(s, SizesAt(c), si, of + (e + na));
    AtJoin(s, OffsetsAt(c), of, e + na);
    AtJoin(s, OffsetsAt(c) + 8 * c, e, na);
  }

  /** The sections follow each other without gap or overlap from the first byte on, and only the last may end before
      the block does, by exactly the string bytes that were charged but not stored. */
  lemma SectionsTile(s: seq<Byte>, t: Table)
    requires Typed(t.rows, t.columns)
    ensures BlockOf(s, t) <==> |s| == BlockSize(t) && At(s, 0, Image(t))
    ensures |Image(t)| + t.varSize == BlockSize(t) + RowsText(t.rows)
  {
    hide At, Area, RowSize, RowsAt, MetaImage, RowCells, RowStrings, Typed, RowsText, Meta;
    MetaAsImage(s, t);
    RowCellsLength(t.rows, t.columns, t.varSize);
    RowStringsLength(t.rows);
    var ce, st := RowCells(t.rows, t.varSize), RowStrings(t.rows);
    AtJoin(s, 0, MetaImage(t), ce + st);
    AtJoin(s, RowsAt(t.columns), ce, st);
  }

  // ----- tables that fit their schema

  predicate Fits(v: Value, kind: ColumnType) {
    match kind
    case INT64 => v.Signed?
    case UINT64 => v.Unsigned?
    case DOUBLE => v.Double?
    case STRING => v.Text?
  }

  predicate RowTyped(data: seq<Value>, columns: seq<Column>) {
    |data| == |columns| && forall i :: 0 <= i < |data| ==> Fits(data[i], columns[i].kind)
  }

  predicate Typed(rows: seq<Row>, columns: seq<Column>) {
    forall r :: 0 <= r < |rows| ==> RowTyped(rows[r].data, columns)
  }

  // ----- sizes of sections

  lemma CellLength(v: Value, kind: ColumnType, varSize: nat)
    requires Fits(v, kind)
    ensures |Cell(v, varSize)| == ColumnSize(kind)
  {
  }

  lemma {:induction false} CellsLength(data: seq<Value>, columns: seq<Column>, varSize: nat)
    requires RowTyped(data, columns)
    ensures |Cells(data, varSize)| == RowSize(columns)
  {
    if data != [] {
      var n := |data| - 1;
      CellsLength(data[..n], columns[..n], varSize);
      CellLength(data[n], columns[n].kind, varSize);
    }
  }

  lemma {:induction false} RowCellsLength(rows: seq<Row>, columns: seq<Column>, varSize: nat)
    requires Typed(rows, columns)
    ensures |RowCells(rows, varSize)| == Area(RowSize(columns), |rows|)
  {
    if rows != [] {
      var n := |rows| - 1;
      RowCellsLength(rows[..n], columns, varSize);
      CellsLength(rows[n].data, columns, varSize);
      AreaStep(RowSize(columns), n);
    }
  }

  lemma {:induction false} DataTextAppend(data: seq<Value>, v: Value)
    ensures DataText(data + [v]) == DataText(data) + |Content(v)|
  {
    if data != [] {
      DataTextAppend(data[1..], v);
      assert (data + [v])[1..] == data[1..] + [v];
    }
  }

  lemma DataTextStep(data: seq<Value>, i: nat)
    requires i < |data|
    ensures data[..i + 1][..i] == data[..i] && DataText(data[..i + 1]) == DataText(data[..i]) + |Content(data[i])|
  {
    assert data[..i + 1] == data[..i] + [data[i]];
    DataTextAppend(data[..i], data[i]);
  }

  lemma {:induction false} DataTextMono(data: seq<Value>, i: nat)
    requires i <= |data|
    ensures DataText(data[..i]) <= DataText(data)
    decreases |data| - i
  {
    if i < |data| {
      DataTextStep(data, i);
      DataTextMono(data, i + 1);
    } else {
      assert data[..i] == data;
    }
  }

  lemma {:induction false} RowsTextMono(rows: seq<Row>, r: nat)
    requires r <= |rows|
    ensures RowsText(rows[..r]) <= RowsText(rows)
    ensures r < |rows| ==> RowsText(rows[..r]) + DataText(rows[r].data) <= RowsText(rows)
    decreases |rows|
  {
    if r < |rows| {
      var n := |rows| - 1;
      RowsTextMono(rows[..n], r);
      assert rows[..n][..r] == rows[..r];
    } else {
      assert rows[..r] == rows;
    }
  }

  lemma {:induction false} NameBytesMono(columns: seq<Column>, i: nat)
    requires i <= |columns|
    ensures NameBytes(columns[..i]) <= NameBytes(columns)
    ensures i < |columns| ==> NameBytes(columns[..i]) + |columns[i].name| == NameBytes(columns[..i + 1]) <= NameBytes(columns)
    decreases |columns| - i
  {
    if i < |columns| {
      assert columns[..i + 1][..i] == columns[..i];
      NameBytesMono(columns, i + 1);
    } else {
      assert columns[..i] == columns;
    }
  }

  lemma {:induction false} RowSizeMono(columns: seq<Column>, i: nat)
    requires i <= |columns|
    ensures RowSize(columns[..i]) <= RowSize(columns)
    ensures i < |columns| ==>
              RowSize(columns[..i]) + ColumnSize(columns[i].kind) == RowSize(columns[..i + 1]) <= RowSize(columns)
    decreases |columns| - i
  {
    if i < |columns| {
      assert columns[..i + 1][..i] == columns[..i];
      RowSizeMono(columns, i + 1);
    } else {
      assert columns[..i] == columns;
    }
  }

  lemma {:induction false} StringsLength(data: seq<Value>)
    ensures |Strings(data)| == DataText(data)
  {
    if data != [] {
      var n := |data| - 1;
      StringsLength(data[..n]);
      DataTextAppend(data[..n], data[n]);
      assert data == data[..n] + [data[n]];
    }
  }

  lemma {:induction false} RowStringsLength(rows: seq<Row>)
    ensures |RowStrings(rows)| == RowsText(rows)
  {
    if rows != [] {
      RowStringsLength(rows[..|rows| - 1]);
      StringsLength(rows[|rows| - 1].data);
    }
  }

  // ----- where one element of a section stands

  lemma {:induction false} ColumnPlace(columns: seq<Column>, i: nat)
    requires i < |columns|
    ensures At(Types(columns), 4 * i, Enc(KindCode(columns[i].kind), 4))
    ensures At(Sizes(columns), 8 * i, Enc(ColumnSize(columns[i].kind), 8))
    ensures At(Offsets(columns), 8 * i, Enc(NameBytes(columns[..i]), 8))
    ensures At(Names(columns), NameBytes(columns[..i]), columns[i].name)
    decreases |columns|
  {
    hide At, Enc, KindCode, ColumnSize;
    var n := |columns| - 1;
    var init, last := columns[..n], columns[n];
    if i == n {
      AtSuffix(Types(init), Enc(KindCode(last.kind), 4));
      AtSuffix(Sizes(init), Enc(ColumnSize(last.kind), 8));
      AtSuffix(Offsets(init), Enc(NameBytes(init), 8));
      AtSuffix(Names(init), last.name);
    } else {
      ColumnPlace(init, i);
      assert init[..i] == columns[..i] && init[i] == columns[i];
      AtPrefix(Types(init), Enc(KindCode(last.kind), 4), 4 * i, Enc(KindCode(columns[i].kind), 4));
      AtPrefix(Sizes(init), Enc(ColumnSize(last.kind), 8), 8 * i, Enc(ColumnSize(columns[i].kind), 8));
      AtPrefix(Offsets(init), Enc(NameBytes(init), 8), 8 * i, Enc(NameBytes(columns[..i]), 8));
      AtPrefix(Names(init), last.name, NameBytes(columns[..i]), columns[i].name);
    }
  }

  lemma {:induction false} CellPlace(data: seq<Value>, columns: seq<Column>, varSize: nat, i: nat)
    requires RowTyped(data, columns) && i < |data|
    ensures At(Cells(data, varSize), RowSize(columns[..i]), Cell(data[i], varSize))
    ensures At(Strings(data), DataText(data[..i]), Content(data[i]))
    decreases |data|
  {
    hide At, Cell, ColumnSize, Content, RowSize, DataText;
    var n := |data| - 1;
    if i == n {
      CellsLength(data[..n], columns[..n], varSize);
      StringsLength(data[..n]);
      AtSuffix(Cells(data[..n], varSize), Cell(data[n], varSize));
      AtSuffix(Strings(data[..n]), Content(data[n]));
    } else {
      CellPlace(data[..n], columns[..n], varSize, i);
      assert data[..n][..i] == data[..i] && columns[..n][..i] == columns[..i];
      AtPrefix(Cells(data[..n], varSize), Cell(data[n], varSize), RowSize(columns[..i]), Cell(data[i], varSize));
      AtPrefix(Strings(data[..n]), Content(data[n]), DataText(data[..i]), Content(data[i]));
    }
  }

  lemma {:induction false} RowPlace(rows: seq<Row>, columns: seq<Column>, varSize: nat, r: nat)
    requires Typed(rows, columns) && r < |rows|
    ensures At(RowCells(rows, varSize), Area(RowSize(columns), r), Cells(rows[r].data, varSize))
    ensures At(RowStrings(rows), RowsText(rows[..r]), Strings(rows[r].data))
    decreases |rows|
  {
    hide At, Cells, Strings, RowSize, RowsText, Area;
    var n := |rows| - 1;
    if r == n {
      RowCellsLength(rows[..n], columns, varSize);
      RowStringsLength(rows[..n]);
      AtSuffix(RowCells(rows[..n], varSize), Cells(rows[n].data, varSize));
      AtSuffix(RowStrings(rows[..n]), Strings(rows[n].data));
    } else {
      RowPlace(rows[..n], columns, varSize, r);
      assert rows[..n][..r] == rows[..r];
      AtPrefix(RowCells(rows[..n], varSize), Cells(rows[n].data, varSize), Area(RowSize(columns), r),
               Cells(rows[r].data, varSize));
      AtPrefix(RowStrings(rows[..n]), Strings(rows[n].data), RowsText(rows[..r]), Strings(rows[r].data));
    }
  }
}

/** What the bytes of a block say, from the bytes alone. */
module BlockReader {
  import opened Bytes
  import opened Buffers
  import opened Tables
  import opened BlockLayout

  function Word(s: seq<Byte>, k: nat): U64 {
    LE(Get(s, k, 8)) % 0x1_0000_0000_0000_0000
  }

  function RowCount(s: seq<Byte>): nat { Word(s, 40) }
  function ColumnCount(s: seq<Byte>): nat { Word(s, 48) }
  function RowsStart(s: seq<Byte>): nat { FIXED_META_SIZE + Word(s, 16) }
  function VarStart(s: seq<Byte>): nat { RowsStart(s) + Word(s, 24) }

  function TypeCode(s: seq<Byte>, i: nat): nat { LE(Get(s, FIXED_META_SIZE + 4 * i, 4)) }
  function SizeOf(s: seq<Byte>, i: nat): nat { Word(s, SizesAt(ColumnCount(s)) + 8 * i) }
  function NameOffset(s: seq<Byte>, i: nat): nat { Word(s, OffsetsAt(ColumnCount(s)) + 8 * i) }

  function Name(s: seq<Byte>, i: nat): seq<Byte> {
    var a, b := NameOffset(s, i), NameOffset(s, i + 1);
    if a <= b then Get(s, NamesAt(ColumnCount(s)) + a, b - a) else []
  }

  function ColumnStart(s: seq<Byte>, i: nat): nat {
    if i == 0 then 0 else ColumnStart(s, i - 1) + SizeOf(s, i - 1)
  }

  /** `FixedBlock::read` */
  function CellAt(s: seq<Byte>, row: nat, col: nat): nat {
    RowsStart(s) + Area(ColumnStart(s, ColumnCount(s)), row) + ColumnStart(s, col)
  }

  function StringSize(s: seq<Byte>, row: nat, col: nat): nat {
    if TypeCode(s, col) == KindCode(STRING) then Word(s, CellAt(s, row, col) + 8) else 0
  }

  /** The sizes of all strings before a cell, row by row. */
  function StringStart(s: seq<Byte>, row: nat, col: nat): nat
    decreases row, col
  {
    if col > 0 then StringStart(s, row, col - 1) + StringSize(s, row, col - 1)
    else if row > 0 then StringStart(s, row - 1, ColumnCount(s))
    else 0
  }

  function Read(s: seq<Byte>, row: nat, col: nat): Value {
    var w := Word(s, CellAt(s, row, col));
    if TypeCode(s, col) == KindCode(STRING) then
      Text(Get(s, VarStart(s) + StringStart(s, row, col), StringSize(s, row, col)))
    else if TypeCode(s, col) == KindCode(INT64) then
      Signed(if w < 0x8000_0000_0000_0000 then w else w - 0x1_0000_0000_0000_0000)
    else if TypeCode(s, col) == KindCode(UINT64) then Unsigned(w)
    else Double(w)
  }

  // ----- reading undoes writing

  /** Everything the header counts fits a word. */
  predicate InWords(t: Table) {
    BlockSize(t) <= MAX_U64 && |t.rows| <= MAX_U64
  }

  ghost predicate Readable(s: seq<Byte>, t: Table) {
    BlockOf(s, t) && Typed(t.rows, t.columns) && InWords(t)
  }

  lemma WordAt(s: seq<Byte>, k: nat, v: nat)
    requires At(s, k, Enc(v, 8)) && v <= MAX_U64
    ensures Word(s, k) == v
  {
    hide Enc, LE, Get, At;
    Pow2Constants();
    GetEnc(s, k, v, 8);
  }

  lemma HeaderRead(s: seq<Byte>, t: Table)
    requires Meta(s, t) && InWords(t)
    ensures ColumnCount(s) == |t.columns| && RowCount(s) == |t.rows|
    ensures RowsStart(s) == RowsAt(t.columns) && VarStart(s) == VarAt(t.columns, |t.rows|)
  {
    hide Word, Enc, At, VarMeta, Area, RowSize, NameBytes;
    WordAt(s, 40, |t.rows|);
    WordAt(s, 48, |t.columns|);
    WordAt(s, 16, MetaSize(t));
    WordAt(s, 24, Area(RowSize(t.columns), |t.rows|));
  }

  lemma ColumnRead(s: seq<Byte>, t: Table, i: nat)
    requires Meta(s, t) && InWords(t) && i < |t.columns|
    ensures TypeCode(s, i) == KindCode(t.columns[i].kind) && SizeOf(s, i) == ColumnSize(t.columns[i].kind)
    ensures NameOffset(s, i) == NameBytes(t.columns[..i])
  {
    hide Word, Enc, LE, At, Get, Typed, Header, Area, RowSize, NameBytes, KindCode, ColumnSize;
    var c, kind := |t.columns|, t.columns[i].kind;
    HeaderRead(s, t);
    ColumnPlace(t.columns, i);
    AtPart(s, FIXED_META_SIZE, Types(t.columns), 4 * i, Enc(KindCode(kind), 4));
    AtPart(s, SizesAt(c), Sizes(t.columns), 8 * i, Enc(ColumnSize(kind), 8));
    AtPart(s, OffsetsAt(c), Offsets(t.columns), 8 * i, Enc(NameBytes(t.columns[..i]), 8));
    NameBytesMono(t.columns, i);
    Pow2Constants();
    GetEnc(s, FIXED_META_SIZE + 4 * i, KindCode(kind), 4);
    WordAt(s, SizesAt(c) + 8 * i, ColumnSize(kind));
    WordAt(s, OffsetsAt(c) + 8 * i, NameBytes(t.columns[..i]));
  }

  /** Names are recovered from the offset table, whose last entry closes the last name. */
  lemma NameRead(s: seq<Byte>, t: Table, i: nat)
    requires Meta(s, t) && InWords(t) && i < |t.columns|
    ensures Name(s, i) == t.columns[i].name
  {
    hide Word, Enc, LE, At, Get, Typed, Header, Area, RowSize, NameBytes;
    var c := |t.columns|;
    HeaderRead(s, t);
    ColumnRead(s, t, i);
    NameBytesMono(t.columns, i);
    if i + 1 < c {
      ColumnRead(s, t, i + 1);
    } else {
      assert t.columns[..i + 1] == t.columns;
      WordAt(s, OffsetsAt(c) + 8 * c, NameBytes(t.columns));
    }
    ColumnPlace(t.columns, i);
    AtPart(s, NamesAt(c), Names(t.columns), NameBytes(t.columns[..i]), t.columns[i].name);
    GetAt(s, NamesAt(c) + NameBytes(t.columns[..i]), t.columns[i].name);
  }

  lemma {:induction false} ColumnStartRead(s: seq<Byte>, t: Table, i: nat)
    requires Meta(s, t) && InWords(t) && i <= |t.columns|
    ensures ColumnStart(s, i) == RowSize(t.columns[..i])
  {
    hide Meta, InWords, SizeOf, ColumnSize;
    if i > 0 {
      ColumnStartRead(s, t, i - 1);
      ColumnRead(s, t, i - 1);
      assert t.columns[..i][..i - 1] == t.columns[..i - 1];
    }
  }

  /** A cell and its string stand at the addresses the reader computes. */
  lemma CellRead(s: seq<Byte>, t: Table, row: nat, col: nat)
    requires Readable(s, t) && row < |t.rows| && col < |t.columns|
    ensures |t.rows[row].data| == |t.columns| && Fits(t.rows[row].data[col], t.columns[col].kind)
    ensures var v := t.rows[row].data[col];
            && At(s, CellAt(s, row, col), Cell(v, t.varSize))
            && At(s, VarStart(s) + RowsText(t.rows[..row]) + DataText(t.rows[row].data[..col]), Content(v))
  {
    hide Word, At, Header, VarMeta, Area, RowSize, RowsText, DataText, Cell, Cells, Strings, Content, RowCells, RowStrings,
         Fits;
    var data := t.rows[row].data;
    assert RowTyped(data, t.columns);
    HeaderRead(s, t);
    ColumnStartRead(s, t, col);
    ColumnStartRead(s, t, |t.columns|);
    assert t.columns[..|t.columns|] == t.columns;
    RowPlace(t.rows, t.columns, t.varSize, row);
    CellPlace(data, t.columns, t.varSize, col);
    var rowAt, textAt := Area(RowSize(t.columns), row), RowsText(t.rows[..row]);
    AtPart(s, RowsAt(t.columns), RowCells(t.rows, t.varSize), rowAt, Cells(data, t.varSize));
    AtPart(s, RowsAt(t.columns) + rowAt, Cells(data, t.varSize), RowSize(t.columns[..col]), Cell(data[col], t.varSize));
    AtPart(s, VarAt(t.columns, |t.rows|), RowStrings(t.rows), textAt, Strings(data));
    AtPart(s, VarAt(t.columns, |t.rows|) + textAt, Strings(data), DataText(data[..col]), Content(data[col]));
  }

  /** The two words of a string cell: the size of all strings where an offset is expected, and the string's own length. */
  lemma StringCellRead(s: seq<Byte>, t: Table, row: nat, col: nat)
    requires Readable(s, t) && row < |t.rows| && col < |t.columns|
    ensures |t.rows[row].data| == |t.columns|
    ensures StringSize(s, row, col) == |Content(t.rows[row].data[col])|
    ensures t.columns[col].kind.STRING? ==> Word(s, CellAt(s, row, col)) == t.varSize
  {
    hide Word, At, Enc, CellAt, Typed, Header, VarMeta, Area, RowSize, RowsText, DataText, RowCells, RowStrings, Get, LE;
    CellRead(s, t, row, col);
    ColumnRead(s, t, col);
    var v, at := t.rows[row].data[col], CellAt(s, row, col);
    if v.Text? {
      AtJoin(s, at, Enc(t.varSize, 8), Enc(|v.s|, 8));
      ContentBound(s, t, row, col);
      WordAt(s, at, t.varSize);
      WordAt(s, at + 8, |v.s|);
    }
  }

  lemma ContentBound(s: seq<Byte>, t: Table, row: nat, col: nat)
    requires Readable(s, t) && row < |t.rows| && col < |t.columns|
    ensures |t.rows[row].data| == |t.columns| && |Content(t.rows[row].data[col])| <= MAX_U64
  {
    hide Word, CellAt, Typed, Header, VarMeta, Area, RowSize, RowsText, DataText, RowCells, RowStrings, Cell;
    CellRead(s, t, row, col);
  }

  lemma NoText()
    ensures DataText([]) == 0
  {
  }

  lemma {:induction false} StringStartRead(s: seq<Byte>, t: Table, row: nat, col: nat)
    requires Readable(s, t) && row < |t.rows| && col <= |t.columns|
    ensures |t.rows[row].data| == |t.columns|
    ensures StringStart(s, row, col) == RowsText(t.rows[..row]) + DataText(t.rows[row].data[..col])
    decreases row, col
  {
    hide Meta, Area, RowSize, RowsAt, RowCells, RowStrings, At, StringSize, Content, DataText;
    var data := t.rows[row].data;
    assert RowTyped(data, t.columns);
    NoText();
    if col > 0 {
      StringStartRead(s, t, row, col - 1);
      StringCellRead(s, t, row, col - 1);
      DataTextStep(data, col - 1);
    } else if row > 0 {
      HeaderRead(s, t);
      StringStartRead(s, t, row - 1, |t.columns|);
      assert t.rows[row - 1].data[..|t.columns|] == t.rows[row - 1].data;
      assert t.rows[..row][..row - 1] == t.rows[..row - 1];
    }
  }

  /** Round trip: every cell of the table is read back from the bytes of its block, strings through the sum of the
      sizes before them. */
  lemma ReadBack(s: seq<Byte>, t: Table, row: nat, col: nat)
    requires Readable(s, t) && row < |t.rows| && col < |t.columns|
    ensures |t.rows[row].data| == |t.columns|
    ensures Read(s, row, col) == t.rows[row].data[col]
  {
    hide Word, At, Enc, CellAt, Typed, Header, VarMeta, Area, RowSize, RowsText, DataText, RowCells, RowStrings, Get, LE,
         StringStart, StringSize;
    CellRead(s, t, row, col);
    ColumnRead(s, t, col);
    var v, at := t.rows[row].data[col], CellAt(s, row, col);
    if v.Text? {
      StringStartRead(s, t, row, col);
      StringCellRead(s, t, row, col);
      GetAt(s, VarStart(s) + StringStart(s, row, col), v.s);
    } else {
      WordAt(s, at, match v case Unsigned(n) => n case Double(b) => b
                    case Signed(i) => if i < 0 then i + 0x1_0000_0000_0000_0000 else i);
    }
  }

  // ----- the format in numbers

  /** The seven words of the header: sizes of the block, of the fixed metadata, of the column metadata, of the rows and of
      the strings, and the numbers of rows and columns. */
  lemma HeaderInNumbers(s: seq<Byte>, t: Table)
    requires Readable(s, t)
    ensures var c, names, rows := |t.columns|, NameBytes(t.columns), Area(RowSize(t.columns), |t.rows|);
            && Word(s, 0) == |s| == 64 + 20 * c + names + rows + t.varSize
            && Word(s, 8) == 56 && Word(s, 16) == 20 * c + 8 + names && Word(s, 24) == rows
            && Word(s, 32) == t.varSize && Word(s, 40) == |t.rows| && Word(s, 48) == c
  {
    hide Word, Enc, At, VarMeta, Area, RowSize, NameBytes, Typed, RowCells, RowStrings;
    var size := BlockSize(t);
    assert size == 64 + 20 * |t.columns| + NameBytes(t.columns) + Area(RowSize(t.columns), |t.rows|) + t.varSize;
    WordAt(s, 0, size);
    WordAt(s, 8, 56);
    WordAt(s, 16, MetaSize(t));
    WordAt(s, 24, Area(RowSize(t.columns), |t.rows|));
    WordAt(s, 32, t.varSize);
    WordAt(s, 40, |t.rows|);
    WordAt(s, 48, |t.columns|);
  }

  /** The metadata of one column: a type code of four bytes, a cell size of 8 or 16, and the offset of its name. */
  lemma ColumnInNumbers(s: seq<Byte>, t: Table, i: nat)
    requires Readable(s, t) && i < |t.columns|
    ensures var c, kind := |t.columns|, t.columns[i].kind;
            && LE(Get(s, 56 + 4 * i, 4)) == (if kind.INT64? then 0 else if kind.UINT64? then 1 else if kind.DOUBLE? then 2 else 3)
            && Word(s, 56 + 4 * c + 8 * i) == (if kind.STRING? then 16 else 8)
            && Word(s, 56 + 12 * c + 8 * i) == NameBytes(t.columns[..i])
            && Get(s, 64 + 20 * c + NameBytes(t.columns[..i]), |t.columns[i].name|) == t.columns[i].name
  {
    hide Word, Enc, LE, At, Get, Typed, Header, VarMeta, Area, RowSize, NameBytes, RowCells, RowStrings;
    HeaderRead(s, t);
    ColumnRead(s, t, i);
    NameBytesMono(t.columns, i);
    NameAt(s, t, i);
    GetAt(s, NamesAt(|t.columns|) + NameBytes(t.columns[..i]), t.columns[i].name);
  }

  lemma NameAt(s: seq<Byte>, t: Table, i: nat)
    requires Meta(s, t) && i < |t.columns|
    ensures At(s, NamesAt(|t.columns|) + NameBytes(t.columns[..i]), t.columns[i].name)
  {
    hide At, Header, NameBytes, Area, RowSize;
    ColumnPlace(t.columns, i);
    AtPart(s, NamesAt(|t.columns|), Names(t.columns), NameBytes(t.columns[..i]), t.columns[i].name);
  }

  /** Read through the recorded offset, a string lies inside the strings of the block only if it is empty. */
  lemma RecordedOffset(s: seq<Byte>, t: Table, row: nat, col: nat)
    requires Readable(s, t) && row < |t.rows| && col < |t.columns| && t.columns[col].kind.STRING?
    ensures |t.rows[row].data| == |t.columns|
    ensures Word(s, CellAt(s, row, col)) + StringSize(s, row, col) <= t.varSize <==> Content(t.rows[row].data[col]) == []
  {
    hide Readable, Word, CellAt, StringSize;
    StringCellRead(s, t, row, col);
  }
}

/** The block object. */
module SSTBlocks {
  import opened Bytes
  import opened Buffers
  import opened Tables
  import opened Memtables
  import Wrappers
  import opened BlockLayout
  import opened BlockReader

  lemma PrefixSections(columns: seq<Column>, i: nat)
    requires i < |columns|
    ensures Types(columns[..i + 1]) == Types(columns[..i]) + Enc(KindCode(columns[i].kind), 4)
    ensures Sizes(columns[..i + 1]) == Sizes(columns[..i]) + Enc(ColumnSize(columns[i].kind), 8)
    ensures Offsets(columns[..i + 1]) == Offsets(columns[..i]) + Enc(NameBytes(columns[..i]), 8)
    ensures Names(columns[..i + 1]) == Names(columns[..i]) + columns[i].name
  {
    hide Enc;
    assert columns[..i + 1][..i] == columns[..i];
  }

  /** The row loop of `flushBlock` and of `serializeMemtable`: width of a row and start of each column. */
  method RowLayout(columns: seq<Column>) returns (width: nat, starts: seq<nat>)
    ensures width == RowSize(columns)
    ensures |starts| == |columns| && forall i :: 0 <= i < |columns| ==> starts[i] == RowSize(columns[..i])
  {
    width, starts := 0, [];
    for i := 0 to |columns|
      invariant width == RowSize(columns[..i])
      invariant |starts| == i && forall k :: 0 <= k < i ==> starts[k] == RowSize(columns[..k])
    {
      assert columns[..i + 1][..i] == columns[..i];
      starts := starts + [width];
      width := width + ColumnSize(columns[i].kind);
    }
    assert columns[..|columns|] == columns;
  }

  /** Where the next cell and the next string go, and that both stay inside the block. */
  lemma CellFits(t: Table, rowID: nat, idx: nat)
    requires rowID < |t.rows| && |t.rows[rowID].data| == |t.columns| > idx && RowsText(t.rows) <= t.varSize
    requires Typed(t.rows[..rowID], t.columns) && RowTyped(t.rows[rowID].data[..idx], t.columns[..idx])
    ensures var data := t.rows[rowID].data;
            && |RowCells(t.rows[..rowID], t.varSize) + Cells(data[..idx], t.varSize)|
               == Area(RowSize(t.columns), rowID) + RowSize(t.columns[..idx])
            && |RowStrings(t.rows[..rowID]) + Strings(data[..idx])| == RowsText(t.rows[..rowID]) + DataText(data[..idx])
            && RowsAt(t.columns) + Area(RowSize(t.columns), rowID) + RowSize(t.columns[..idx]) + ColumnSize(t.columns[idx].kind)
               <= VarAt(t.columns, |t.rows|)
            && VarAt(t.columns, |t.rows|) + RowsText(t.rows[..rowID]) + DataText(data[..idx]) + |Content(data[idx])|
               <= BlockSize(t)
  {
    hide RowCells, Cells, RowStrings, Strings, Typed, RowTyped, RowSize, RowsText, DataText, Area, ColumnSize, Content, RowsAt;
    var data, width := t.rows[rowID].data, RowSize(t.columns);
    RowCellsLength(t.rows[..rowID], t.columns, t.varSize);
    CellsLength(data[..idx], t.columns[..idx], t.varSize);
    RowStringsLength(t.rows[..rowID]);
    StringsLength(data[..idx]);
    RowSizeMono(t.columns, idx);
    AreaStep(width, rowID);
    AreaMono(width, rowID + 1, |t.rows|);
    DataTextStep(data, idx);
    DataTextMono(data, idx + 1);
    RowsTextMono(t.rows, rowID);
  }

  lemma CellsStep(data: seq<Value>, idx: nat, varSize: nat, cells: seq<Byte>, strings: seq<Byte>)
    requires idx < |data|
    ensures (cells + Cells(data[..idx], varSize)) + Cell(data[idx], varSize) == cells + Cells(data[..idx + 1], varSize)
    ensures (strings + Strings(data[..idx])) + Content(data[idx]) == strings + Strings(data[..idx + 1])
    ensures DataText(data[..idx + 1]) == DataText(data[..idx]) + |Content(data[idx])|
  {
    hide Cell, Content, DataText;
    DataTextStep(data, idx);
    SeqAssoc(cells, Cells(data[..idx], varSize), Cell(data[idx], varSize));
    SeqAssoc(strings, Strings(data[..idx]), Content(data[idx]));
  }

  class SSTBlock {
    const buffer: array<Byte>
    var columnTypes: nat          // pointers into the buffer, as indices
    var columnSize: nat
    var columnNameOffsets: nat
    var columnNames: nat
    var rows: nat
    var varBuffer: nat

    /** A block to be filled. */
    constructor (bufferSize: nat)
      requires bufferSize >= FIXED_META_SIZE
      ensures fresh(buffer) && buffer.Length == bufferSize
      ensures At(buffer[..], 0, Enc(bufferSize, 8)) && At(buffer[..], 8, Enc(FIXED_META_SIZE, 8))
    {
      buffer := new Byte[bufferSize];
      columnTypes, columnSize, columnNameOffsets, columnNames, rows, varBuffer := 0, 0, 0, 0, 0, 0;
      new;
      hide At, Enc;
      Memcpy(buffer, 0, Enc(bufferSize, 8));
      Memcpy(buffer, 8, Enc(FIXED_META_SIZE, 8));
    }

    /** A block that was read from a file: all addresses come from its header. */
    constructor FromBuffer(buffer: array<Byte>)
      requires buffer.Length >= FIXED_META_SIZE
      ensures this.buffer == buffer && PointersOf(buffer[..])
    {
      this.buffer := buffer;
      var s := buffer[..];
      columnTypes := FIXED_META_SIZE;
      columnSize := FIXED_META_SIZE + 4 * ColumnCount(s);
      columnNameOffsets := FIXED_META_SIZE + 4 * ColumnCount(s) + 8 * ColumnCount(s);
      columnNames := FIXED_META_SIZE + 4 * ColumnCount(s) + 8 * ColumnCount(s) + 8 * (ColumnCount(s) + 1);
      rows := FIXED_META_SIZE + Word(s, 16);
      varBuffer := FIXED_META_SIZE + Word(s, 16) + Word(s, 24);
    }

    /** The addresses a reader takes from the bytes s. */
    ghost predicate PointersOf(s: seq<Byte>)
      reads this
    {
      && columnTypes == FIXED_META_SIZE && columnSize == SizesAt(ColumnCount(s))
      && columnNameOffsets == OffsetsAt(ColumnCount(s)) && columnNames == NamesAt(ColumnCount(s))
      && rows == RowsStart(s) && varBuffer == VarStart(s)
    }

    /** The addresses a writer uses for the table t. */
    ghost predicate PointersFor(t: Table)
      reads this
    {
      && columnTypes == FIXED_META_SIZE && columnSize == SizesAt(|t.columns|)
      && columnNameOffsets == OffsetsAt(|t.columns|) && columnNames == NamesAt(|t.columns|)
      && rows == RowsAt(t.columns) && varBuffer == VarAt(t.columns, |t.rows|)
    }

    /** The loop body of `BlockVarMeta::serialize`. */
    method SerializeColumn(ghost t: Table, columns: seq<Column>, idx: nat, nameOffset: nat)
      requires columns == t.columns && buffer.Length == BlockSize(t) && PointersFor(t)
      requires idx < |columns| && nameOffset == NameBytes(columns[..idx])
      requires nameOffset + |columns[idx].name| <= NameBytes(columns)
      requires At(buffer[..], 0, FixedMeta(t)) && VarMeta(buffer[..], columns[..idx], |columns|)
      modifies buffer
      ensures At(buffer[..], 0, FixedMeta(t)) && VarMeta(buffer[..], columns[..idx + 1], |columns|)
    {
      hide At, Enc, Area, RowSize, NameBytes, Types, Sizes, Offsets, Names, KindCode, ColumnSize, FixedMeta;
      ghost var before, c := columns[..idx], |columns|;
      PrefixSections(columns, idx);
      Extend(buffer, columnTypes + 4 * idx, Enc(KindCode(columns[idx].kind), 4), FIXED_META_SIZE, Types(before));
      Extend(buffer, columnNameOffsets + 8 * idx, Enc(nameOffset, 8), OffsetsAt(c), Offsets(before));
      Extend(buffer, columnNames + nameOffset, columns[idx].name, NamesAt(c), Names(before));
      Extend(buffer, columnSize + 8 * idx, Enc(ColumnSize(columns[idx].kind), 8), SizesAt(c), Sizes(before));
    }

    /** `BlockVarMeta::serialize` */
    method SerializeVarMeta(ghost t: Table, columns: seq<Column>)
      requires columns == t.columns && buffer.Length == BlockSize(t)
      requires PointersFor(t) && Header(buffer[..], t)
      modifies buffer
      ensures Meta(buffer[..], t)
    {
      hide At, Enc, Area, RowSize, NameBytes, Types, Sizes, Offsets, Names, Header, FixedMeta, VarMeta;
      HeaderImage(buffer[..], t);
      var idx, nameOffset := 0, 0;
      ghost var c := |columns|;
      EmptyVarMeta(buffer[..], c);
      assert columns[..0] == [];
      while idx < |columns|
        invariant 0 <= idx <= |columns| && nameOffset == NameBytes(columns[..idx])
        invariant At(buffer[..], 0, FixedMeta(t)) && VarMeta(buffer[..], columns[..idx], c)
      {
        NameBytesMono(columns, idx);
        SerializeColumn(t, columns, idx, nameOffset);
        nameOffset := nameOffset + |columns[idx].name|;
        idx := idx + 1;
      }
      assert columns[..|columns|] == columns;
      CloseNames(t, idx, nameOffset);
    }

    /** The end of the last name closes the offset table. */
    method CloseNames(ghost t: Table, columnCount: nat, nameOffset: nat)
      requires columnCount == |t.columns| && nameOffset == NameBytes(t.columns)
      requires buffer.Length == BlockSize(t) && PointersFor(t)
      requires At(buffer[..], 0, FixedMeta(t)) && VarMeta(buffer[..], t.columns, |t.columns|)
      modifies buffer
      ensures Meta(buffer[..], t)
    {
      hide At, Enc, Area, RowSize, NameBytes, Types, Sizes, Offsets, Names, Header, FixedMeta;
      Memcpy(buffer, columnNameOffsets + 8 * columnCount, Enc(nameOffset, 8));
      HeaderImage(buffer[..], t);
    }

    static lemma EmptyVarMeta(s: seq<Byte>, c: nat)
      requires NamesAt(c) <= |s|
      ensures NameBytes([]) == 0 && VarMeta(s, [], c)
    {
    }

    /** What stands in the buffer when rows before rowID and the first cells of row rowID are done. */
    ghost predicate Done(t: Table, rowID: nat, idx: nat)
      requires rowID < |t.rows| && idx <= |t.rows[rowID].data|
      reads this, buffer
    {
      var data := t.rows[rowID].data[..idx];
      && At(buffer[..], 0, MetaImage(t))
      && At(buffer[..], rows, RowCells(t.rows[..rowID], t.varSize) + Cells(data, t.varSize))
      && At(buffer[..], varBuffer, RowStrings(t.rows[..rowID]) + Strings(data))
    }

    /** A table whose rows are as long as its schema and whose strings were charged for. */
    ghost predicate Serializable(t: Table)
      reads this
    {
      && buffer.Length == BlockSize(t) && PointersFor(t) && InWords(t)
      && RowsText(t.rows) <= t.varSize
      && forall r :: 0 <= r < |t.rows| ==> |t.rows[r].data| == |t.columns|
    }

    /** The bytes of a value that has the type the buffer records; None where `std::get` throws. */
    static function Encoded(v: Value, code: nat, varSize: nat): Wrappers.Option<seq<Byte>> {
      if code == KindCode(STRING) then
        if v.Text? then Wrappers.Some(Enc(varSize, 8) + Enc(|v.s|, 8)) else Wrappers.None
      else if code == KindCode(INT64) then
        if v.Signed? then Wrappers.Some(Enc(if v.i < 0 then v.i + 0x1_0000_0000_0000_0000 else v.i, 8)) else Wrappers.None
      else if code == KindCode(UINT64) then
        if v.Unsigned? then Wrappers.Some(Enc(v.n, 8)) else Wrappers.None
      else
        if v.Double? then Wrappers.Some(Enc(v.bits, 8)) else Wrappers.None
    }

    static lemma EncodedIsCell(v: Value, kind: ColumnType, varSize: nat)
      ensures Encoded(v, KindCode(kind), varSize) == if Fits(v, kind) then Wrappers.Some(Cell(v, varSize)) else Wrappers.None
    {
    }

    /** The body of the column loop of `serializeMemtable`; false where `std::get` throws. */
    method SerializeCell(ghost t: Table, v: Value, rowID: nat, idx: nat, width: nat, start: nat, varSize: nat, varOffset: nat)
      returns (ok: bool, newOffset: nat)
      requires Serializable(t) && rowID < |t.rows| && idx < |t.columns| && v == t.rows[rowID].data[idx]
      requires Typed(t.rows[..rowID], t.columns) && RowTyped(t.rows[rowID].data[..idx], t.columns[..idx])
      requires width == RowSize(t.columns) && start == RowSize(t.columns[..idx]) && varSize == t.varSize
      requires varOffset == RowsText(t.rows[..rowID]) + DataText(t.rows[rowID].data[..idx])
      requires Done(t, rowID, idx)
      modifies buffer
      ensures ok == Fits(v, t.columns[idx].kind)
      ensures ok ==> newOffset == RowsText(t.rows[..rowID]) + DataText(t.rows[rowID].data[..idx + 1])
      ensures ok ==> Done(t, rowID, idx + 1)
    {
      hide At, Enc, Cell, Cells, RowCells, Strings, RowStrings, Fits, Typed, RowTyped, RowSize, Area, RowsText, DataText,
           MetaImage, Word, TypeCode, InWords, BlockSize, KindCode, Encoded, LE, Get;
      CellFits(t, rowID, idx);
      CellsStep(t.rows[rowID].data, idx, varSize, RowCells(t.rows[..rowID], varSize), RowStrings(t.rows[..rowID]));
      MetaAsImage(buffer[..], t);
      ColumnRead(buffer[..], t, idx);
      HeaderRead(buffer[..], t);
      var columnType := TypeCode(buffer[..], idx);
      var size := Word(buffer[..], columnSize + 8 * idx);
      EncodedIsCell(v, t.columns[idx].kind, varSize);
      var bytes := Encoded(v, columnType, varSize);
      if bytes.None? {
        return false, varOffset;
      }
      ok, newOffset := true, varOffset;
      CellLength(v, t.columns[idx].kind, varSize);
      assert bytes.value[..size] == bytes.value;
      Extend(buffer, rows + Area(width, rowID) + start, bytes.value[..size],
             rows, RowCells(t.rows[..rowID], varSize) + Cells(t.rows[rowID].data[..idx], varSize));
      if v.Text? {
        Extend(buffer, varBuffer + varOffset, v.s, varBuffer, RowStrings(t.rows[..rowID]) + Strings(t.rows[rowID].data[..idx]));
        newOffset := varOffset + |v.s|;
      } else {
        assert (RowStrings(t.rows[..rowID]) + Strings(t.rows[rowID].data[..idx])) + []
            == RowStrings(t.rows[..rowID]) + Strings(t.rows[rowID].data[..idx]);
      }
    }

    ghost predicate RowsDone(t: Table, rowCount: nat)
      requires rowCount <= |t.rows|
      reads this, buffer
    {
      && At(buffer[..], 0, MetaImage(t))
      && At(buffer[..], rows, RowCells(t.rows[..rowCount], t.varSize))
      && At(buffer[..], varBuffer, RowStrings(t.rows[..rowCount]))
    }

    lemma RowBegins(t: Table, rowID: nat)
      requires rowID < |t.rows| && RowsDone(t, rowID)
      ensures Done(t, rowID, 0) && DataText(t.rows[rowID].data[..0]) == 0
    {
      hide At, RowCells, RowStrings, MetaImage;
      assert RowCells(t.rows[..rowID], t.varSize) + [] == RowCells(t.rows[..rowID], t.varSize);
      assert RowStrings(t.rows[..rowID]) + [] == RowStrings(t.rows[..rowID]);
    }

    lemma RowEnds(t: Table, rowID: nat)
      requires rowID < |t.rows| && Done(t, rowID, |t.rows[rowID].data|)
      ensures RowsDone(t, rowID + 1)
      ensures RowsText(t.rows[..rowID + 1])
           == RowsText(t.rows[..rowID]) + DataText(t.rows[rowID].data[..|t.rows[rowID].data|])
    {
      hide At, Cells, Strings, DataText, MetaImage;
      assert t.rows[..rowID + 1][..rowID] == t.rows[..rowID];
      assert t.rows[rowID].data[..|t.rows[rowID].data|] == t.rows[rowID].data;
    }

    /** The column loop of `serializeMemtable`. */
    method SerializeRow(ghost t: Table, data: seq<Value>, rowID: nat, width: nat, starts: seq<nat>,
                        varSize: nat, varOffset: nat)
      returns (ok: bool, newOffset: nat)
      requires Serializable(t) && rowID < |t.rows| && data == t.rows[rowID].data
      requires width == RowSize(t.columns) && varSize == t.varSize
      requires |starts| == |t.columns| && forall i :: 0 <= i < |starts| ==> starts[i] == RowSize(t.columns[..i])
      requires Typed(t.rows[..rowID], t.columns) && varOffset == RowsText(t.rows[..rowID])
      requires RowsDone(t, rowID)
      modifies buffer
      ensures ok == RowTyped(data, t.columns)
      ensures ok ==> newOffset == RowsText(t.rows[..rowID + 1]) && RowsDone(t, rowID + 1)
    {
      hide At, RowSize, DataText, RowsText, RowCells, Cells, RowStrings, Strings, MetaImage, Fits, Area, BlockSize,
           RowsAt, VarAt,
           Done, RowsDone, Typed;
      RowBegins(t, rowID);
      ok, newOffset := true, varOffset;
      for idx := 0 to |data|
        invariant RowTyped(data[..idx], t.columns[..idx])
        invariant newOffset == RowsText(t.rows[..rowID]) + DataText(data[..idx])
        invariant ok && Done(t, rowID, idx)
      {
        ok, newOffset := SerializeCell(t, data[idx], rowID, idx, width, starts[idx], varSize, newOffset);
        if !ok {
          return;
        }
      }
      assert data[..|data|] == data && t.columns[..|data|] == t.columns;
      RowEnds(t, rowID);
    }

    /** `serializeMemtable`; false where `std::get` throws, which is exactly when a value does not have its column's type. */
    method SerializeMemtable(memtable: Memtable) returns (ok: bool)
      requires memtable.Valid() && TableInv(memtable.View())
      requires buffer.Length == BlockSize(memtable.View()) && InWords(memtable.View())
      requires At(buffer[..], 0, Enc(buffer.Length, 8)) && At(buffer[..], 8, Enc(FIXED_META_SIZE, 8))
      modifies this, buffer
      ensures ok == Typed(memtable.table, memtable.columns)
      ensures ok ==> BlockOf(buffer[..], memtable.View()) && PointersFor(memtable.View())
    {
      hide At, RowSize, DataText, RowsText, RowCells, Cells, RowStrings, Strings, MetaImage, Fits, Area, RowTyped,
           RowsDone, Enc,
           NameBytes, TimesExact;
      ghost var t := memtable.View();
      var columns, table, varSize := memtable.columns, memtable.table, memtable.varDataSize;
      var width, starts := RowLayout(columns);
      WriteHeader(t, columns, |table|, memtable.columnNameSize, width, varSize);
      SerializeVarMeta(t, columns);
      MetaAsImage(buffer[..], t);
      NoRows(t);
      var rowID, varOffset := 0, 0;
      while rowID < |table|
        invariant rowID <= |table| && Serializable(t) && Typed(t.rows[..rowID], t.columns)
        invariant varOffset == RowsText(t.rows[..rowID]) && RowsDone(t, rowID)
      {
        ok, varOffset := SerializeRow(t, table[rowID].data, rowID, width, starts, varSize, varOffset);
        if !ok {
          return;
        }
        rowID := rowID + 1;
      }
      ok := true;
      assert t.rows[..|table|] == t.rows;
      AllRowsDone(t);
    }

    lemma NoRows(t: Table)
      requires buffer.Length == BlockSize(t) && PointersFor(t) && At(buffer[..], 0, MetaImage(t))
      ensures RowsDone(t, 0) && RowsText(t.rows[..0]) == 0
    {
    }

    lemma AllRowsDone(t: Table)
      requires Serializable(t) && RowsDone(t, |t.rows|)
      ensures BlockOf(buffer[..], t)
    {
      hide At, RowCells, RowStrings, MetaImage, Meta, RowsText, NameBytes, RowSize, Area;
      assert t.rows[..|t.rows|] == t.rows;
      MetaAsImage(buffer[..], t);
    }

    /** The fixed metadata and the section pointers. */
    method WriteHeader(ghost t: Table, columns: seq<Column>, rowCount: nat, nameSize: nat, width: nat, varSize: nat)
      requires columns == t.columns && rowCount == |t.rows| && nameSize == NameBytes(columns) && varSize == t.varSize
      requires width == RowSize(columns) && buffer.Length == BlockSize(t)
      requires At(buffer[..], 0, Enc(buffer.Length, 8)) && At(buffer[..], 8, Enc(FIXED_META_SIZE, 8))
      modifies this, buffer
      ensures PointersFor(t) && Header(buffer[..], t)
    {
      hide At, Enc, NameBytes, RowSize, Area;
      var columnCount := |columns|;
      var metaSize := 4 * columnCount + 8 * columnCount + 8 * (columnCount + 1) + nameSize;
      Memcpy(buffer, 40, Enc(rowCount, 8));
      Memcpy(buffer, 48, Enc(columnCount, 8));
      Memcpy(buffer, 16, Enc(metaSize, 8));
      Memcpy(buffer, 24, Enc(Area(width, rowCount), 8));
      Memcpy(buffer, 32, Enc(varSize, 8));
      rows := FIXED_META_SIZE + metaSize;
      varBuffer := FIXED_META_SIZE + metaSize + Area(width, rowCount);
      columnTypes := FIXED_META_SIZE;
      columnSize := FIXED_META_SIZE + 4 * columnCount;
      columnNameOffsets := FIXED_META_SIZE + 4 * columnCount + 8 * columnCount;
      columnNames := FIXED_META_SIZE + 4 * columnCount + 8 * columnCount + 8 * (columnCount + 1);
    }
  }
}

/** Blocks in a file: `SSTBlockMeta` and `SST`. */
module SSTFiles {
  import opened Bytes
  import opened Buffers
  import opened Tables
  import opened Memtables
  import opened BlockLayout
  import opened BlockReader
  import opened SSTBlocks

  /** A file that is only ever written at its end. */
  class File {
    var bytes: seq<Byte>

    constructor ()
      ensures bytes == []
    {
      bytes := [];
    }

    method Append(data: seq<Byte>)
      modifies this
      ensures bytes == old(bytes) + data
    {
      bytes := bytes + data;
    }
  }

  /** The block of t stands in the file from the offset on. */
  ghost predicate BlockAt(file: seq<Byte>, offset: nat, t: Table) {
    offset + BlockSize(t) <= |file| && BlockOf(file[offset..offset + BlockSize(t)], t)
  }

  /** Whatever is appended later, by this object or another, a stored block stays where it is. */
  lemma BlockStays(file: seq<Byte>, more: seq<Byte>, offset: nat, t: Table)
    requires BlockAt(file, offset, t)
    ensures BlockAt(file + more, offset, t)
  {
    hide BlockOf, BlockSize;
    assert (file + more)[offset..offset + BlockSize(t)] == file[offset..offset + BlockSize(t)];
  }

  lemma HeaderSize(file: seq<Byte>, offset: nat, t: Table)
    requires BlockAt(file, offset, t) && InWords(t)
    ensures Word(file, offset) == BlockSize(t) >= FIXED_META_SIZE
  {
    hide Word, Enc, At, VarMeta, RowsAt;
    assert RowsAt(t.columns) >= FIXED_META_SIZE by { HeaderFirst(t.columns); }
    var s := file[offset..offset + BlockSize(t)];
    WholeAt(file, offset, s);
    AtPart(file, offset, s, 0, Enc(BlockSize(t), 8));
    WordAt(file, offset, BlockSize(t));
  }

  lemma HeaderFirst(columns: seq<Column>)
    ensures RowsAt(columns) >= FIXED_META_SIZE
  {
  }

  lemma WholeAt(file: seq<Byte>, offset: nat, s: seq<Byte>)
    requires offset + |s| <= |file| && file[offset..offset + |s|] == s
    ensures At(file, offset, s)
  {
  }

  datatype Load = Loaded(block: SSTBlock) | OutOfRange

  datatype FlushResult = Stored | AlreadyStored | BadValue

  class SSTBlockMeta {
    var fileOffset: nat
    const startTime: U64
    const endTime: U64
    var stored: bool

    constructor (startTime: U64, endTime: U64)
      ensures !stored && this.startTime == startTime && this.endTime == endTime
    {
      fileOffset, this.startTime, this.endTime, stored := 0, startTime, endTime, false;
    }

    /** `flushBlock`: the block of the memtable goes to the end of the file, and its offset is remembered. */
    method FlushBlock(file: File, memtable: Memtable) returns (r: FlushResult)
      requires memtable.Valid() && TableInv(memtable.View()) && InWords(memtable.View())
      modifies this, file
      ensures r == if old(stored) then AlreadyStored else if Typed(memtable.table, memtable.columns) then Stored else BadValue
      ensures !r.Stored? ==> file.bytes == old(file.bytes) && stored == old(stored) && fileOffset == old(fileOffset)
      ensures r.Stored? ==> stored && fileOffset == |old(file.bytes)| && old(file.bytes) <= file.bytes
      ensures r.Stored? ==> BlockOf(file.bytes[fileOffset..], memtable.View())
    {
      hide At, RowSize, Area, NameBytes, Enc, BlockOf, TableInv, InWords, Typed;
      if stored {
        return AlreadyStored;
      }
      var columnCount := |memtable.columns|;
      var diskSize := FIXED_META_SIZE + 4 * columnCount + 8 * columnCount + 8 * (columnCount + 1) + memtable.columnNameSize;
      var width, starts := RowLayout(memtable.columns);
      diskSize := diskSize + Area(width, |memtable.table|);
      diskSize := diskSize + memtable.varDataSize;
      var block := new SSTBlock(diskSize);
      var ok := block.SerializeMemtable(memtable);
      if !ok {
        return BadValue;
      }
      fileOffset := |file.bytes|;
      file.Append(block.buffer[..]);
      stored := true;
      assert file.bytes[fileOffset..] == block.buffer[..];
      r := Stored;
    }

    /** `loadBlock`: a file that ends at or before the offset is an error; otherwise as many bytes as the header says. */
    method LoadBlock(file: File) returns (r: Load)
      requires fileOffset < |file.bytes| ==> Word(file.bytes, fileOffset) >= FIXED_META_SIZE
      ensures r.OutOfRange? <==> fileOffset >= |file.bytes|
      ensures r.Loaded? ==>
        var n := Word(file.bytes, fileOffset);
        && r.block.buffer.Length == n && r.block.PointersOf(r.block.buffer[..])
        && (fileOffset + n <= |file.bytes| ==> r.block.buffer[..] == file.bytes[fileOffset..fileOffset + n])
    {
      hide Word;
      if fileOffset >= |file.bytes| {
        return OutOfRange;
      }
      var blockSize := Word(file.bytes, fileOffset);
      var buffer := new Byte[blockSize];
      var present := if fileOffset + blockSize <= |file.bytes| then blockSize else |file.bytes| - fileOffset;
      forall i | 0 <= i < present {
        buffer[i] := file.bytes[fileOffset + i];
      }
      var block := new SSTBlock.FromBuffer(buffer);
      r := Loaded(block);
    }
  }

  class SST {
    const file: File
    var regionMetas: seq<SSTBlockMeta>
    ghost var tables: seq<Table>          // what was flushed, block by block

    ghost predicate Valid()
      reads this, file, regionMetas
    {
      && |regionMetas| == |tables|
      && forall i :: 0 <= i < |regionMetas| ==> BlockStored(regionMetas[i], tables[i])
    }

    ghost predicate BlockStored(m: SSTBlockMeta, t: Table)
      reads m, file
    {
      m.stored && BlockAt(file.bytes, m.fileOffset, t) && Typed(t.rows, t.columns) && InWords(t)
    }

    constructor (file: File)
      ensures Valid() && tables == [] && this.file == file
    {
      this.file, regionMetas, tables := file, [], [];
    }

    /** Another object of the same region may append to the same file; blocks stored here stay readable. */
    twostate lemma StillStored()
      requires old(Valid()) && old(file.bytes) <= file.bytes
      requires unchanged(this) && forall m | m in regionMetas :: unchanged(m)
      ensures Valid()
    {
      hide BlockAt, Typed, InWords;
      var more := file.bytes[|old(file.bytes)|..];
      assert file.bytes == old(file.bytes) + more;
      forall i | 0 <= i < |regionMetas|
        ensures BlockStored(regionMetas[i], tables[i])
      {
        assert old(BlockStored(regionMetas[i], tables[i])) && regionMetas[i] in regionMetas;
        BlockStays(old(file.bytes), more, regionMetas[i].fileOffset, tables[i]);
      }
    }

    /** `appendMemtable` */
    method AppendMemtable(memtable: Memtable, startTime: U64, endTime: U64) returns (ok: bool)
      requires Valid() && memtable.Valid() && TableInv(memtable.View()) && InWords(memtable.View())
      modifies this, file
      ensures Valid() && old(file.bytes) <= file.bytes
      ensures ok == Typed(memtable.table, memtable.columns)
      ensures tables == if ok then old(tables) + [memtable.View()] else old(tables)
      ensures old(regionMetas) <= regionMetas && |regionMetas| == |old(regionMetas)| + if ok then 1 else 0
      ensures ok ==>
        regionMetas[|old(regionMetas)|].startTime == startTime && regionMetas[|old(regionMetas)|].endTime == endTime
    {
      hide BlockOf, Typed, InWords, TableInv, BlockSize;
      var meta := new SSTBlockMeta(startTime, endTime);
      var r := meta.FlushBlock(file, memtable);
      ok := r.Stored?;
      StillStored();
      if ok {
        StoredAtEnd(file.bytes, meta.fileOffset, memtable.View());
        assert BlockStored(meta, memtable.View());
        regionMetas := regionMetas + [meta];
        tables := tables + [memtable.View()];
      }
    }

    static lemma StoredAtEnd(bytes: seq<Byte>, offset: nat, t: Table)
      requires offset <= |bytes| && BlockOf(bytes[offset..], t)
      ensures BlockAt(bytes, offset, t)
    {
      hide Header, VarMeta, At;
      assert bytes[offset..offset + BlockSize(t)] == bytes[offset..];
    }

    /** Every flushed table can be loaded again, whatever was appended since: the block object has the addresses the
        writer used, and every cell reads back. */
    method Load(i: nat) returns (block: SSTBlock)
      requires Valid() && i < |regionMetas|
      ensures block.PointersFor(tables[i])
      ensures Readable(block.buffer[..], tables[i])
    {
      hide BlockOf, Typed, InWords;
      assert BlockStored(regionMetas[i], tables[i]);
      HeaderSize(file.bytes, regionMetas[i].fileOffset, tables[i]);
      var r := regionMetas[i].LoadBlock(file);
      block := r.block;
      PointersOfBlock(block, tables[i]);
    }

    static lemma PointersOfBlock(block: SSTBlock, t: Table)
      requires Readable(block.buffer[..], t) && block.PointersOf(block.buffer[..])
      ensures block.PointersFor(t)
    {
      hide Header, VarMeta, At, ColumnCount, RowsStart, VarStart, RowsAt, VarAt, RowCells, RowStrings, Area, RowSize;
      HeaderRead(block.buffer[..], t);
    }
  }
}
